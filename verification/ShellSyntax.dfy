/** The shell's tokens and grammar, xv6-public/sh.c: what the parser computes, as functions on the
    token sequence. buf is the command line without its terminating NUL. */
module ShellSyntax {
  import opened Param

  predicate Space(c: char) { c == ' ' || c == '\t' || c == '\r' || c == '\n' || c == '\U{000B}' }

  predicate Symbol(c: char) { c == '<' || c == '|' || c == '>' || c == '&' || c == ';' || c == '(' || c == ')' }

  // The characters buf[q..eq].
  datatype Span = Span(q: nat, eq: nat)

  datatype Tok = Sym(c: char) | Append | Word(w: Span)

  // First position from p on that is not white space.
  function Skip(buf: string, p: nat): (r: nat)
    requires p <= |buf|
    ensures p <= r <= |buf| && (r < |buf| ==> !Space(buf[r])) && forall i :: p <= i < r ==> Space(buf[i])
    decreases |buf| - p
  {
    if p < |buf| && Space(buf[p]) then Skip(buf, p + 1) else p
  }

  // End of the word that starts at p.
  function WordEnd(buf: string, p: nat): (r: nat)
    requires p <= |buf|
    ensures p <= r <= |buf| && (r < |buf| ==> Space(buf[r]) || Symbol(buf[r])) && forall i :: p <= i < r ==>
              !Space(buf[i]) && !Symbol(buf[i])
    decreases |buf| - p
  {
    if p < |buf| && !Space(buf[p]) && !Symbol(buf[p]) then WordEnd(buf, p + 1) else p
  }

  // The token that starts at s, and its end.
  function TokenAt(buf: string, s: nat): (r: (Tok, nat))
    requires s < |buf| && !Space(buf[s])
    ensures s < r.1 <= |buf|
  {
    if buf[s] == '>' && s + 1 < |buf| && buf[s + 1] == '>' then (Append, s + 2)
    else if Symbol(buf[s]) then (Sym(buf[s]), s + 1)
    else (Word(Span(s, WordEnd(buf, s))), WordEnd(buf, s))
  }

  // The tokens from p on.
  function Lex(buf: string, p: nat): seq<Tok>
    requires p <= |buf|
    decreases |buf| - p
  {
    var s := Skip(buf, p);
    if s == |buf| then [] else [TokenAt(buf, s).0] + Lex(buf, TokenAt(buf, s).1)
  }

  const MAXARGS := 10
  const O_RDONLY := 0
  const O_WRONLY_CREATE := 0x201

  // W is how words are given: as spans of the buffer, or as text.
  datatype Cmd<W> =
    | Exec(argv: seq<W>)
    | Redir(cmd: Cmd<W>, file: W, mode: nat, fd: nat)
    | Pipe(left: Cmd<W>, right: Cmd<W>)
    | List(left: Cmd<W>, right: Cmd<W>)
    | Back(cmd: Cmd<W>)

  datatype Rd<W> = Rd(file: W, mode: nat, fd: nat)

  // cmd inside its redirections, the first innermost.
  function Wrap<W>(cmd: Cmd<W>, rds: seq<Rd<W>>): Cmd<W> {
    if rds == [] then cmd
    else var r := rds[|rds| - 1]; Redir(Wrap(cmd, rds[..|rds| - 1]), r.file, r.mode, r.fd)
  }

  predicate IsSym(ts: seq<Tok>, c: char) { ts != [] && ts[0] == Sym(c) }

  predicate IsRedir(ts: seq<Tok>) { IsSym(ts, '<') || IsSym(ts, '>') || (ts != [] && ts[0] == Append) }

  predicate IsStop(ts: seq<Tok>) { IsSym(ts, '|') || IsSym(ts, ')') || IsSym(ts, '&') || IsSym(ts, ';') }

  // What peek sees: the first character of the next token is one of toks.
  predicate Starts(ts: seq<Tok>, toks: string) {
    ts != [] && ((ts[0].Sym? && ts[0].c in toks) || (ts[0].Append? && '>' in toks))
  }

  function RdOf(t: Tok, w: Span): Rd<Span> {
    if t == Sym('<') then Rd(w, O_RDONLY, 0) else Rd(w, O_WRONLY_CREATE, 1)
  }

  datatype Rds = RdFail | RdOk(rds: seq<Rd<Span>>, rest: seq<Tok>)

  // parseredirs
  function Redirs(ts: seq<Tok>): (r: Rds)
    ensures r.RdOk? ==> |r.rest| <= |ts|
  {
    if !IsRedir(ts) then RdOk([], ts)
    else if |ts| < 2 || !ts[1].Word? then RdFail
    else
      var r := Redirs(ts[2..]);
      if r.RdFail? then RdFail else RdOk([RdOf(ts[0], ts[1].w)] + r.rds, r.rest)
  }

  datatype Args = ArgFail | ArgOk(argv: seq<Span>, rds: seq<Rd<Span>>, rest: seq<Tok>)

  // The loop of parseexec, after argc words.
  function Arguments(ts: seq<Tok>, argc: nat): (r: Args)
    ensures r.ArgOk? ==> |r.rest| <= |ts|
    decreases |ts|
  {
    if ts == [] || IsStop(ts) then ArgOk([], [], ts)
    else if !ts[0].Word? || argc + 1 >= MAXARGS then ArgFail
    else
      var rs := Redirs(ts[1..]);
      if rs.RdFail? then ArgFail
      else
        var more := Arguments(rs.rest, argc + 1);
        if more.ArgFail? then ArgFail else ArgOk([ts[0].w] + more.argv, rs.rds + more.rds, more.rest)
  }

  datatype Parsed = Fail | Ok(cmd: Cmd<Span>, rest: seq<Tok>)

  function ParseExec(ts: seq<Tok>): (r: Parsed)
    ensures r.Ok? ==> |r.rest| <= |ts|
    decreases |ts|, 0
  {
    if IsSym(ts, '(') then
      var r := ParseLine(ts[1..]);
      if r.Fail? || !IsSym(r.rest, ')') then Fail
      else
        var rs := Redirs(r.rest[1..]);
        if rs.RdFail? then Fail else Ok(Wrap(r.cmd, rs.rds), rs.rest)
    else
      var rs := Redirs(ts);
      if rs.RdFail? then Fail
      else
        var args := Arguments(rs.rest, 0);
        if args.ArgFail? then Fail else Ok(Wrap(Exec(args.argv), rs.rds + args.rds), args.rest)
  }

  function ParsePipe(ts: seq<Tok>): (r: Parsed)
    ensures r.Ok? ==> |r.rest| <= |ts|
    decreases |ts|, 1
  {
    var r := ParseExec(ts);
    if r.Fail? || !IsSym(r.rest, '|') then r
    else
      var r' := ParsePipe(r.rest[1..]);
      if r'.Fail? then Fail else Ok(Pipe(r.cmd, r'.cmd), r'.rest)
  }

  // The loop of parseline over '&'.
  function Backs(cmd: Cmd<Span>, ts: seq<Tok>): (r: Parsed)
    ensures r.Ok? && |r.rest| <= |ts|
    decreases |ts|
  {
    if IsSym(ts, '&') then Backs(Back(cmd), ts[1..]) else Ok(cmd, ts)
  }

  function ParseLine(ts: seq<Tok>): (r: Parsed)
    ensures r.Ok? ==> |r.rest| <= |ts|
    decreases |ts|, 2
  {
    var r := ParsePipe(ts);
    if r.Fail? then Fail
    else
      var b := Backs(r.cmd, r.rest);
      if !IsSym(b.rest, ';') then b
      else
        var r' := ParseLine(b.rest[1..]);
        if r'.Fail? then Fail else Ok(List(b.cmd, r'.cmd), r'.rest)
  }

  // parsecmd: the whole line must be consumed.
  function ParseCmd(buf: string): Option<Cmd<Span>> {
    var r := ParseLine(Lex(buf, 0));
    if r.Ok? && r.rest == [] then Some(r.cmd) else None
  }
}
