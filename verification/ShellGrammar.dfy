/** The shell's grammar, xv6-public/sh.c, as a relation between token sequences and trees:
      line  ::= piped '&'* [';' line]
      piped ::= exec ['|' piped]
      exec  ::= words and redirections in any order | '(' line ')' redirections
    The parser accepts exactly what it derives. */
module ShellGrammar {
  import opened Param
  import opened ShellSyntax

  // What a simple command is made of: words, < file, > file and >> file.
  datatype Item = Arg(w: Span) | In(w: Span) | Out(w: Span, append: bool)

  function ItemTokens(x: Item): (r: seq<Tok>)
    ensures 0 < |r| <= 2
  {
    match x
    case Arg(w) => [Word(w)]
    case In(w) => [Sym('<'), Word(w)]
    case Out(w, append) => [if append then Append else Sym('>'), Word(w)]
  }

  function Tokens(xs: seq<Item>): seq<Tok> {
    if xs == [] then [] else ItemTokens(xs[0]) + Tokens(xs[1..])
  }

  function ItemWords(x: Item): seq<Span> { if x.Arg? then [x.w] else [] }

  function Words(xs: seq<Item>): seq<Span> {
    if xs == [] then [] else ItemWords(xs[0]) + Words(xs[1..])
  }

  // Input is file descriptor 0, opened for reading; output, appended or not, is 1, written and created.
  function ItemRedirections(x: Item): seq<Rd<Span>> {
    match x
    case Arg(_) => []
    case In(w) => [Rd(w, 0, 0)]
    case Out(w, _) => [Rd(w, 0x201, 1)]
  }

  function Redirections(xs: seq<Item>): seq<Rd<Span>> {
    if xs == [] then [] else ItemRedirections(xs[0]) + Redirections(xs[1..])
  }

  predicate NoWords(xs: seq<Item>) { forall i :: 0 <= i < |xs| ==> !xs[i].Arg? }

  // c is core inside the redirections rds, the last outermost.
  predicate Nested(c: Cmd<Span>, core: Cmd<Span>, rds: seq<Rd<Span>>) {
    if rds == [] then c == core
    else
      var r := rds[|rds| - 1];
      c.Redir? && c.file == r.file && c.mode == r.mode && c.fd == r.fd && Nested(c.cmd, core, rds[..|rds| - 1])
  }

  // A simple command.
  ghost predicate IsSimple(ts: seq<Tok>, c: Cmd<Span>, xs: seq<Item>) {
    ts == Tokens(xs) && |Words(xs)| < MAXARGS && Nested(c, Exec(Words(xs)), Redirections(xs))
  }

  // A parenthesised line, closed by the token at i, and its redirections.
  ghost predicate IsBlock(ts: seq<Tok>, c: Cmd<Span>, i: nat, core: Cmd<Span>, xs: seq<Item>)
    decreases |ts|, 0
  {
    && 0 < i < |ts| && ts[0] == Sym('(') && ts[i] == Sym(')') && Line(ts[1..i], core)
    && NoWords(xs) && ts[i + 1..] == Tokens(xs) && Nested(c, core, Redirections(xs))
  }

  ghost predicate Command(ts: seq<Tok>, c: Cmd<Span>)
    decreases |ts|, 1
  {
    || (exists xs: seq<Item> :: IsSimple(ts, c, xs))
    || (exists i: nat, core: Cmd<Span>, xs: seq<Item> :: IsBlock(ts, c, i, core, xs))
  }

  ghost predicate Piped(ts: seq<Tok>, c: Cmd<Span>)
    decreases |ts|, 2
  {
    || Command(ts, c)
    || (c.Pipe? && exists i: nat ::
          i < |ts| && ts[i] == Sym('|') && Command(ts[..i], c.left) && Piped(ts[i + 1..], c.right))
  }

  ghost predicate Backed(ts: seq<Tok>, c: Cmd<Span>)
    decreases |ts|, 3
  {
    || Piped(ts, c)
    || (c.Back? && ts != [] && ts[|ts| - 1] == Sym('&') && Backed(ts[..|ts| - 1], c.cmd))
  }

  ghost predicate Line(ts: seq<Tok>, c: Cmd<Span>)
    decreases |ts|, 4
  {
    || Backed(ts, c)
    || (c.List? && exists i: nat ::
          i < |ts| && ts[i] == Sym(';') && Backed(ts[..i], c.left) && Line(ts[i + 1..], c.right))
  }

  // Tokens that can follow.

  predicate EndsLine(ts: seq<Tok>) { ts == [] || ts[0] == Sym(')') }

  predicate EndsBacked(ts: seq<Tok>) { EndsLine(ts) || ts[0] == Sym(';') }

  predicate EndsPiped(ts: seq<Tok>) { EndsBacked(ts) || ts[0] == Sym('&') }

  predicate EndsCommand(ts: seq<Tok>) { EndsPiped(ts) || ts[0] == Sym('|') }

  // The parser derives what it returns.

  lemma {:induction false} WrapNests(core: Cmd<Span>, rds: seq<Rd<Span>>)
    ensures Nested(Wrap(core, rds), core, rds)
  {
    if rds != [] { WrapNests(core, rds[..|rds| - 1]); }
  }

  lemma {:induction false} NestsIsWrap(c: Cmd<Span>, core: Cmd<Span>, rds: seq<Rd<Span>>)
    requires Nested(c, core, rds)
    ensures c == Wrap(core, rds)
  {
    if rds != [] { NestsIsWrap(c.cmd, core, rds[..|rds| - 1]); }
  }

  lemma Cons(x: Item, xs: seq<Item>)
    ensures Tokens([x] + xs) == ItemTokens(x) + Tokens(xs) && Words([x] + xs) == ItemWords(x) + Words(xs)
    ensures Redirections([x] + xs) == ItemRedirections(x) + Redirections(xs)
  {
    assert ([x] + xs)[1..] == xs;
  }

  lemma Assoc<T>(a: seq<T>, b: seq<T>, c: seq<T>)
    ensures (a + b) + c == a + (b + c)
  {
  }

  lemma {:induction false} Concat(xs: seq<Item>, ys: seq<Item>)
    ensures Tokens(xs + ys) == Tokens(xs) + Tokens(ys) && Words(xs + ys) == Words(xs) + Words(ys)
    ensures Redirections(xs + ys) == Redirections(xs) + Redirections(ys)
  {
    if xs == [] {
      assert xs + ys == ys;
    } else {
      var x, rest := xs[0], xs[1..];
      assert xs == [x] + rest;
      Concat(rest, ys);
      Cons(x, rest);
      Assoc([x], rest, ys);
      Cons(x, rest + ys);
      Assoc(ItemTokens(x), Tokens(rest), Tokens(ys));
      Assoc(ItemWords(x), Words(rest), Words(ys));
      Assoc(ItemRedirections(x), Redirections(rest), Redirections(ys));
    }
  }

  // A redirection token and a file.
  function RedirItem(t: Tok, w: Span): (x: Item)
    requires t == Sym('<') || t == Sym('>') || t == Append
    ensures !x.Arg? && ItemTokens(x) == [t, Word(w)]
  {
    if t == Sym('<') then In(w) else Out(w, t == Append)
  }

  lemma JoinRedir(ts: seq<Tok>, x: Item, ys: seq<Item>, rest: seq<Tok>, xs: seq<Item>)
    requires |ts| >= 2 && ItemTokens(x) == [ts[0], ts[1]] && ts[2..] == Tokens(ys) + rest && xs == [x] + ys
    ensures ts == Tokens(xs) + rest && Redirections(xs) == ItemRedirections(x) + Redirections(ys)
  {
    Cons(x, ys);
    Assoc(ItemTokens(x), Tokens(ys), rest);
    assert ts == [ts[0], ts[1]] + ts[2..];
  }

  lemma RedirsIs(ts: seq<Tok>, rds: seq<Rd<Span>>, rest: seq<Tok>)
    requires Redirs(ts) == RdOk(rds, rest) && IsRedir(ts)
    ensures |ts| >= 2 && ts[1].Word? && Redirs(ts[2..]).RdOk? && Redirs(ts[2..]).rest == rest
    ensures rds == ItemRedirections(RedirItem(ts[0], ts[1].w)) + Redirs(ts[2..]).rds
  {
  }

  lemma {:induction false} RedirsSound(ts: seq<Tok>, rds: seq<Rd<Span>>, rest: seq<Tok>) returns (xs: seq<Item>)
    requires Redirs(ts) == RdOk(rds, rest)
    ensures NoWords(xs) && ts == Tokens(xs) + rest && Redirections(xs) == rds && !IsRedir(rest)
  {
    if !IsRedir(ts) {
      xs := [];
    } else {
      RedirsIs(ts, rds, rest);
      var ys := RedirsSound(ts[2..], Redirs(ts[2..]).rds, rest);
      var x := RedirItem(ts[0], ts[1].w);
      xs := [x] + ys;
      JoinRedir(ts, x, ys, rest, xs);
    }
  }

  lemma {:induction false} NoWordsNone(xs: seq<Item>)
    requires NoWords(xs)
    ensures Words(xs) == []
  {
    if xs != [] { NoWordsNone(xs[1..]); }
  }

  // A word, its redirections ys and the items zs after them.
  lemma WordThen(w: Span, ys: seq<Item>, zs: seq<Item>, rest: seq<Tok>)
    requires NoWords(ys)
    ensures var xs := [Arg(w)] + (ys + zs);
            && Tokens(xs) + rest == [Word(w)] + (Tokens(ys) + (Tokens(zs) + rest))
            && Words(xs) == [w] + Words(zs) && Redirections(xs) == Redirections(ys) + Redirections(zs)
  {
    var x := Arg(w);
    NoWordsNone(ys);
    Concat(ys, zs);
    Cons(x, ys + zs);
    Assoc(ItemTokens(x), Tokens(ys + zs), rest);
    Assoc(Tokens(ys), Tokens(zs), rest);
  }

  lemma JoinArgs(ts: seq<Tok>, w: Span, ys: seq<Item>, mid: seq<Tok>, zs: seq<Item>, rest: seq<Tok>, xs: seq<Item>,
                 argv: seq<Span>, rds: seq<Rd<Span>>)
    requires ts != [] && ts[0] == Word(w) && ts[1..] == Tokens(ys) + mid && mid == Tokens(zs) + rest && NoWords(ys)
    requires argv == [w] + Words(zs) && rds == Redirections(ys) + Redirections(zs) && xs == [Arg(w)] + (ys + zs)
    ensures ts == Tokens(xs) + rest && Words(xs) == argv && Redirections(xs) == rds
  {
    WordThen(w, ys, zs, rest);
    assert ts == [ts[0]] + ts[1..];
  }

  lemma ArgumentsIs(ts: seq<Tok>, argc: nat)
    requires Arguments(ts, argc).ArgOk? && ts != [] && !IsStop(ts)
    ensures ts[0].Word? && argc + 1 < MAXARGS && Redirs(ts[1..]).RdOk?
    ensures var rs := Redirs(ts[1..]); var more := Arguments(rs.rest, argc + 1);
            && more.ArgOk?
            && Arguments(ts, argc) == ArgOk([ts[0].w] + more.argv, rs.rds + more.rds, more.rest)
  {
  }

  lemma {:induction false} ArgumentsSound(ts: seq<Tok>, argc: nat, argv: seq<Span>, rds: seq<Rd<Span>>, rest: seq<Tok>)
    returns (xs: seq<Item>)
    requires Arguments(ts, argc) == ArgOk(argv, rds, rest) && argc < MAXARGS
    ensures ts == Tokens(xs) + rest && Words(xs) == argv && Redirections(xs) == rds && argc + |argv| < MAXARGS
    decreases |ts|
  {
    if ts == [] || IsStop(ts) {
      xs := [];
    } else {
      ArgumentsIs(ts, argc);
      var mid, rds0 := Redirs(ts[1..]).rest, Redirs(ts[1..]).rds;
      var ys := RedirsSound(ts[1..], rds0, mid);
      var more := Arguments(mid, argc + 1);
      var zs := ArgumentsSound(mid, argc + 1, more.argv, more.rds, rest);
      xs := [Arg(ts[0].w)] + (ys + zs);
      JoinArgs(ts, ts[0].w, ys, mid, zs, rest, xs, argv, rds);
    }
  }

  lemma SimpleJoin(ys: seq<Item>, zs: seq<Item>, ts: seq<Tok>, mid: seq<Tok>, rest: seq<Tok>)
    requires NoWords(ys) && ts == Tokens(ys) + mid && mid == Tokens(zs) + rest
    ensures ts == Tokens(ys + zs) + rest && Words(ys + zs) == Words(zs)
    ensures Redirections(ys + zs) == Redirections(ys) + Redirections(zs)
  {
    NoWordsNone(ys);
    Concat(ys, zs);
    Assoc(Tokens(ys), Tokens(zs), rest);
  }

  lemma SimpleSound(ts: seq<Tok>, c: Cmd<Span>, rest: seq<Tok>) returns (used: seq<Tok>)
    requires ParseExec(ts) == Ok(c, rest) && !IsSym(ts, '(')
    ensures ts == used + rest && Command(used, c)
  {
    var rs := Redirs(ts);
    var args := Arguments(rs.rest, 0);
    var ys := RedirsSound(ts, rs.rds, rs.rest);
    var zs := ArgumentsSound(rs.rest, 0, args.argv, args.rds, rest);
    SimpleJoin(ys, zs, ts, rs.rest, rest);
    WrapNests(Exec(args.argv), rs.rds + args.rds);
    used := Tokens(ys + zs);
    assert IsSimple(used, c, ys + zs);
  }

  // '(' a line ')' and redirections, put together.
  lemma BlockJoin(line: seq<Tok>, core: Cmd<Span>, xs: seq<Item>, c: Cmd<Span>, used: seq<Tok>)
    requires Line(line, core) && NoWords(xs) && Nested(c, core, Redirections(xs))
    requires used == [Sym('(')] + line + [Sym(')')] + Tokens(xs)
    ensures Command(used, c)
  {
    var i := |line| + 1;
    assert used[1..i] == line && used[i + 1..] == Tokens(xs);
    assert IsBlock(used, c, i, core, xs);
  }

  lemma InParentheses(ts: seq<Tok>, line: seq<Tok>, r: seq<Tok>, b: seq<Tok>, rest: seq<Tok>)
    requires IsSym(ts, '(') && ts[1..] == line + r && IsSym(r, ')') && r[1..] == b + rest
    ensures ts == [Sym('(')] + line + [Sym(')')] + b + rest
  {
    assert ts == [Sym('(')] + ts[1..] && r == [Sym(')')] + r[1..];
  }

  lemma {:induction false} BlockSound(ts: seq<Tok>, c: Cmd<Span>, rest: seq<Tok>) returns (used: seq<Tok>)
    requires ParseExec(ts) == Ok(c, rest) && IsSym(ts, '(')
    ensures ts == used + rest && Command(used, c)
    decreases |ts|, 0
  {
    var r := ParseLine(ts[1..]);
    var line := LineSound(ts[1..], r.cmd, r.rest);
    var rs := Redirs(r.rest[1..]);
    var xs := RedirsSound(r.rest[1..], rs.rds, rest);
    WrapNests(r.cmd, rs.rds);
    used := [Sym('(')] + line + [Sym(')')] + Tokens(xs);
    BlockJoin(line, r.cmd, xs, c, used);
    InParentheses(ts, line, r.rest, Tokens(xs), rest);
  }

  lemma {:induction false} ExecSound(ts: seq<Tok>, c: Cmd<Span>, rest: seq<Tok>) returns (used: seq<Tok>)
    requires ParseExec(ts) == Ok(c, rest)
    ensures ts == used + rest && Command(used, c)
    decreases |ts|, 1
  {
    if IsSym(ts, '(') { used := BlockSound(ts, c, rest); } else { used := SimpleSound(ts, c, rest); }
  }

  lemma Around<T>(ts: seq<T>, a: seq<T>, r: seq<T>, x: T, b: seq<T>, rest: seq<T>)
    requires ts == a + r && r != [] && r[0] == x && r[1..] == b + rest
    ensures ts == a + [x] + b + rest
  {
    assert r == [x] + r[1..];
  }

  lemma PipeJoin(a: seq<Tok>, left: Cmd<Span>, b: seq<Tok>, right: Cmd<Span>, used: seq<Tok>)
    requires Command(a, left) && Piped(b, right) && used == a + [Sym('|')] + b
    ensures Piped(used, Pipe(left, right))
  {
    var i := |a|;
    assert used[..i] == a && used[i + 1..] == b && used[i] == Sym('|');
  }

  lemma {:induction false} PipeSound(ts: seq<Tok>, c: Cmd<Span>, rest: seq<Tok>) returns (used: seq<Tok>)
    requires ParsePipe(ts) == Ok(c, rest)
    ensures ts == used + rest && Piped(used, c)
    decreases |ts|, 2
  {
    var r := ParseExec(ts);
    var a := ExecSound(ts, r.cmd, r.rest);
    if !IsSym(r.rest, '|') {
      used := a;
    } else {
      var r' := ParsePipe(r.rest[1..]);
      var b := PipeSound(r.rest[1..], r'.cmd, rest);
      used := a + [Sym('|')] + b;
      PipeJoin(a, r.cmd, b, r'.cmd, used);
      Around(ts, a, r.rest, Sym('|'), b, rest);
    }
  }

  lemma {:induction false} BacksSound(a: seq<Tok>, cmd: Cmd<Span>, ts: seq<Tok>, c: Cmd<Span>, rest: seq<Tok>)
    returns (used: seq<Tok>)
    requires Backed(a, cmd) && Backs(cmd, ts) == Ok(c, rest)
    ensures a + ts == used + rest && Backed(used, c) && !IsSym(rest, '&')
    decreases |ts|
  {
    if !IsSym(ts, '&') {
      used := a;
    } else {
      var a' := a + [Sym('&')];
      assert a'[..|a'| - 1] == a;
      assert ts == [ts[0]] + ts[1..] && a' + ts[1..] == a + ts;
      used := BacksSound(a', Back(cmd), ts[1..], c, rest);
    }
  }

  lemma LineJoin(a: seq<Tok>, left: Cmd<Span>, b: seq<Tok>, right: Cmd<Span>, used: seq<Tok>)
    requires Backed(a, left) && Line(b, right) && used == a + [Sym(';')] + b
    ensures Line(used, List(left, right))
  {
    var i := |a|;
    assert used[..i] == a && used[i + 1..] == b && used[i] == Sym(';');
  }

  lemma {:induction false} LineSound(ts: seq<Tok>, c: Cmd<Span>, rest: seq<Tok>) returns (used: seq<Tok>)
    requires ParseLine(ts) == Ok(c, rest)
    ensures ts == used + rest && Line(used, c)
    decreases |ts|, 3
  {
    var r := ParsePipe(ts);
    var p := PipeSound(ts, r.cmd, r.rest);
    var b := Backs(r.cmd, r.rest);
    var a := BacksSound(p, r.cmd, r.rest, b.cmd, b.rest);
    if !IsSym(b.rest, ';') {
      used := a;
    } else {
      var r' := ParseLine(b.rest[1..]);
      var l := LineSound(b.rest[1..], r'.cmd, rest);
      used := a + [Sym(';')] + l;
      LineJoin(a, b.cmd, l, r'.cmd, used);
      Around(ts, a, b.rest, Sym(';'), l, rest);
    }
  }

  // The parser finds what is derived; all is the input with the tokens that follow.

  // Redirections before the first word.
  function Lead(xs: seq<Item>): (k: nat)
    ensures k <= |xs| && NoWords(xs[..k]) && (k < |xs| ==> xs[k].Arg?)
  {
    if xs == [] || xs[0].Arg? then 0
    else
      var k := Lead(xs[1..]);
      assert xs[..k + 1] == [xs[0]] + xs[1..][..k];
      k + 1
  }

  lemma RedirsAre(all: seq<Tok>, x: Item, mid: seq<Tok>)
    requires !x.Arg? && all == ItemTokens(x) + mid
    ensures Redirs(all) == match Redirs(mid)
                           case RdFail => RdFail
                           case RdOk(rds, rest) => RdOk(ItemRedirections(x) + rds, rest)
  {
    assert all[2..] == mid && all[0] == ItemTokens(x)[0] && all[1] == Word(x.w);
  }

  lemma {:induction false} RedirsComplete(xs: seq<Item>, rest: seq<Tok>, all: seq<Tok>)
    requires NoWords(xs) && !IsRedir(rest) && all == Tokens(xs) + rest
    ensures Redirs(all) == RdOk(Redirections(xs), rest)
  {
    if xs == [] {
      assert all == rest;
    } else {
      var x, ys := xs[0], xs[1..];
      var mid := Tokens(ys) + rest;
      Assoc(ItemTokens(x), Tokens(ys), rest);
      RedirsComplete(ys, rest, mid);
      RedirsAre(all, x, mid);
    }
  }

  // A word and the redirections after it, seen from the front.
  lemma WordFirst(xs: seq<Item>, ys: seq<Item>, zs: seq<Item>, rest: seq<Tok>, all: seq<Tok>)
    requires xs != [] && xs[0].Arg? && xs[1..] == ys + zs && NoWords(ys) && all == Tokens(xs) + rest
    ensures all != [] && all[0] == Word(xs[0].w) && all[1..] == Tokens(ys) + (Tokens(zs) + rest)
    ensures Words(xs) == [xs[0].w] + Words(zs) && Redirections(xs) == Redirections(ys) + Redirections(zs)
  {
    assert xs == [Arg(xs[0].w)] + (ys + zs);
    WordThen(xs[0].w, ys, zs, rest);
  }

  lemma NotRedir(zs: seq<Item>, rest: seq<Tok>)
    requires (zs == [] || zs[0].Arg?) && EndsCommand(rest)
    ensures !IsRedir(Tokens(zs) + rest) && !IsSym(Tokens(zs) + rest, '(')
  {
    if zs == [] { assert Tokens(zs) + rest == rest; } else { assert (Tokens(zs) + rest)[0] == Word(zs[0].w); }
  }

  lemma ArgumentsNext(all: seq<Tok>, argc: nat, w: Span, rds: seq<Rd<Span>>, mid: seq<Tok>, argv': seq<Span>,
                      rds': seq<Rd<Span>>, rest: seq<Tok>)
    requires all != [] && all[0] == Word(w) && argc + 1 < MAXARGS && Redirs(all[1..]) == RdOk(rds, mid)
    requires Arguments(mid, argc + 1) == ArgOk(argv', rds', rest)
    ensures Arguments(all, argc) == ArgOk([w] + argv', rds + rds', rest)
  {
  }

  lemma ArgumentsJoined(xs: seq<Item>, ys: seq<Item>, zs: seq<Item>, rest: seq<Tok>, argc: nat, all: seq<Tok>,
                        mid: seq<Tok>)
    requires xs != [] && xs[0].Arg? && xs[1..] == ys + zs && NoWords(ys) && (zs == [] || zs[0].Arg?)
    requires EndsCommand(rest) && argc + 1 < MAXARGS && all == Tokens(xs) + rest && mid == Tokens(zs) + rest
    requires Arguments(mid, argc + 1) == ArgOk(Words(zs), Redirections(zs), rest)
    ensures Arguments(all, argc) == ArgOk(Words(xs), Redirections(xs), rest)
  {
    WordFirst(xs, ys, zs, rest, all);
    NotRedir(zs, rest);
    RedirsComplete(ys, mid, all[1..]);
    ArgumentsNext(all, argc, xs[0].w, Redirections(ys), mid, Words(zs), Redirections(zs), rest);
  }

  lemma WordsAfter(xs: seq<Item>, ys: seq<Item>, zs: seq<Item>)
    requires xs != [] && xs[0].Arg? && xs[1..] == ys + zs
    ensures |Words(xs)| >= 1 + |Words(zs)|
  {
    Concat(ys, zs);
  }

  lemma {:induction false} ArgumentsComplete(xs: seq<Item>, rest: seq<Tok>, argc: nat, all: seq<Tok>)
    requires EndsCommand(rest) && (xs == [] || xs[0].Arg?) && argc + |Words(xs)| < MAXARGS && all == Tokens(xs) + rest
    ensures Arguments(all, argc) == ArgOk(Words(xs), Redirections(xs), rest)
    decreases |xs|
  {
    if xs == [] {
      assert all == rest;
    } else {
      var tail := xs[1..];
      var k := Lead(tail);
      var ys, zs := tail[..k], tail[k..];
      assert tail == ys + zs;
      WordsAfter(xs, ys, zs);
      ArgumentsComplete(zs, rest, argc + 1, Tokens(zs) + rest);
      ArgumentsJoined(xs, ys, zs, rest, argc, all, Tokens(zs) + rest);
    }
  }

  lemma ExecIs(all: seq<Tok>, rds0: seq<Rd<Span>>, mid: seq<Tok>, argv: seq<Span>, rds: seq<Rd<Span>>, rest: seq<Tok>)
    requires !IsSym(all, '(') && Redirs(all) == RdOk(rds0, mid) && Arguments(mid, 0) == ArgOk(argv, rds, rest)
    ensures ParseExec(all) == Ok(Wrap(Exec(argv), rds0 + rds), rest)
  {
  }

  lemma NoParenthesis(ys: seq<Item>, mid: seq<Tok>, all: seq<Tok>)
    requires !IsSym(mid, '(') && all == Tokens(ys) + mid
    ensures !IsSym(all, '(')
  {
    if ys == [] { assert all == mid; } else { assert all[0] == ItemTokens(ys[0])[0]; }
  }

  // Leading redirections, then words with the others.
  lemma Leading(xs: seq<Item>, ys: seq<Item>, zs: seq<Item>, rest: seq<Tok>)
    requires NoWords(ys) && xs == ys + zs
    ensures Tokens(xs) + rest == Tokens(ys) + (Tokens(zs) + rest) && Words(xs) == Words(zs)
    ensures Redirections(xs) == Redirections(ys) + Redirections(zs)
  {
    Concat(ys, zs);
    NoWordsNone(ys);
    Assoc(Tokens(ys), Tokens(zs), rest);
  }

  lemma SimpleComplete(ts: seq<Tok>, c: Cmd<Span>, xs: seq<Item>, rest: seq<Tok>, all: seq<Tok>)
    requires IsSimple(ts, c, xs) && EndsCommand(rest) && all == ts + rest
    ensures ParseExec(all) == Ok(c, rest)
  {
    var k := Lead(xs);
    var ys, zs := xs[..k], xs[k..];
    var mid := Tokens(zs) + rest;
    assert xs == ys + zs;
    Leading(xs, ys, zs, rest);
    NotRedir(zs, rest);
    RedirsComplete(ys, mid, all);
    ArgumentsComplete(zs, rest, 0, mid);
    NoParenthesis(ys, mid, all);
    ExecIs(all, Redirections(ys), mid, Words(zs), Redirections(zs), rest);
    NestsIsWrap(c, Exec(Words(xs)), Redirections(xs));
  }

  lemma {:induction false} BlockComplete(ts: seq<Tok>, c: Cmd<Span>, i: nat, core: Cmd<Span>, xs: seq<Item>,
                                         rest: seq<Tok>, all: seq<Tok>)
    requires IsBlock(ts, c, i, core, xs) && EndsCommand(rest) && all == ts + rest
    ensures ParseExec(all) == Ok(c, rest)
    decreases |ts|, 0
  {
    var inner, close := ts[1..i], ts[i..] + rest;
    BlockSplit(ts, i, rest, all);
    LineComplete(inner, core, close, all[1..]);
    RedirsComplete(xs, rest, close[1..]);
    NestsIsWrap(c, core, Redirections(xs));
  }

  lemma BlockSplit(ts: seq<Tok>, i: nat, rest: seq<Tok>, all: seq<Tok>)
    requires 0 < i < |ts| && all == ts + rest
    ensures all[0] == ts[0] && all[1..] == ts[1..i] + (ts[i..] + rest)
    ensures (ts[i..] + rest)[0] == ts[i] && (ts[i..] + rest)[1..] == ts[i + 1..] + rest
  {
  }

  lemma {:induction false} CommandComplete(ts: seq<Tok>, c: Cmd<Span>, rest: seq<Tok>, all: seq<Tok>)
    requires Command(ts, c) && EndsCommand(rest) && all == ts + rest
    ensures ParseExec(all) == Ok(c, rest)
    decreases |ts|, 1
  {
    if xs: seq<Item> :| IsSimple(ts, c, xs) {
      SimpleComplete(ts, c, xs, rest, all);
    } else {
      var i: nat, core: Cmd<Span>, xs: seq<Item> :| IsBlock(ts, c, i, core, xs);
      BlockComplete(ts, c, i, core, xs, rest, all);
    }
  }

  lemma SplitAt(ts: seq<Tok>, i: nat, rest: seq<Tok>, all: seq<Tok>)
    requires i < |ts| && all == ts + rest
    ensures all == ts[..i] + ([ts[i]] + (ts[i + 1..] + rest))
    ensures ([ts[i]] + (ts[i + 1..] + rest))[1..] == ts[i + 1..] + rest
  {
  }

  lemma {:induction false} PipedComplete(ts: seq<Tok>, c: Cmd<Span>, rest: seq<Tok>, all: seq<Tok>)
    requires Piped(ts, c) && EndsPiped(rest) && all == ts + rest
    ensures ParsePipe(all) == Ok(c, rest)
    decreases |ts|, 2
  {
    if Command(ts, c) {
      CommandComplete(ts, c, rest, all);
    } else {
      var i: nat :| i < |ts| && ts[i] == Sym('|') && Command(ts[..i], c.left) && Piped(ts[i + 1..], c.right);
      SplitAt(ts, i, rest, all);
      CommandComplete(ts[..i], c.left, [ts[i]] + (ts[i + 1..] + rest), all);
      PipedComplete(ts[i + 1..], c.right, rest, ts[i + 1..] + rest);
    }
  }

  lemma {:induction false} BackedComplete(ts: seq<Tok>, c: Cmd<Span>, rest: seq<Tok>, all: seq<Tok>)
    requires Backed(ts, c) && EndsPiped(rest) && all == ts + rest
    ensures ParsePipe(all).Ok? && Backs(ParsePipe(all).cmd, ParsePipe(all).rest) == Backs(c, rest)
    decreases |ts|, 3
  {
    if Piped(ts, c) {
      PipedComplete(ts, c, rest, all);
    } else {
      var ts', rest' := ts[..|ts| - 1], [Sym('&')] + rest;
      assert all == ts' + rest' && rest'[1..] == rest;
      BackedComplete(ts', c.cmd, rest', all);
    }
  }

  lemma {:induction false} LineComplete(ts: seq<Tok>, c: Cmd<Span>, rest: seq<Tok>, all: seq<Tok>)
    requires Line(ts, c) && EndsLine(rest) && all == ts + rest
    ensures ParseLine(all) == Ok(c, rest)
    decreases |ts|, 4
  {
    if Backed(ts, c) {
      BackedComplete(ts, c, rest, all);
    } else {
      var i: nat :| i < |ts| && ts[i] == Sym(';') && Backed(ts[..i], c.left) && Line(ts[i + 1..], c.right);
      SplitAt(ts, i, rest, all);
      BackedComplete(ts[..i], c.left, [ts[i]] + (ts[i + 1..] + rest), all);
      LineComplete(ts[i + 1..], c.right, rest, ts[i + 1..] + rest);
    }
  }

  // The redirections ts begins with are those of xs, and rest begins with none.
  ghost predicate Redirected(ts: seq<Tok>, xs: seq<Item>, rds: seq<Rd<Span>>, rest: seq<Tok>) {
    NoWords(xs) && ts == Tokens(xs) + rest && Redirections(xs) == rds && !IsRedir(rest)
  }

  /** parseredirs takes all the redirections there are, in order, and panics exactly if a file is missing. */
  lemma RedirsIff(ts: seq<Tok>)
    ensures forall rds, rest :: Redirs(ts) == RdOk(rds, rest) <==> exists xs :: Redirected(ts, xs, rds, rest)
    ensures Redirs(ts) == RdFail <==> forall xs, rds, rest :: !Redirected(ts, xs, rds, rest)
  {
    if Redirs(ts).RdOk? {
      var xs := RedirsSound(ts, Redirs(ts).rds, Redirs(ts).rest);
      assert Redirected(ts, xs, Redirs(ts).rds, Redirs(ts).rest);
    }
    forall xs, rds, rest | Redirected(ts, xs, rds, rest) ensures Redirs(ts) == RdOk(rds, rest) {
      RedirsComplete(xs, rest, ts);
    }
  }

  /** Up to a closing parenthesis or the end, parseline accepts exactly the lines of the grammar. */
  lemma ParseLineIff(ts: seq<Tok>, c: Cmd<Span>, rest: seq<Tok>)
    requires EndsLine(rest)
    ensures ParseLine(ts) == Ok(c, rest) <==> exists used: seq<Tok> :: ts == used + rest && Line(used, c)
  {
    if ParseLine(ts) == Ok(c, rest) {
      var used := LineSound(ts, c, rest);
    }
    forall used: seq<Tok> | ts == used + rest && Line(used, c) ensures ParseLine(ts) == Ok(c, rest) {
      LineComplete(used, c, rest, ts);
    }
  }

  /** parsecmd returns a tree exactly if the grammar derives it from the line, and panics exactly if none is. */
  lemma ParseCmdIff(buf: string)
    ensures forall c: Cmd<Span> :: ParseCmd(buf) == Some(c) <==> Line(Lex(buf, 0), c)
    ensures ParseCmd(buf) == None <==> forall c: Cmd<Span> :: !Line(Lex(buf, 0), c)
  {
    var ts := Lex(buf, 0);
    forall c: Cmd<Span> ensures ParseCmd(buf) == Some(c) <==> Line(ts, c) {
      if ParseLine(ts) == Ok(c, []) {
        var used := LineSound(ts, c, []);
        assert used + [] == used;
      }
      if Line(ts, c) { LineComplete(ts, c, [], ts); }
    }
    if ParseCmd(buf).Some? { assert Line(ts, ParseCmd(buf).value); }
  }

  // The token t is written from s to e, and goes on no further.
  ghost predicate Written(buf: string, s: nat, e: nat, t: Tok) {
    && s < e <= |buf|
    && match t
       case Sym(c) => e == s + 1 && buf[s] == c && Symbol(c) && !(c == '>' && e < |buf| && buf[e] == '>')
       case Append => e == s + 2 && buf[s] == '>' && buf[s + 1] == '>'
       case Word(w) =>
         && w == Span(s, e) && (forall i :: s <= i < e ==> !Space(buf[i]) && !Symbol(buf[i]))
         && (e < |buf| ==> Space(buf[e]) || Symbol(buf[e]))
  }

  ghost predicate Blank(buf: string, p: nat, s: nat) {
    p <= s <= |buf| && forall i :: p <= i < s ==> Space(buf[i])
  }

  // From p on buf is the tokens ts, with white space before, between and after them.
  ghost predicate Spells(buf: string, p: nat, ts: seq<Tok>)
    decreases |ts|
  {
    if ts == [] then Blank(buf, p, |buf|)
    else exists s: nat, e: nat :: Blank(buf, p, s) && Written(buf, s, e, ts[0]) && Spells(buf, e, ts[1..])
  }

  lemma TokenUnique(buf: string, p: nat, s: nat, e: nat, t: Tok)
    requires Blank(buf, p, s) && Written(buf, s, e, t)
    ensures p <= |buf| && Skip(buf, p) == s && s < |buf| && TokenAt(buf, s) == (t, e)
  {
    assert !Space(buf[s]);
    if t.Word? { assert WordEnd(buf, s) == e; }
  }

  lemma {:induction false} LexSpells(buf: string, p: nat)
    requires p <= |buf|
    ensures Spells(buf, p, Lex(buf, p))
    decreases |buf| - p
  {
    var s := Skip(buf, p);
    assert Blank(buf, p, s);
    if s < |buf| {
      var (t, e) := TokenAt(buf, s);
      LexSpells(buf, e);
      assert Written(buf, s, e, t) && Lex(buf, p)[1..] == Lex(buf, e);
    }
  }

  lemma {:induction false} SpellsLex(buf: string, p: nat, ts: seq<Tok>)
    requires p <= |buf| && Spells(buf, p, ts)
    ensures Lex(buf, p) == ts
    decreases |ts|
  {
    if ts == [] {
      assert Skip(buf, p) == |buf|;
    } else {
      var s: nat, e: nat :| Blank(buf, p, s) && Written(buf, s, e, ts[0]) && Spells(buf, e, ts[1..]);
      TokenUnique(buf, p, s, e, ts[0]);
      SpellsLex(buf, e, ts[1..]);
      assert ts == [ts[0]] + ts[1..];
    }
  }

  /** gettoken's tokens are the spelling of the line, and the only one. */
  lemma LexIff(buf: string, p: nat, ts: seq<Tok>)
    requires p <= |buf|
    ensures Lex(buf, p) == ts <==> Spells(buf, p, ts)
  {
    LexSpells(buf, p);
    if Spells(buf, p, ts) { SpellsLex(buf, p, ts); }
  }
}
