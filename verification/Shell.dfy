/** The recursive-descent parser of xv6-public/sh.c. ps is the cursor; None stands for a panic. */
module Shell {
  import opened Param
  import opened ShellSyntax
  import opened ShellGrammar

  lemma {:induction false} SkipTwice(buf: string, p: nat)
    requires p <= |buf|
    ensures Skip(buf, Skip(buf, p)) == Skip(buf, p) && Lex(buf, Skip(buf, p)) == Lex(buf, p)
  {
  }

  // What the character at the cursor says about the next token.
  lemma NextToken(buf: string, p: nat)
    requires p <= |buf|
    ensures var s, ts := Skip(buf, p), Lex(buf, p);
            && (s == |buf| <==> ts == [])
            && (s < |buf| ==> ts[0] == TokenAt(buf, s).0 && ts[1..] == Lex(buf, TokenAt(buf, s).1))
            && (forall c :: Symbol(c) && c != '>' ==> (IsSym(ts, c) <==> s < |buf| && buf[s] == c))
            && (IsRedir(ts) <==> s < |buf| && (buf[s] == '<' || buf[s] == '>'))
  {
  }

  // A loop over white space.
  method SkipSpace(buf: string, ps: nat) returns (s: nat)
    requires ps <= |buf|
    ensures s == Skip(buf, ps)
  {
    s := ps;
    while s < |buf| && Space(buf[s])
      invariant ps <= s <= |buf| && Skip(buf, s) == Skip(buf, ps)
    {
      s := s + 1;
    }
  }

  method ScanWord(buf: string, q: nat) returns (s: nat)
    requires q <= |buf|
    ensures s == WordEnd(buf, q)
  {
    s := q;
    while s < |buf| && !Space(buf[s]) && !Symbol(buf[s])
      invariant q <= s <= |buf| && WordEnd(buf, s) == WordEnd(buf, q)
    {
      s := s + 1;
    }
  }

  // None at the end of the line.
  method Gettoken(buf: string, ps: nat) returns (tok: Option<Tok>, ps': nat)
    requires ps <= |buf|
    ensures ps <= ps' <= |buf|
    ensures tok.None? <==> Lex(buf, ps) == []
    ensures tok.None? ==> ps' == |buf|
    ensures tok.Some? ==> ps < ps' && Lex(buf, ps)[0] == tok.value && Lex(buf, ps') == Lex(buf, ps)[1..]
  {
    var s := SkipSpace(buf, ps);
    NextToken(buf, ps);
    if s == |buf| { return None, s; }
    var q := s;
    if Symbol(buf[s]) && buf[s] != '>' {
      tok := Some(Sym(buf[s]));
      s := s + 1;
    } else if buf[s] == '>' {
      tok := Some(Sym('>'));
      s := s + 1;
      if s < |buf| && buf[s] == '>' {
        tok := Some(Append);
        s := s + 1;
      }
    } else {
      s := ScanWord(buf, s);
      tok := Some(Word(Span(q, s)));
    }
    ps' := SkipSpace(buf, s);
    SkipTwice(buf, s);
  }

  method Peek(buf: string, ps: nat, toks: string) returns (found: bool, ps': nat)
    requires ps <= |buf|
    ensures ps <= ps' == Skip(buf, ps) <= |buf| && Lex(buf, ps') == Lex(buf, ps)
    ensures found <==> ps' < |buf| && buf[ps'] in toks
    ensures (forall c :: c in toks ==> Symbol(c)) ==> (found <==> Starts(Lex(buf, ps), toks))
  {
    ps' := SkipSpace(buf, ps);
    found := ps' < |buf| && buf[ps'] in toks;
    SkipTwice(buf, ps);
    NextToken(buf, ps);
  }

  // The three ways the parser calls peek.
  method PeekRedir(buf: string, ps: nat) returns (found: bool, ps': nat)
    requires ps <= |buf|
    ensures ps <= ps' <= |buf| && Lex(buf, ps') == Lex(buf, ps) && (found <==> IsRedir(Lex(buf, ps)))
  {
    found, ps' := Peek(buf, ps, "<>");
    assert '<' == "<>"[0] && '>' == "<>"[1];
  }

  method PeekStop(buf: string, ps: nat) returns (found: bool, ps': nat)
    requires ps <= |buf|
    ensures ps <= ps' <= |buf| && Lex(buf, ps') == Lex(buf, ps) && (found <==> IsStop(Lex(buf, ps)))
  {
    found, ps' := Peek(buf, ps, "|)&;");
    assert '|' == "|)&;"[0] && ')' == "|)&;"[1] && '&' == "|)&;"[2] && ';' == "|)&;"[3];
  }

  method PeekSym(buf: string, ps: nat, c: char) returns (found: bool, ps': nat)
    requires ps <= |buf| && Symbol(c) && c != '>'
    ensures ps <= ps' <= |buf| && Lex(buf, ps') == Lex(buf, ps) && (found <==> IsSym(Lex(buf, ps), c))
  {
    found, ps' := Peek(buf, ps, [c]);
  }

  function Prepend(acc: seq<Rd<Span>>, r: Rds): Rds { if r.RdFail? then RdFail else RdOk(acc + r.rds, r.rest) }

  lemma PrependStep(acc: seq<Rd<Span>>, ts: seq<Tok>)
    requires IsRedir(ts)
    ensures |ts| >= 2 && ts[1].Word? ==>
              Prepend(acc, Redirs(ts)) == Prepend(acc + [RdOf(ts[0], ts[1].w)], Redirs(ts[2..]))
    ensures !(|ts| >= 2 && ts[1].Word?) ==> Redirs(ts) == RdFail
  {
    if |ts| >= 2 && ts[1].Word? && Redirs(ts[2..]).RdOk? {
      var x, r := RdOf(ts[0], ts[1].w), Redirs(ts[2..]).rds;
      assert acc + ([x] + r) == acc + [x] + r;
    }
  }

  // rds are the redirections found, the first innermost.
  method Parseredirs(buf: string, ps: nat) returns (rds: Option<seq<Rd<Span>>>, ps': nat)
    requires ps <= |buf|
    ensures ps <= ps' <= |buf|
    ensures var r := Redirs(Lex(buf, ps));
            if r.RdFail? then rds.None? else rds == Some(r.rds) && Lex(buf, ps') == r.rest
    ensures rds.Some? ==> exists xs :: Redirected(Lex(buf, ps), xs, rds.value, Lex(buf, ps'))
    ensures rds.None? ==> forall xs, rds', rest :: !Redirected(Lex(buf, ps), xs, rds', rest)
  {
    RedirsIff(Lex(buf, ps));
    var found: bool;
    var acc := [];
    ghost var ts := Redirs(Lex(buf, ps));
    found, ps' := PeekRedir(buf, ps);
    assert Prepend([], ts) == ts;
    while found
      invariant ps <= ps' <= |buf| && (found <==> IsRedir(Lex(buf, ps'))) && ts == Prepend(acc, Redirs(Lex(buf, ps')))
      decreases |buf| - ps'
    {
      ghost var t0 := Lex(buf, ps');
      PrependStep(acc, t0);
      var tok, w;
      tok, ps' := Gettoken(buf, ps');
      w, ps' := Gettoken(buf, ps');
      if w.None? || !w.value.Word? { return None, ps'; }
      assert t0[1..][1..] == t0[2..];
      acc := acc + [RdOf(tok.value, w.value.w)];
      found, ps' := PeekRedir(buf, ps');
    }
    assert acc + [] == acc;
    rds := Some(acc);
  }

  function PrependArgs(argv: seq<Span>, rds: seq<Rd<Span>>, r: Args): Args {
    if r.ArgFail? then ArgFail else ArgOk(argv + r.argv, rds + r.rds, r.rest)
  }

  lemma ArgsStep(argv: seq<Span>, rds: seq<Rd<Span>>, ts: seq<Tok>, argc: nat)
    requires ts != [] && !IsStop(ts)
    ensures !ts[0].Word? || argc + 1 >= MAXARGS || Redirs(ts[1..]).RdFail? ==> Arguments(ts, argc) == ArgFail
    ensures ts[0].Word? && argc + 1 < MAXARGS && Redirs(ts[1..]).RdOk? ==>
              var rs := Redirs(ts[1..]);
              PrependArgs(argv, rds, Arguments(ts, argc)) ==
                  PrependArgs(argv + [ts[0].w], rds + rs.rds, Arguments(rs.rest, argc + 1))
  {
    if ts[0].Word? && argc + 1 < MAXARGS && Redirs(ts[1..]).RdOk? {
      var rs := Redirs(ts[1..]);
      var more := Arguments(rs.rest, argc + 1);
      if more.ArgOk? {
        assert argv + ([ts[0].w] + more.argv) == argv + [ts[0].w] + more.argv;
        assert rds + (rs.rds + more.rds) == rds + rs.rds + more.rds;
      }
    }
  }

  datatype Turn = TurnEnd | TurnFail | TurnWord(w: Span, rds: seq<Rd<Span>>)

  // One turn of the loop of parseexec, with argc words so far.
  method Parsearg(buf: string, ps: nat, argc: nat) returns (t: Turn, ps': nat)
    requires ps <= |buf| && !IsStop(Lex(buf, ps))
    ensures ps <= ps' <= |buf|
    ensures t.TurnEnd? <==> Lex(buf, ps) == []
    ensures t.TurnEnd? ==> Lex(buf, ps') == []
    ensures t.TurnFail? ==> Arguments(Lex(buf, ps), argc) == ArgFail
    ensures t.TurnWord? ==>
              ps < ps' && argc + 1 < MAXARGS && Lex(buf, ps)[0] == Word(t.w)
                  && Redirs(Lex(buf, ps)[1..]) == RdOk(t.rds, Lex(buf, ps'))
  {
    var tok, more;
    tok, ps' := Gettoken(buf, ps);
    if tok.None? { return TurnEnd, ps'; }
    if !tok.value.Word? { return TurnFail, ps'; }
    if argc + 1 >= MAXARGS { return TurnFail, ps'; }
    more, ps' := Parseredirs(buf, ps');
    t := if more.None? then TurnFail else TurnWord(tok.value.w, more.value);
  }

  // The loop of parseexec over the words of a command, rds0 being the redirections before the first.
  method Parseargs(buf: string, ps: nat, rds0: seq<Rd<Span>>)
    returns (argv: seq<Span>, rds: seq<Rd<Span>>, ok: bool, ps': nat)
    requires ps <= |buf|
    ensures ps <= ps' <= |buf|
    ensures var r := Arguments(Lex(buf, ps), 0);
            if r.ArgFail? then !ok else ok && argv == r.argv && rds == rds0 + r.rds && Lex(buf, ps') == r.rest
  {
    argv, rds, ok := [], rds0, false;
    ghost var all := PrependArgs([], rds0, Arguments(Lex(buf, ps), 0));
    PrependToNone(rds0, Arguments(Lex(buf, ps), 0));
    var stop;
    stop, ps' := PeekStop(buf, ps);
    while !stop
      invariant ps <= ps' <= |buf| && (stop <==> IsStop(Lex(buf, ps')))
                && all == PrependArgs(argv, rds, Arguments(Lex(buf, ps'), |argv|))
      decreases |buf| - ps', !stop
    {
      ghost var ts := Lex(buf, ps');
      var t;
      t, ps' := Parsearg(buf, ps', |argv|);
      if t.TurnEnd? { break; }
      if t.TurnFail? { return; }
      ArgsStep(argv, rds, ts, |argv|);
      argv := argv + [t.w];
      rds := rds + t.rds;
      stop, ps' := PeekStop(buf, ps');
    }
    PrependNothing(argv, rds, Lex(buf, ps'), |argv|);
    ok := true;
  }

  lemma PrependToNone(rds: seq<Rd<Span>>, r: Args)
    ensures PrependArgs([], rds, r) == if r.ArgFail? then ArgFail else ArgOk(r.argv, rds + r.rds, r.rest)
  {
  }

  lemma PrependNothing(argv: seq<Span>, rds: seq<Rd<Span>>, ts: seq<Tok>, argc: nat)
    requires ts == [] || IsStop(ts)
    ensures PrependArgs(argv, rds, Arguments(ts, argc)) == ArgOk(argv, rds, ts)
  {
    assert argv + [] == argv && rds + [] == rds;
  }

  // parseblock
  method Parseblock(buf: string, ps: nat) returns (r: Option<Cmd<Span>>, ps': nat)
    requires ps <= |buf| && IsSym(Lex(buf, ps), '(')
    ensures ps <= ps' <= |buf|
    ensures var p := ParseExec(Lex(buf, ps)); if p.Fail? then r.None? else r == Some(p.cmd) && Lex(buf, ps') == p.rest
    decreases |Lex(buf, ps)|, 0
  {
    var tok, found, rds;
    tok, ps' := Gettoken(buf, ps);
    r, ps' := Parseline(buf, ps');
    if r.None? { return; }
    found, ps' := PeekSym(buf, ps', ')');
    if !found { return None, ps'; }
    tok, ps' := Gettoken(buf, ps');
    rds, ps' := Parseredirs(buf, ps');
    r := if rds.None? then None else Some(Wrap(r.value, rds.value));
  }

  method Parseexec(buf: string, ps: nat) returns (r: Option<Cmd<Span>>, ps': nat)
    requires ps <= |buf|
    ensures ps <= ps' <= |buf|
    ensures var p := ParseExec(Lex(buf, ps)); if p.Fail? then r.None? else r == Some(p.cmd) && Lex(buf, ps') == p.rest
    decreases |Lex(buf, ps)|, 1
  {
    var block, rds, ok;
    block, ps' := PeekSym(buf, ps, '(');
    if block {
      r, ps' := Parseblock(buf, ps');
      return;
    }
    rds, ps' := Parseredirs(buf, ps');
    if rds.None? { return None, ps'; }
    var argv, all;
    argv, all, ok, ps' := Parseargs(buf, ps', rds.value);
    r := if ok then Some(Wrap(Exec(argv), all)) else None;
  }

  method Parsepipe(buf: string, ps: nat) returns (r: Option<Cmd<Span>>, ps': nat)
    requires ps <= |buf|
    ensures ps <= ps' <= |buf|
    ensures var p := ParsePipe(Lex(buf, ps)); if p.Fail? then r.None? else r == Some(p.cmd) && Lex(buf, ps') == p.rest
    decreases |Lex(buf, ps)|, 2
  {
    r, ps' := Parseexec(buf, ps);
    if r.None? { return; }
    var found, tok, right;
    found, ps' := PeekSym(buf, ps', '|');
    if found {
      tok, ps' := Gettoken(buf, ps');
      right, ps' := Parsepipe(buf, ps');
      r := if right.None? then None else Some(Pipe(r.value, right.value));
    }
  }

  // The loop of parseline over '&'.
  method Parsebacks(buf: string, ps: nat, cmd0: Cmd<Span>) returns (cmd: Cmd<Span>, ps': nat)
    requires ps <= |buf|
    ensures ps <= ps' <= |buf| && Ok(cmd, Lex(buf, ps')) == Backs(cmd0, Lex(buf, ps))
  {
    cmd := cmd0;
    var found, tok;
    found, ps' := PeekSym(buf, ps, '&');
    while found
      invariant ps <= ps' <= |buf| && (found <==> IsSym(Lex(buf, ps'), '&'))
                && Backs(cmd, Lex(buf, ps')) == Backs(cmd0, Lex(buf, ps))
      decreases |buf| - ps'
    {
      tok, ps' := Gettoken(buf, ps');
      cmd := Back(cmd);
      found, ps' := PeekSym(buf, ps', '&');
    }
  }

  method Parseline(buf: string, ps: nat) returns (r: Option<Cmd<Span>>, ps': nat)
    requires ps <= |buf|
    ensures ps <= ps' <= |buf|
    ensures var p := ParseLine(Lex(buf, ps)); if p.Fail? then r.None? else r == Some(p.cmd) && Lex(buf, ps') == p.rest
    ensures r.Some? ==> exists used: seq<Tok> :: Lex(buf, ps) == used + Lex(buf, ps') && Line(used, r.value)
    decreases |Lex(buf, ps)|, 3
  {
    ghost var p := ParseLine(Lex(buf, ps));
    if p.Ok? { var used := LineSound(Lex(buf, ps), p.cmd, p.rest); }
    r, ps' := Parsepipe(buf, ps);
    if r.None? { return; }
    var cmd, found, tok, right;
    cmd, ps' := Parsebacks(buf, ps', r.value);
    r := Some(cmd);
    found, ps' := PeekSym(buf, ps', ';');
    if found {
      tok, ps' := Gettoken(buf, ps');
      right, ps' := Parseline(buf, ps');
      r := if right.None? then None else Some(List(cmd, right.value));
    }
  }

  // parsecmd up to nulterminate: it ends on every line, and None is one of the parser's panics.
  method Parsecmd(buf: string) returns (r: Option<Cmd<Span>>)
    ensures r == ParseCmd(buf)
    ensures r.Some? ==> Line(Lex(buf, 0), r.value)
    ensures r.None? ==> forall c: Cmd<Span> :: !Line(Lex(buf, 0), c)
  {
    ParseCmdIff(buf);
    var s, found;
    r, s := Parseline(buf, 0);
    if r.None? { return; }
    SkipTwice(buf, s);
    found, s := Peek(buf, s, "");
    NextToken(buf, s);
    if s != |buf| { return None; }
  }
}
