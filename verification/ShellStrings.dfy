/** nulterminate of xv6-public/sh.c: after parsing, every word and file name in the tree reads as a C
    string from its start pointer. */
module ShellStrings {
  import opened Param
  import opened ShellSyntax
  import opened Shell

  function Spans(cmd: Cmd<Span>): set<Span> {
    match cmd
    case Exec(argv) => set w | w in argv
    case Redir(c, file, _, _) => Spans(c) + {file}
    case Pipe(l, r) => Spans(l) + Spans(r)
    case List(l, r) => Spans(l) + Spans(r)
    case Back(c) => Spans(c)
  }

  // A maximal run of characters that are neither white space nor symbols.
  predicate Maximal(buf: string, w: Span) {
    && w.q < w.eq <= |buf| && (forall i :: w.q <= i < w.eq ==> !Space(buf[i]) && !Symbol(buf[i]))
    && (w.eq < |buf| ==> Space(buf[w.eq]) || Symbol(buf[w.eq]))
  }

  lemma {:induction false} LexMaximal(buf: string, p: nat)
    requires p <= |buf|
    ensures forall t :: t in Lex(buf, p) && t.Word? ==> Maximal(buf, t.w)
    decreases |buf| - p
  {
    var s := Skip(buf, p);
    if s < |buf| { LexMaximal(buf, TokenAt(buf, s).1); }
  }

  // Every span of cmd is a word of ts, and rest is made of tokens of ts.
  ghost predicate From(cmd: Cmd<Span>, rest: seq<Tok>, ts: seq<Tok>) {
    (forall w :: w in Spans(cmd) ==> Word(w) in ts) && (forall t :: t in rest ==> t in ts)
  }

  ghost predicate FilesFrom(rds: seq<Rd<Span>>, rest: seq<Tok>, ts: seq<Tok>) {
    (forall i :: 0 <= i < |rds| ==> Word(rds[i].file) in ts) && (forall t :: t in rest ==> t in ts)
  }

  lemma {:induction false} RedirsFrom(ts: seq<Tok>)
    requires Redirs(ts).RdOk?
    ensures FilesFrom(Redirs(ts).rds, Redirs(ts).rest, ts)
    decreases |ts|
  {
    if IsRedir(ts) {
      RedirsFrom(ts[2..]);
      assert ts[1] in ts;
      assert forall t :: t in ts[2..] ==> t in ts;
    }
  }

  lemma {:induction false} ArgumentsFrom(ts: seq<Tok>, argc: nat)
    requires Arguments(ts, argc).ArgOk?
    ensures var r := Arguments(ts, argc); FilesFrom(r.rds, r.rest, ts) && forall w :: w in r.argv ==> Word(w) in ts
    decreases |ts|
  {
    if ts != [] && !IsStop(ts) {
      var rs := Redirs(ts[1..]);
      RedirsFrom(ts[1..]);
      ArgumentsFrom(rs.rest, argc + 1);
      assert ts[0] in ts && forall t :: t in ts[1..] ==> t in ts;
      var more := Arguments(rs.rest, argc + 1);
      var rds := rs.rds + more.rds;
      forall i | 0 <= i < |rds| ensures Word(rds[i].file) in ts {
        if i < |rs.rds| { assert rds[i] == rs.rds[i]; } else { assert rds[i] == more.rds[i - |rs.rds|]; }
      }
    }
  }

  lemma {:induction false} WrapSpans(cmd: Cmd<Span>, rds: seq<Rd<Span>>, ts: seq<Tok>)
    requires (forall w :: w in Spans(cmd) ==> Word(w) in ts) && forall i :: 0 <= i < |rds| ==> Word(rds[i].file) in ts
    ensures forall w :: w in Spans(Wrap(cmd, rds)) ==> Word(w) in ts
    decreases |rds|
  {
    if rds != [] { WrapSpans(cmd, rds[..|rds| - 1], ts); }
  }

  lemma {:induction false} ExecFrom(ts: seq<Tok>)
    requires ParseExec(ts).Ok?
    ensures From(ParseExec(ts).cmd, ParseExec(ts).rest, ts)
    decreases |ts|, 0
  {
    if IsSym(ts, '(') {
      var r := ParseLine(ts[1..]);
      LineFrom(ts[1..]);
      RedirsFrom(r.rest[1..]);
      assert forall t :: t in ts[1..] ==> t in ts;
      assert forall t :: t in r.rest[1..] ==> t in r.rest;
      WrapSpans(r.cmd, Redirs(r.rest[1..]).rds, ts);
    } else {
      var rs := Redirs(ts);
      RedirsFrom(ts);
      var args := Arguments(rs.rest, 0);
      ArgumentsFrom(rs.rest, 0);
      var rds := rs.rds + args.rds;
      forall i | 0 <= i < |rds| ensures Word(rds[i].file) in ts {
        if i < |rs.rds| { assert rds[i] == rs.rds[i]; } else { assert rds[i] == args.rds[i - |rs.rds|]; }
      }
      WrapSpans(Exec(args.argv), rds, ts);
    }
  }

  lemma {:induction false} PipeFrom(ts: seq<Tok>)
    requires ParsePipe(ts).Ok?
    ensures From(ParsePipe(ts).cmd, ParsePipe(ts).rest, ts)
    decreases |ts|, 1
  {
    var r := ParseExec(ts);
    ExecFrom(ts);
    if IsSym(r.rest, '|') {
      PipeFrom(r.rest[1..]);
      assert forall t :: t in r.rest[1..] ==> t in r.rest;
    }
  }

  lemma {:induction false} BacksFrom(cmd: Cmd<Span>, ts: seq<Tok>, all: seq<Tok>)
    requires From(cmd, ts, all)
    ensures From(Backs(cmd, ts).cmd, Backs(cmd, ts).rest, all)
    decreases |ts|
  {
    if IsSym(ts, '&') {
      assert forall t :: t in ts[1..] ==> t in ts;
      BacksFrom(Back(cmd), ts[1..], all);
    }
  }

  lemma {:induction false} LineFrom(ts: seq<Tok>)
    requires ParseLine(ts).Ok?
    ensures From(ParseLine(ts).cmd, ParseLine(ts).rest, ts)
    decreases |ts|, 2
  {
    var r := ParsePipe(ts);
    PipeFrom(ts);
    BacksFrom(r.cmd, r.rest, ts);
    var b := Backs(r.cmd, r.rest);
    if IsSym(b.rest, ';') {
      LineFrom(b.rest[1..]);
      assert forall t :: t in b.rest[1..] ==> t in b.rest;
    }
  }

  // Where nulterminate writes.
  predicate EndOf(cmd: Cmd<Span>, i: nat) {
    exists w :: w in Spans(cmd) && w.eq == i
  }

  method Nulterminate(a: array<char>, cmd: Cmd<Span>)
    requires forall w :: w in Spans(cmd) ==> w.eq < a.Length
    modifies a
    ensures forall i :: 0 <= i < a.Length ==> a[i] == if EndOf(cmd, i) then '\0' else old(a[i])
    decreases cmd
  {
    match cmd
    case Exec(argv) =>
      var k := 0;
      while k < |argv|
        invariant 0 <= k <= |argv|
        invariant forall i :: 0 <= i < a.Length ==>
                    a[i] == if exists j :: 0 <= j < k && argv[j].eq == i then '\0' else old(a[i])
      {
        assert argv[k] in Spans(cmd);
        a[argv[k].eq] := '\0';
        k := k + 1;
      }
      forall i | 0 <= i < a.Length ensures EndOf(cmd, i) <==> exists j :: 0 <= j < |argv| && argv[j].eq == i {
        if EndOf(cmd, i) { var w :| w in Spans(cmd) && w.eq == i; var j :| 0 <= j < |argv| && argv[j] == w; }
        if j :| 0 <= j < |argv| && argv[j].eq == i { assert argv[j] in Spans(cmd); }
      }
    case Redir(c, file, _, _) =>
      Nulterminate(a, c);
      a[file.eq] := '\0';
    case Pipe(l, r) =>
      Nulterminate(a, l);
      Nulterminate(a, r);
    case List(l, r) =>
      Nulterminate(a, l);
      Nulterminate(a, r);
    case Back(c) =>
      Nulterminate(a, c);
  }

  // The C string at p.
  function StringAt(s: seq<char>, p: nat): string
    decreases |s| - p
  {
    if p < |s| && s[p] != '\0' then [s[p]] + StringAt(s, p + 1) else []
  }

  lemma {:induction false} StringAtIs(s: seq<char>, q: nat, eq: nat)
    requires q <= eq < |s| && s[eq] == '\0' && forall i :: q <= i < eq ==> s[i] != '\0'
    ensures StringAt(s, q) == s[q..eq]
    decreases eq - q
  {
    if q < eq {
      StringAtIs(s, q + 1, eq);
      assert s[q..eq] == [s[q]] + s[q + 1..eq];
    }
  }

  // No word contains another word's end.
  lemma EndsOutside(buf: string, cmd: Cmd<Span>, w: Span)
    requires w in Spans(cmd) && forall v :: v in Spans(cmd) ==> Maximal(buf, v)
    ensures forall i :: w.q <= i < w.eq ==> !EndOf(cmd, i)
  {
    assert Maximal(buf, w);
    forall v | v in Spans(cmd) ensures !(w.q <= v.eq < w.eq) { assert Maximal(buf, v); }
  }

  // parsecmd on the NUL-terminated line in a.
  method Parse(a: array<char>) returns (r: Option<Cmd<Span>>)
    requires a.Length > 0 && a[a.Length - 1] == '\0' && forall i :: 0 <= i < a.Length - 1 ==> a[i] != '\0'
    modifies a
    ensures r == ParseCmd(old(a[..a.Length - 1]))
    ensures r.None? ==> a[..] == old(a[..])
    ensures r.Some? ==> forall w :: w in Spans(r.value) ==>
              w.q < w.eq < a.Length && StringAt(a[..], w.q) == old(a[..])[w.q..w.eq]
                  && Maximal(old(a[..a.Length - 1]), w)
  {
    var buf := a[..a.Length - 1];
    r := Parsecmd(buf);
    if r.Some? {
      var cmd := r.value;
      LexMaximal(buf, 0);
      LineFrom(Lex(buf, 0));
      Nulterminate(a, cmd);
      ghost var s, s0 := a[..], old(a[..]);
      forall w | w in Spans(cmd) ensures w.q < w.eq < a.Length && StringAt(s, w.q) == s0[w.q..w.eq] && Maximal(buf, w) {
        EndsOutside(buf, cmd, w);
        assert EndOf(cmd, w.eq);
        assert forall i :: w.q <= i < w.eq ==> s[i] == s0[i] && s0[i] == buf[i];
        StringAtIs(s, w.q, w.eq);
        assert s[w.q..w.eq] == s0[w.q..w.eq];
      }
    }
  }
}
