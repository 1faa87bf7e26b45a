/** A canonical printing of command trees, and the proof that xv6-public/sh.c's parser reads it back. */
module ShellPrint {
  import opened Param
  import opened ShellSyntax

  datatype Text = TSym(c: char) | TWord(w: string)

  type Tree = Cmd<string>

  predicate IsWord(w: string) { w != "" && forall i :: 0 <= i < |w| ==> !Space(w[i]) && !Symbol(w[i]) }

  // A redirection the parser can make.
  predicate IsMode(mode: nat, fd: nat) { (mode == O_RDONLY && fd == 0) || (mode == O_WRONLY_CREATE && fd == 1) }

  // Every tree whose commands have fewer than MAXARGS words.
  predicate Printable(c: Tree) {
    match c
    case Exec(argv) => |argv| < MAXARGS && forall i :: 0 <= i < |argv| ==> IsWord(argv[i])
    case Redir(d, file, mode, fd) => Printable(d) && IsWord(file) && IsMode(mode, fd)
    case Pipe(l, r) => Printable(l) && Printable(r)
    case List(l, r) => Printable(l) && Printable(r)
    case Back(d) => Printable(d)
  }

  // The command inside all redirections, and the redirections.
  function Base(c: Tree): (b: Tree)
    ensures !b.Redir? && (!c.Redir? ==> b == c) && (Printable(c) ==> Printable(b)) && (c.Redir? ==> b < c)
  {
    if c.Redir? then Base(c.cmd) else c
  }

  function RdsOf(c: Tree): (r: seq<Rd<string>>)
    ensures Wrap(Base(c), r) == c
    ensures Printable(c) ==> forall i :: 0 <= i < |r| ==> IsWord(r[i].file) && IsMode(r[i].mode, r[i].fd)
  {
    if c.Redir? then
      var r := RdsOf(c.cmd);
      assert (r + [Rd(c.file, c.mode, c.fd)])[..|r|] == r;
      r + [Rd(c.file, c.mode, c.fd)]
    else []
  }

  function Words(argv: seq<string>): (r: seq<Text>)
    ensures |r| == |argv| && forall i :: 0 <= i < |r| ==> r[i] == TWord(argv[i])
  {
    seq(|argv|, i requires 0 <= i < |argv| => TWord(argv[i]))
  }

  function RdTexts(rds: seq<Rd<string>>): seq<Text> {
    if rds == [] then [] else [TSym(if rds[0].fd == 0 then '<' else '>'), TWord(rds[0].file)] + RdTexts(rds[1..])
  }

  // The order in which the printing functions call each other on one tree.
  function Rank(c: Tree, level: nat): nat {
    match c
    case Exec(_) => level
    case Redir(_, _, _, _) => level
    case Pipe(_, _) => (level + 3) % 4
    case Back(_) => (level + 2) % 4
    case List(_, _) => (level + 1) % 4
  }

  // exec: a simple command, or a block.
  function ExecTexts(c: Tree): seq<Text>
    decreases c, Rank(c, 0)
  {
    var b := Base(c);
    if b.Exec? then Words(b.argv) + RdTexts(RdsOf(c))
    else [TSym('(')] + LineTexts(b) + [TSym(')')] + RdTexts(RdsOf(c))
  }

  function PipeTexts(c: Tree): seq<Text>
    decreases c, Rank(c, 1)
  {
    if c.Pipe? then ExecTexts(c.left) + [TSym('|')] + PipeTexts(c.right) else ExecTexts(c)
  }

  function BackTexts(c: Tree): seq<Text>
    decreases c, Rank(c, 2)
  {
    if c.Back? then BackTexts(c.cmd) + [TSym('&')] else PipeTexts(c)
  }

  function LineTexts(c: Tree): seq<Text>
    decreases c, Rank(c, 3)
  {
    if c.List? then BackTexts(c.left) + [TSym(';')] + LineTexts(c.right) else BackTexts(c)
  }

  function WordText(buf: string, w: Span): string { if w.q <= w.eq <= |buf| then buf[w.q..w.eq] else "" }

  function Argv(buf: string, argv: seq<Span>): (r: seq<string>)
    ensures |r| == |argv| && forall i :: 0 <= i < |r| ==> r[i] == WordText(buf, argv[i])
  {
    seq(|argv|, i requires 0 <= i < |argv| => WordText(buf, argv[i]))
  }

  // The tree with the text of its words.
  function TextOf(buf: string, c: Cmd<Span>): Tree {
    match c
    case Exec(argv) => Exec(Argv(buf, argv))
    case Redir(d, file, mode, fd) => Redir(TextOf(buf, d), WordText(buf, file), mode, fd)
    case Pipe(l, r) => Pipe(TextOf(buf, l), TextOf(buf, r))
    case List(l, r) => List(TextOf(buf, l), TextOf(buf, r))
    case Back(d) => Back(TextOf(buf, d))
  }

  function RdText(buf: string, rds: seq<Rd<Span>>): (r: seq<Rd<string>>)
    ensures |r| == |rds| && forall i :: 0 <= i < |r| ==> r[i] == Rd(WordText(buf, rds[i].file), rds[i].mode, rds[i].fd)
  {
    seq(|rds|, i requires 0 <= i < |rds| => Rd(WordText(buf, rds[i].file), rds[i].mode, rds[i].fd))
  }

  lemma {:induction false} TextOfWrap(buf: string, c: Cmd<Span>, rds: seq<Rd<Span>>)
    ensures TextOf(buf, Wrap(c, rds)) == Wrap(TextOf(buf, c), RdText(buf, rds))
    decreases |rds|
  {
    if rds != [] {
      TextOfWrap(buf, c, rds[..|rds| - 1]);
      assert RdText(buf, rds)[..|rds| - 1] == RdText(buf, rds[..|rds| - 1]);
    }
  }

  predicate ReadsOne(buf: string, t: Tok, x: Text) {
    match x
    case TSym(c) => t == Sym(c)
    case TWord(w) => t.Word? && WordText(buf, t.w) == w
  }

  // ts begins with tokens that read as xs.
  predicate Reads(buf: string, ts: seq<Tok>, xs: seq<Text>) {
    |xs| <= |ts| && forall i :: 0 <= i < |xs| ==> ReadsOne(buf, ts[i], xs[i])
  }

  lemma ReadsSplit(buf: string, ts: seq<Tok>, xs: seq<Text>, ys: seq<Text>)
    requires Reads(buf, ts, xs + ys)
    ensures Reads(buf, ts, xs) && Reads(buf, ts[|xs|..], ys) && ts[|xs + ys|..] == ts[|xs|..][|ys|..]
  {
    forall i | 0 <= i < |xs| ensures ReadsOne(buf, ts[i], xs[i]) { assert (xs + ys)[i] == xs[i]; }
    forall i | 0 <= i < |ys| ensures ReadsOne(buf, ts[|xs|..][i], ys[i]) { assert (xs + ys)[|xs| + i] == ys[i]; }
  }

  // What may follow a command at each level.
  predicate EndsExec(ts: seq<Tok>) { ts == [] || IsStop(ts) }
  predicate EndsPipe(ts: seq<Tok>) { ts == [] || IsSym(ts, ')') || IsSym(ts, '&') || IsSym(ts, ';') }
  predicate EndsLine(ts: seq<Tok>) { ts == [] || IsSym(ts, ')') }

  predicate GoodRds(rds: seq<Rd<string>>) { forall i :: 0 <= i < |rds| ==> IsMode(rds[i].mode, rds[i].fd) }

  // The first of several redirections, and what is after it.
  lemma FirstRedir(buf: string, ts: seq<Tok>, rds: seq<Rd<string>>)
    requires rds != [] && Reads(buf, ts, RdTexts(rds))
    ensures |ts| >= 2 && ReadsOne(buf, ts[0], TSym(if rds[0].fd == 0 then '<' else '>'))
            && ReadsOne(buf, ts[1], TWord(rds[0].file))
    ensures Reads(buf, ts[2..], RdTexts(rds[1..])) && ts[|RdTexts(rds)|..] == ts[2..][|RdTexts(rds[1..])|..]
  {
    var head := [TSym(if rds[0].fd == 0 then '<' else '>'), TWord(rds[0].file)];
    assert RdTexts(rds) == head + RdTexts(rds[1..]);
    ReadsSplit(buf, ts, head, RdTexts(rds[1..]));
    assert ReadsOne(buf, ts[0], head[0]) && ReadsOne(buf, ts[1], head[1]);
  }

  lemma {:induction false} RedirsRead(buf: string, ts: seq<Tok>, rds: seq<Rd<string>>)
    requires Reads(buf, ts, RdTexts(rds)) && GoodRds(rds) && !IsRedir(ts[|RdTexts(rds)|..])
    ensures Redirs(ts).RdOk? && Redirs(ts).rest == ts[|RdTexts(rds)|..] && RdText(buf, Redirs(ts).rds) == rds
    decreases |rds|
  {
    if rds == [] {
      assert ts[0..] == ts;
    } else {
      FirstRedir(buf, ts, rds);
      RedirsRead(buf, ts[2..], rds[1..]);
      NextRedir(buf, ts, rds);
    }
  }

  // A redirection before some that have been read.
  lemma NextRedir(buf: string, ts: seq<Tok>, rds: seq<Rd<string>>)
    requires rds != [] && IsMode(rds[0].mode, rds[0].fd) && |ts| >= 2
    requires ReadsOne(buf, ts[0], TSym(if rds[0].fd == 0 then '<' else '>')) && ReadsOne(buf, ts[1], TWord(rds[0].file))
    requires Redirs(ts[2..]).RdOk? && RdText(buf, Redirs(ts[2..]).rds) == rds[1..]
    ensures Redirs(ts).RdOk? && Redirs(ts).rest == Redirs(ts[2..]).rest && RdText(buf, Redirs(ts).rds) == rds
  {
    var first, more := RdOf(ts[0], ts[1].w), Redirs(ts[2..]).rds;
    assert Redirs(ts).rds == [first] + more;
    RdTextConcat(buf, [first], more);
    assert RdText(buf, [first]) == [rds[0]] && rds == [rds[0]] + rds[1..];
  }

  lemma ArgvCons(buf: string, w: Span, argv: seq<Span>)
    ensures Argv(buf, [w] + argv) == [WordText(buf, w)] + Argv(buf, argv)
  {
  }

  lemma RdTextConcat(buf: string, a: seq<Rd<Span>>, b: seq<Rd<Span>>)
    ensures RdText(buf, a + b) == RdText(buf, a) + RdText(buf, b)
  {
  }

  // One word of a command and the redirections after it.
  lemma ArgumentCons(buf: string, ts: seq<Tok>, argc: nat, rs: seq<Rd<Span>>, mid: seq<Tok>, argv: seq<Span>,
                     rds: seq<Rd<Span>>, rest: seq<Tok>)
    requires ts != [] && ts[0].Word? && argc + 1 < MAXARGS && Redirs(ts[1..]) == RdOk(rs, mid)
             && Arguments(mid, argc + 1) == ArgOk(argv, rds, rest)
    ensures var r := Arguments(ts, argc);
            && r.ArgOk? && r.rest == rest && Argv(buf, r.argv) == [WordText(buf, ts[0].w)] + Argv(buf, argv)
            && RdText(buf, r.rds) == RdText(buf, rs) + RdText(buf, rds)
  {
    ArgvCons(buf, ts[0].w, argv);
    RdTextConcat(buf, rs, rds);
    assert Arguments(ts, argc) == ArgOk([ts[0].w] + argv, rs + rds, rest);
  }

  predicate ArgumentsAre(buf: string, r: Args, argv: seq<string>, rds: seq<Rd<string>>, rest: seq<Tok>) {
    r.ArgOk? && r.rest == rest && Argv(buf, r.argv) == argv && RdText(buf, r.rds) == rds
  }

  // ts reads as xs and then goes on with rest.
  predicate ReadsThen(buf: string, ts: seq<Tok>, xs: seq<Text>, rest: seq<Tok>) {
    Reads(buf, ts, xs) && ts[|xs|..] == rest
  }

  // The last word of a command and the redirections after it.
  lemma LastArgument(buf: string, ts: seq<Tok>, argv: seq<string>, rds: seq<Rd<string>>, argc: nat, rest: seq<Tok>)
    requires |argv| == 1 && argc + 1 < MAXARGS && GoodRds(rds) && EndsExec(rest)
    requires ReadsThen(buf, ts, Words(argv) + RdTexts(rds), rest)
    ensures ArgumentsAre(buf, Arguments(ts, argc), argv, rds, rest)
  {
    assert Words(argv) == [TWord(argv[0])] && argv == [argv[0]];
    ReadsSplit(buf, ts, [TWord(argv[0])], RdTexts(rds));
    assert ReadsOne(buf, ts[0], [TWord(argv[0])][0]);
    RedirsRead(buf, ts[1..], rds);
    var rs := Redirs(ts[1..]);
    assert Arguments(rs.rest, argc + 1) == ArgOk([], [], rs.rest);
    ArgumentCons(buf, ts, argc, rs.rds, rs.rest, [], [], rs.rest);
  }

  // A word before arguments that have been read.
  lemma NextArgument(buf: string, ts: seq<Tok>, argv: seq<string>, rds: seq<Rd<string>>, argc: nat, rest: seq<Tok>)
    requires argv != [] && |ts| > 1 && ReadsOne(buf, ts[0], TWord(argv[0])) && ts[1].Word? && argc + 1 < MAXARGS
    requires ArgumentsAre(buf, Arguments(ts[1..], argc + 1), argv[1..], rds, rest)
    ensures ArgumentsAre(buf, Arguments(ts, argc), argv, rds, rest)
  {
    var m := Arguments(ts[1..], argc + 1);
    ArgumentCons(buf, ts, argc, [], ts[1..], m.argv, m.rds, m.rest);
    assert argv == [argv[0]] + argv[1..];
  }

  // The first of several words, and what is after it.
  lemma FirstWord(buf: string, ts: seq<Tok>, w: string, xs: seq<Text>, rest: seq<Tok>)
    requires xs != [] && xs[0].TWord? && ReadsThen(buf, ts, [TWord(w)] + xs, rest)
    ensures |ts| > 1 && ReadsOne(buf, ts[0], TWord(w)) && ts[1].Word? && ReadsThen(buf, ts[1..], xs, rest)
  {
    ReadsSplit(buf, ts, [TWord(w)], xs);
    assert ReadsOne(buf, ts[0], [TWord(w)][0]);
    assert ReadsOne(buf, ts[1..][0], xs[0]);
  }

  lemma WordsCons(argv: seq<string>, ys: seq<Text>)
    requires |argv| > 1
    ensures Words(argv) + ys == [TWord(argv[0])] + (Words(argv[1..]) + ys)
    ensures Words(argv[1..]) + ys != [] && (Words(argv[1..]) + ys)[0].TWord?
  {
  }

  lemma {:induction false} ArgumentsRead(buf: string, ts: seq<Tok>, argv: seq<string>, rds: seq<Rd<string>>, argc: nat,
                                         rest: seq<Tok>)
    requires argv != [] && argc + |argv| < MAXARGS && GoodRds(rds) && EndsExec(rest)
    requires ReadsThen(buf, ts, Words(argv) + RdTexts(rds), rest)
    ensures ArgumentsAre(buf, Arguments(ts, argc), argv, rds, rest)
    decreases |argv|
  {
    if |argv| == 1 {
      LastArgument(buf, ts, argv, rds, argc, rest);
    } else {
      WordsCons(argv, RdTexts(rds));
      FirstWord(buf, ts, argv[0], Words(argv[1..]) + RdTexts(rds), rest);
      ArgumentsRead(buf, ts[1..], argv[1..], rds, argc + 1, rest);
      NextArgument(buf, ts, argv, rds, argc, rest);
    }
  }

  ghost predicate ParsesAs(buf: string, r: Parsed, c: Tree, rest: seq<Tok>) {
    r.Ok? && r.rest == rest && TextOf(buf, r.cmd) == c
  }

  // A command without words.
  lemma NoWordsRead(buf: string, ts: seq<Tok>, rds: seq<Rd<string>>)
    requires GoodRds(rds) && Reads(buf, ts, RdTexts(rds)) && EndsExec(ts[|RdTexts(rds)|..])
    ensures ParsesAs(buf, ParseExec(ts), Wrap(Exec([]), rds), ts[|RdTexts(rds)|..])
  {
    RedirsRead(buf, ts, rds);
    var rs := Redirs(ts);
    if rds == [] { assert ts[0..] == ts; } else { assert ReadsOne(buf, ts[0], RdTexts(rds)[0]); }
    assert rs.rds + [] == rs.rds && Argv(buf, []) == [];
    TextOfWrap(buf, Exec([]), rs.rds);
  }

  // A command that starts with a word has no redirections before it.
  lemma ExecOfArguments(ts: seq<Tok>)
    requires ts != [] && ts[0].Word? && Arguments(ts, 0).ArgOk?
    ensures var r := Arguments(ts, 0); ParseExec(ts) == Ok(Wrap(Exec(r.argv), r.rds), r.rest)
  {
    var r := Arguments(ts, 0);
    assert Redirs(ts) == RdOk([], ts) && [] + r.rds == r.rds;
  }

  lemma WordsRead(buf: string, ts: seq<Tok>, argv: seq<string>, rds: seq<Rd<string>>, n: nat)
    requires 0 < |argv| < MAXARGS && GoodRds(rds) && n == |Words(argv) + RdTexts(rds)|
    requires Reads(buf, ts, Words(argv) + RdTexts(rds)) && EndsExec(ts[n..])
    ensures ParsesAs(buf, ParseExec(ts), Wrap(Exec(argv), rds), ts[n..])
  {
    assert ReadsOne(buf, ts[0], (Words(argv) + RdTexts(rds))[0]);
    ArgumentsRead(buf, ts, argv, rds, 0, ts[n..]);
    ExecOfArguments(ts);
    var args := Arguments(ts, 0);
    TextOfWrap(buf, Exec(args.argv), args.rds);
  }

  // A block, given that the line in it is read back.
  lemma BlockRead(buf: string, ts: seq<Tok>, b: Tree, xs: seq<Text>, rds: seq<Rd<string>>)
    requires GoodRds(rds) && Reads(buf, ts, [TSym('(')] + xs + [TSym(')')] + RdTexts(rds))
    requires EndsExec(ts[|[TSym('(')] + xs + [TSym(')')] + RdTexts(rds)|..])
    requires |xs| < |ts| && ParsesAs(buf, ParseLine(ts[1..]), b, ts[1..][|xs|..])
    ensures ParsesAs(buf, ParseExec(ts), Wrap(b, rds), ts[|[TSym('(')] + xs + [TSym(')')] + RdTexts(rds)|..])
  {
    var head := [TSym('(')] + xs + [TSym(')')];
    var line, after := ParseLine(ts[1..]), ts[|head|..];
    ReadsSplit(buf, ts, head, RdTexts(rds));
    assert ReadsOne(buf, ts[0], head[0]) && ReadsOne(buf, ts[|xs| + 1], head[|xs| + 1]);
    assert line.rest == ts[|xs| + 1..] && line.rest[1..] == after;
    RedirsRead(buf, after, rds);
    BlockIs(ts, line.cmd, line.rest, after);
    TextOfWrap(buf, line.cmd, Redirs(after).rds);
  }

  lemma BlockIs(ts: seq<Tok>, cmd: Cmd<Span>, rest: seq<Tok>, after: seq<Tok>)
    requires IsSym(ts, '(') && ParseLine(ts[1..]) == Ok(cmd, rest) && IsSym(rest, ')') && rest[1..] == after
             && Redirs(after).RdOk?
    ensures ParseExec(ts) == Ok(Wrap(cmd, Redirs(after).rds), Redirs(after).rest)
  {
  }

  lemma {:induction false} ExecRead(buf: string, ts: seq<Tok>, c: Tree)
    requires Printable(c) && Reads(buf, ts, ExecTexts(c)) && EndsExec(ts[|ExecTexts(c)|..])
    ensures ParsesAs(buf, ParseExec(ts), c, ts[|ExecTexts(c)|..])
    decreases c, Rank(c, 0)
  {
    var b, rds := Base(c), RdsOf(c);
    if b.Exec? {
      if b.argv == [] {
        assert [] + RdTexts(rds) == RdTexts(rds);
        NoWordsRead(buf, ts, rds);
      } else {
        WordsRead(buf, ts, b.argv, rds, |ExecTexts(c)|);
      }
    } else {
      var xs := LineTexts(b);
      BlockSplit(buf, ts, xs, RdTexts(rds));
      LineRead(buf, ts[1..], b);
      BlockRead(buf, ts, b, xs, rds);
    }
  }

  lemma BlockSplit(buf: string, ts: seq<Tok>, xs: seq<Text>, ys: seq<Text>)
    requires Reads(buf, ts, [TSym('(')] + xs + [TSym(')')] + ys)
    ensures |xs| < |ts| && Reads(buf, ts[1..], xs) && IsSym(ts[1..][|xs|..], ')')
  {
    assert [TSym('(')] + xs + [TSym(')')] + ys == [TSym('(')] + (xs + ([TSym(')')] + ys));
    ReadsSplit(buf, ts, [TSym('(')], xs + ([TSym(')')] + ys));
    ReadsSplit(buf, ts[1..], xs, [TSym(')')] + ys);
    assert ReadsOne(buf, ts[1..][|xs|..][0], ([TSym(')')] + ys)[0]);
  }

  // xs, a symbol, ys.
  lemma MiddleSplit(buf: string, ts: seq<Tok>, xs: seq<Text>, c: char, ys: seq<Text>)
    requires Reads(buf, ts, xs + [TSym(c)] + ys)
    ensures Reads(buf, ts, xs) && |xs| < |ts| && IsSym(ts[|xs|..], c)
    ensures var r := ts[|xs|..][1..]; Reads(buf, r, ys) && ts[|xs + [TSym(c)] + ys|..] == r[|ys|..]
  {
    assert xs + [TSym(c)] + ys == xs + ([TSym(c)] + ys);
    ReadsSplit(buf, ts, xs, [TSym(c)] + ys);
    ReadsSplit(buf, ts[|xs|..], [TSym(c)], ys);
    assert ReadsOne(buf, ts[|xs|..][0], [TSym(c)][0]);
  }

  lemma {:induction false} PipeRead(buf: string, ts: seq<Tok>, c: Tree)
    requires Printable(c) && Reads(buf, ts, PipeTexts(c)) && EndsPipe(ts[|PipeTexts(c)|..])
    ensures ParsesAs(buf, ParsePipe(ts), c, ts[|PipeTexts(c)|..])
    decreases c, Rank(c, 1)
  {
    if c.Pipe? {
      MiddleSplit(buf, ts, ExecTexts(c.left), '|', PipeTexts(c.right));
      ExecRead(buf, ts, c.left);
      PipeRead(buf, ParseExec(ts).rest[1..], c.right);
    } else {
      ExecRead(buf, ts, c);
    }
  }

  // After the tokens of c, the loop over '&' stands at rest with a tree d that reads as c.
  lemma {:induction false} BackRead(buf: string, ts: seq<Tok>, c: Tree) returns (d: Cmd<Span>)
    requires Printable(c) && Reads(buf, ts, BackTexts(c)) && EndsPipe(ts[|BackTexts(c)|..])
    ensures TextOf(buf, d) == c
    ensures var r := ParsePipe(ts); r.Ok? && Backs(r.cmd, r.rest) == Backs(d, ts[|BackTexts(c)|..])
    decreases c, Rank(c, 2)
  {
    if c.Back? {
      var xs := BackTexts(c.cmd);
      assert xs + [TSym('&')] + [] == BackTexts(c);
      MiddleSplit(buf, ts, xs, '&', []);
      d := BackRead(buf, ts, c.cmd);
      d := Back(d);
    } else {
      PipeRead(buf, ts, c);
      d := ParsePipe(ts).cmd;
    }
  }

  lemma {:induction false} LineRead(buf: string, ts: seq<Tok>, c: Tree)
    requires Printable(c) && Reads(buf, ts, LineTexts(c)) && EndsLine(ts[|LineTexts(c)|..])
    ensures ParsesAs(buf, ParseLine(ts), c, ts[|LineTexts(c)|..])
    decreases c, Rank(c, 3)
  {
    if c.List? {
      MiddleSplit(buf, ts, BackTexts(c.left), ';', LineTexts(c.right));
      var d := BackRead(buf, ts, c.left);
      LineRead(buf, ts[|BackTexts(c.left)|..][1..], c.right);
    } else {
      var d := BackRead(buf, ts, c);
    }
  }

  function Spell(x: Text): string { match x case TSym(c) => [c] case TWord(w) => w }

  // Each token followed by a blank.
  function Print(xs: seq<Text>): string {
    if xs == [] then "" else Spell(xs[0]) + " " + Print(xs[1..])
  }

  predicate GoodText(x: Text) {
    match x
    case TSym(c) => Symbol(c)
    case TWord(w) => IsWord(w)
  }

  predicate GoodTexts(xs: seq<Text>) { forall i :: 0 <= i < |xs| ==> GoodText(xs[i]) }

  // The token printed at p is read there.
  lemma TokenRead(buf: string, p: nat, x: Text)
    requires GoodText(x) && p + |Spell(x)| < |buf| && buf[p..p + |Spell(x)|] == Spell(x) && buf[p + |Spell(x)|] == ' '
    ensures |Spell(x)| > 0 && !Space(buf[p]) && TokenAt(buf, p).1 == p + |Spell(x)|
            && ReadsOne(buf, TokenAt(buf, p).0, x)
  {
    assert buf[p] == Spell(x)[0];
    if x.TWord? {
      forall i | p <= i < p + |x.w| ensures !Space(buf[i]) && !Symbol(buf[i]) {
          assert buf[i] == buf[p..p + |x.w|][i - p]; }
    }
  }

  lemma PrintedAt(buf: string, s: nat, xs: seq<Text>)
    requires s <= |buf| && buf[s..] == Print(xs) && xs != []
    ensures var n := |Spell(xs[0])|;
            s + n < |buf| && buf[s..s + n] == Spell(xs[0]) && buf[s + n] == ' ' && buf[s + n + 1..] == Print(xs[1..])
  {
    var n := |Spell(xs[0])|;
    var rest := Print(xs[1..]);
    assert buf[s..] == Spell(xs[0]) + " " + rest;
    assert buf[s..s + n] == buf[s..][..n] && buf[s + n] == buf[s..][n] && buf[s + n + 1..] == buf[s..][n + 1..];
  }

  lemma SkipBlank(buf: string, p: nat, s: nat)
    requires p <= s <= p + 1 && s <= |buf| && (p < s ==> buf[p] == ' ') && (s < |buf| ==> !Space(buf[s]))
    ensures Skip(buf, p) == s
  {
  }

  // From p on, after at most one blank, buf is the printing of xs.
  lemma {:induction false} PrintRead(buf: string, p: nat, s: nat, xs: seq<Text>)
    requires GoodTexts(xs) && p <= s <= p + 1 && s <= |buf| && (p < s ==> buf[p] == ' ') && buf[s..] == Print(xs)
    ensures |Lex(buf, p)| == |xs| && Reads(buf, Lex(buf, p), xs)
    decreases |xs|
  {
    if xs == [] {
      assert s == |buf|;
      SkipBlank(buf, p, s);
    } else {
      PrintedAt(buf, s, xs);
      TokenRead(buf, s, xs[0]);
      SkipBlank(buf, p, s);
      var e := TokenAt(buf, s).1;
      PrintRead(buf, e, e + 1, xs[1..]);
      ReadsCons(buf, TokenAt(buf, s).0, Lex(buf, e), xs);
    }
  }

  lemma ReadsCons(buf: string, t: Tok, ts: seq<Tok>, xs: seq<Text>)
    requires xs != [] && ReadsOne(buf, t, xs[0]) && Reads(buf, ts, xs[1..])
    ensures Reads(buf, [t] + ts, xs)
  {
    forall i | 0 <= i < |xs| ensures ReadsOne(buf, ([t] + ts)[i], xs[i]) {
      if i > 0 { assert xs[i] == xs[1..][i - 1]; }
    }
  }

  // A printable tree prints as good tokens.
  lemma WordsGood(argv: seq<string>)
    requires forall i :: 0 <= i < |argv| ==> IsWord(argv[i])
    ensures GoodTexts(Words(argv))
  {
  }

  lemma {:induction false} RdTextsGood(rds: seq<Rd<string>>)
    requires forall i :: 0 <= i < |rds| ==> IsWord(rds[i].file)
    ensures GoodTexts(RdTexts(rds))
    decreases |rds|
  {
    if rds != [] { RdTextsGood(rds[1..]); }
  }

  lemma {:induction false} TextsGood(c: Tree, level: nat)
    requires Printable(c) && level < 4
    ensures level == 0 ==> GoodTexts(ExecTexts(c))
    ensures level == 1 ==> GoodTexts(PipeTexts(c))
    ensures level == 2 ==> GoodTexts(BackTexts(c))
    ensures level == 3 ==> GoodTexts(LineTexts(c))
    decreases c, Rank(c, level)
  {
    if level == 0 {
      RdTextsGood(RdsOf(c));
      if Base(c).Exec? { WordsGood(Base(c).argv); } else { TextsGood(Base(c), 3); }
    } else if level == 1 && c.Pipe? {
      TextsGood(c.left, 0);
      TextsGood(c.right, 1);
    } else if level == 2 && c.Back? {
      TextsGood(c.cmd, 2);
    } else if level == 3 && c.List? {
      TextsGood(c.left, 2);
      TextsGood(c.right, 3);
    } else {
      TextsGood(c, level - 1);
    }
  }

  // Parsing the canonical printing of a tree gives the tree.
  lemma RoundTrip(c: Tree)
    requires Printable(c)
    ensures var buf := Print(LineTexts(c)); ParseCmd(buf).Some? && TextOf(buf, ParseCmd(buf).value) == c
  {
    var xs := LineTexts(c);
    var buf := Print(xs);
    TextsGood(c, 3);
    assert buf[0..] == buf;
    PrintRead(buf, 0, 0, xs);
    LineRead(buf, Lex(buf, 0), c);
  }
}
