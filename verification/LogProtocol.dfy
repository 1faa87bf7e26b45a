/** Log-space reservation in xv6-public/log.c: begin_op, log_write and end_op of any number of
    processes, each section under log.lock one step, interleaved in every way. */
module LogProtocol {
  import opened Param

  // added[p]: new blocks logged so far by p's open operation; waiting: processes asleep on &log.
  datatype State = State(outstanding: int, committing: bool, n: nat,
                         added: map<Pid, nat>, waiting: set<Pid>, panicked: bool)

  datatype Event =
    | Begin(p: Pid)      // one pass of begin_op's loop: admitted, or put to sleep
    | Check(p: Pid)      // log_write's two tests, made before it takes log.lock
    | Append(p: Pid)     // log_write's section, for a block not yet in the log
    | End(p: Pid)        // end_op's first section
    | Install            // commit(), run by the end_op that set committing
    | Finish             // end_op's second section
    | Wake(p: Pid)       // kill makes a sleeper runnable

  const Init := State(0, false, 0, map[], {}, false)

  // limit: the most new blocks one operation logs.
  predicate Enabled(s: State, e: Event, limit: nat) {
    match e
    case Begin(p) => p !in s.added && p !in s.waiting
    case Check(p) => p in s.added
    case Append(p) => p in s.added && s.added[p] < limit
    case End(p) => p in s.added
    case Install => s.committing
    case Finish => s.committing && s.n == 0
    case Wake(p) => p in s.waiting
  }

  function Next(s: State, e: Event, limit: nat): State
    requires Enabled(s, e, limit)
  {
    match e
    case Begin(p) =>
      if s.committing then s.(waiting := s.waiting + {p})
      else if s.n + (s.outstanding + 1) * MAXOPBLOCKS > LOGSIZE then s.(waiting := s.waiting + {p})
      else s.(outstanding := s.outstanding + 1, added := s.added[p := 0])
    case Check(p) =>
      s.(panicked := s.panicked || s.n >= LOGSIZE || s.n >= NLOG - 1 || s.outstanding < 1)
    case Append(p) =>
      // log.lh.block has LOGSIZE entries
      s.(n := s.n + 1, added := s.added[p := s.added[p] + 1], panicked := s.panicked || s.n >= LOGSIZE)
    case End(p) =>
      var t := s.(outstanding := s.outstanding - 1, added := s.added - {p}, panicked := s.panicked || s.committing);
      if t.outstanding == 0 then t.(committing := true) else t.(waiting := {})
    case Install => s.(n := 0)
    case Finish => s.(committing := false, waiting := {})
    case Wake(p) => s.(waiting := s.waiting - {p})
  }

  const PEROP := MAXOPBLOCKS - 1

  // Room the open operations may still use, if each logs at most PEROP new blocks.
  ghost function Slack(added: map<Pid, nat>): int {
    if added == map[] then 0
    else
      var p :| p in added;
      PEROP - added[p] + Slack(added - {p})
  }

  lemma {:induction false} SlackSplit(added: map<Pid, nat>, p: Pid)
    requires p in added
    ensures Slack(added) == PEROP - added[p] + Slack(added - {p})
    decreases added
  {
    var q :| q in added && Slack(added) == PEROP - added[q] + Slack(added - {q});
    if q != p {
      SlackSplit(added - {q}, p);
      SlackSplit(added - {p}, q);
      assert added - {q} - {p} == added - {p} - {q};
    }
  }

  lemma RemoveSize(added: map<Pid, nat>, p: Pid)
    requires p in added
    ensures |added - {p}| == |added| - 1
  {
    var rest := added - {p};
    assert rest.Keys == added.Keys - {p};
    assert |added| == |added.Keys| && |rest| == |rest.Keys|;
  }

  lemma OneMore(x: int, y: int, a: nat, m: nat)
    requires 0 <= y <= PEROP * m && a <= PEROP && x == PEROP - a + y
    ensures 0 <= x <= PEROP * (m + 1)
  {
  }

  lemma {:induction false} SlackBounds(added: map<Pid, nat>)
    requires forall p :: p in added ==> added[p] <= PEROP
    ensures 0 <= Slack(added) <= PEROP * |added|
    decreases added
  {
    if added != map[] {
      var p :| p in added;
      SlackSplit(added, p);
      RemoveSize(added, p);
      SlackBounds(added - {p});
      OneMore(Slack(added), Slack(added - {p}), added[p], |added - {p}|);
    }
  }

  // begin_op would put its caller to sleep.
  predicate Refuses(s: State) { s.committing || s.n + (s.outstanding + 1) * MAXOPBLOCKS > LOGSIZE }

  // Operations that log at most nine new blocks never fill the log past 28.
  ghost predicate Inv(s: State) {
    && !s.panicked
    && s.outstanding == |s.added|
    && (s.committing ==> s.outstanding == 0)
    && (!s.committing && s.outstanding == 0 ==> s.n == 0)
    && (s.waiting != {} ==> Refuses(s))
    && (forall p :: p in s.added ==> s.added[p] <= PEROP)
    && s.n + Slack(s.added) <= NLOG - 2
  }

  lemma InvInit()
    ensures Inv(Init)
  {
  }

  lemma BeginKeepsInv(s: State, p: Pid)
    requires Inv(s) && Enabled(s, Begin(p), PEROP)
    ensures Inv(Next(s, Begin(p), PEROP))
  {
    var t := Next(s, Begin(p), PEROP);
    if p in t.added {
      assert t.added - {p} == s.added;
      RemoveSize(t.added, p);
      SlackSplit(t.added, p);
      SlackBounds(s.added);
    }
  }

  lemma AppendKeepsInv(s: State, p: Pid)
    requires Inv(s) && Enabled(s, Append(p), PEROP)
    ensures Inv(Next(s, Append(p), PEROP))
  {
    var t := Next(s, Append(p), PEROP);
    assert t.added - {p} == s.added - {p};
    RemoveSize(s.added, p);
    RemoveSize(t.added, p);
    SlackSplit(s.added, p);
    SlackSplit(t.added, p);
    SlackBounds(s.added);
  }

  lemma EndKeepsInv(s: State, p: Pid)
    requires Inv(s) && Enabled(s, End(p), PEROP)
    ensures Inv(Next(s, End(p), PEROP))
  {
    RemoveSize(s.added, p);
    SlackSplit(s.added, p);
  }

  lemma InvStep(s: State, e: Event)
    requires Inv(s) && Enabled(s, e, PEROP)
    ensures Inv(Next(s, e, PEROP))
  {
    match e
    case Begin(p) => BeginKeepsInv(s, p);
    case Append(p) => AppendKeepsInv(s, p);
    case End(p) => EndKeepsInv(s, p);
    case Check(_) => SlackBounds(s.added);
    case Install =>
    case Finish => SlackBounds(s.added);
    case Wake(_) =>
  }

  // While an operation is open there is no commit.
  lemma OpenOperation(s: State, p: Pid)
    requires Inv(s) && p in s.added
    ensures s.outstanding > 0 && !s.committing
  {
    assert s.added != map[];
  }

  ghost predicate Legal(s: State, es: seq<Event>, limit: nat)
    decreases |es|
  {
    es == [] || (Enabled(s, es[0], limit) && Legal(Next(s, es[0], limit), es[1..], limit))
  }

  ghost function Run(s: State, es: seq<Event>, limit: nat): State
    requires Legal(s, es, limit)
    decreases |es|
  {
    if es == [] then s else Run(Next(s, es[0], limit), es[1..], limit)
  }

  // Whoever sleeps in begin_op would still be refused, and somebody is there to wake it.
  lemma SleepersRefused(s: State)
    requires Inv(s) && s.waiting != {}
    ensures Refuses(s) && (s.committing || s.outstanding > 0)
  {
  }

  // The panics of log_write and end_op are unreachable, and the log never loses a sleeper.
  lemma {:induction false} RunKeepsInv(s: State, es: seq<Event>)
    requires Inv(s) && Legal(s, es, PEROP)
    ensures Inv(Run(s, es, PEROP))
    decreases |es|
  {
    if es != [] {
      InvStep(s, es[0]);
      RunKeepsInv(Next(s, es[0], PEROP), es[1..]);
    }
  }

  lemma {:induction false} LimitMonotone(s: State, es: seq<Event>, limit: nat, larger: nat)
    requires limit <= larger && Legal(s, es, limit)
    ensures Legal(s, es, larger) && Run(s, es, larger) == Run(s, es, limit)
    decreases |es|
  {
    if es != [] {
      LimitMonotone(Next(s, es[0], limit), es[1..], limit, larger);
    }
  }

  lemma {:induction false} RunConcat(s: State, xs: seq<Event>, ys: seq<Event>, limit: nat)
    requires Legal(s, xs, limit) && Legal(Run(s, xs, limit), ys, limit)
    ensures Legal(s, xs + ys, limit) && Run(s, xs + ys, limit) == Run(Run(s, xs, limit), ys, limit)
    decreases |xs|
  {
    if xs == [] {
      assert xs + ys == ys;
    } else {
      assert (xs + ys)[0] == xs[0] && (xs + ys)[1..] == xs[1..] + ys;
      RunConcat(Next(s, xs[0], limit), xs[1..], ys, limit);
    }
  }

  function Appends(p: Pid, k: nat): (es: seq<Event>)
    ensures |es| == k
  {
    if k == 0 then [] else [Append(p)] + Appends(p, k - 1)
  }

  lemma {:induction false} AppendsRun(s: State, p: Pid, k: nat)
    requires p in s.added && s.added[p] + k <= MAXOPBLOCKS && s.n + k <= LOGSIZE
    ensures Legal(s, Appends(p, k), MAXOPBLOCKS)
    ensures Run(s, Appends(p, k), MAXOPBLOCKS) == s.(n := s.n + k, added := s.added[p := s.added[p] + k])
    decreases k
  {
    if k == 0 {
      assert s.added[p := s.added[p]] == s.added;
    } else {
      var t := Next(s, Append(p), MAXOPBLOCKS);
      AppendsRun(t, p, k - 1);
      assert Appends(p, k)[1..] == Appends(p, k - 1);
      assert s.added[p := s.added[p] + 1][p := s.added[p] + k] == s.added[p := s.added[p] + k];
    }
  }

  lemma OneStep(s: State, e: Event, limit: nat)
    requires Enabled(s, e, limit)
    ensures Legal(s, [e], limit) && Run(s, [e], limit) == Next(s, e, limit)
  {
    assert [e][1..] == [];
    assert Legal(Next(s, e, limit), [], limit);
  }

  ghost predicate Panics(s: State, es: seq<Event>) {
    Legal(s, es, MAXOPBLOCKS) && Run(s, es, MAXOPBLOCKS).panicked
  }

  lemma StepThen(s: State, e: Event, ys: seq<Event>)
    requires Enabled(s, e, MAXOPBLOCKS) && Panics(Next(s, e, MAXOPBLOCKS), ys)
    ensures Panics(s, [e] + ys)
  {
    OneStep(s, e, MAXOPBLOCKS);
    RunConcat(s, [e], ys, MAXOPBLOCKS);
  }

  // p logs k new blocks, then a sequence that panics follows.
  lemma AppendsThen(s: State, p: Pid, k: nat, t: State, ys: seq<Event>)
    requires p in s.added && s.added[p] + k <= MAXOPBLOCKS && s.n + k <= LOGSIZE
    requires t == s.(n := s.n + k, added := s.added[p := s.added[p] + k]) && Panics(t, ys)
    ensures Panics(s, Appends(p, k) + ys)
  {
    AppendsRun(s, p, k);
    RunConcat(s, Appends(p, k), ys, MAXOPBLOCKS);
  }

  lemma ThreeOpenOperations(s: State) returns (es: seq<Event>)
    requires s == State(3, false, 0, map[0 := 0, 1 := 0, 2 := 0], {}, false)
    ensures Panics(s, es)
  {
    var s4 := s.(n := 10, added := s.added[0 := 10]);
    var s5 := s4.(n := 20, added := s4.added[1 := 10]);
    var s6 := s5.(n := 29, added := s5.added[2 := 9]);
    OneStep(s6, Check(2), MAXOPBLOCKS);
    es := [Check(2)];
    var nine, ten := LOGSIZE - 21, LOGSIZE - 20;
    AppendsThen(s5, 2, nine, s6, es);
    es := Appends(2, nine) + es;
    AppendsThen(s4, 1, ten, s5, es);
    es := Appends(1, ten) + es;
    AppendsThen(s, 0, ten, s4, es);
    es := Appends(0, ten) + es;
  }

  // Three operations that use all of MAXOPBLOCKS: the last block meets log_write's panic.
  lemma TenBlocksPanic() returns (es: seq<Event>)
    ensures Panics(Init, es)
  {
    var s1 := Next(Init, Begin(0), MAXOPBLOCKS);
    var s2 := Next(s1, Begin(1), MAXOPBLOCKS);
    var s3 := Next(s2, Begin(2), MAXOPBLOCKS);
    es := ThreeOpenOperations(s3);
    StepThen(s2, Begin(2), es);
    es := [Begin(2)] + es;
    StepThen(s1, Begin(1), es);
    es := [Begin(1)] + es;
    StepThen(Init, Begin(0), es);
    es := [Begin(0)] + es;
  }

  /** MAXOPBLOCKS is one too many: no run panics exactly when every operation logs at most
      MAXOPBLOCKS - 1 new blocks. */
  lemma PanicFreeIff(limit: nat)
    ensures (forall es :: Legal(Init, es, limit) ==> !Run(Init, es, limit).panicked) <==> limit <= PEROP
  {
    if limit <= PEROP {
      forall es | Legal(Init, es, limit) ensures !Run(Init, es, limit).panicked {
        LimitMonotone(Init, es, limit, PEROP);
        InvInit();
        RunKeepsInv(Init, es);
      }
    } else {
      var es := TenBlocksPanic();
      LimitMonotone(Init, es, MAXOPBLOCKS, limit);
    }
  }
}
