/** The disk as the redo log of xv6-public/log.c sees it: a sequence of blocks, changed one
    whole block at a time. A crash keeps some prefix of the writes issued so far. */
module Disk {
  import opened FsFormat

  type Image = seq<Block>

  datatype Write = Write(blockno: nat, data: Block)

  // The image after a sequence of block writes; a write past the end of the disk is ignored.
  function Apply(d: Image, ws: seq<Write>): (r: Image)
    ensures |r| == |d|
    decreases |ws|
  {
    if ws == [] then d
    else
      var before := Apply(d, ws[..|ws| - 1]);
      var w := ws[|ws| - 1];
      if w.blockno < |d| then before[w.blockno := w.data] else before
  }

  lemma Whole<T>(s: seq<T>)
    ensures s[..|s|] == s
  {
  }

  lemma Assoc<T>(s: seq<T>, t: seq<T>, u: seq<T>)
    ensures (s + t) + u == s + (t + u)
  {
  }

  lemma ApplySnoc(d: Image, ws: seq<Write>, w: Write)
    requires w.blockno < |d|
    ensures Apply(d, ws + [w]) == Apply(d, ws)[w.blockno := w.data]
  {
    assert (ws + [w])[..|ws|] == ws;
  }

  lemma {:induction false} ApplyConcat(d: Image, xs: seq<Write>, ys: seq<Write>)
    ensures Apply(d, xs + ys) == Apply(Apply(d, xs), ys)
    decreases |ys|
  {
    if ys == [] {
      assert xs + ys == xs;
    } else {
      ApplyConcat(d, xs, ys[..|ys| - 1]);
      assert (xs + ys)[..|xs + ys| - 1] == xs + ys[..|ys| - 1];
    }
  }
}

/** Crash atomicity of commit() and recover_from_log(), over every crash point of commit and
    any number of crashes during the recoveries that follow. */
module Crash {
  import opened Param
  import opened FsFormat
  import opened Disk

  // log.start and log.size: the header block, then size - 1 blocks of logged data.
  datatype Layout = Layout(start: nat, size: nat)

  predicate InLog(lay: Layout, b: nat) {
    lay.start <= b < lay.start + lay.size
  }

  predicate Distinct<T(==)>(s: seq<T>) {
    forall i, j :: 0 <= i < j < |s| ==> s[i] != s[j]
  }

  // Block numbers a transaction may carry: distinct, on the disk, outside the log, few enough.
  ghost predicate Loggable(lay: Layout, d: Image, blocks: seq<nat>) {
    && lay.start + lay.size <= |d| <= 0x1_0000_0000
    && |blocks| < lay.size && |blocks| <= LOGSIZE
    && Distinct(blocks)
    && forall i :: 0 <= i < |blocks| ==> blocks[i] < |d| && !InLog(lay, blocks[i])
  }

  // struct logheader: the count, then the block numbers.
  function HeaderCount(h: Block): nat { Word(h, 0) }

  function HeaderBlocks(h: Block): (r: seq<nat>)
    requires HeaderCount(h) <= LOGSIZE
    ensures |r| == HeaderCount(h)
  {
    seq(HeaderCount(h), i requires 0 <= i < HeaderCount(h) => Word(h, 1 + i))
  }

  // h with the entries of the header set, one after the other.
  function Entered(h: Block, blocks: seq<nat>): (r: Block)
    requires |blocks| <= LOGSIZE
    requires forall i :: 0 <= i < |blocks| ==> blocks[i] < 0x1_0000_0000
    ensures Word(r, 0) == Word(h, 0) && forall i :: 0 <= i < |blocks| ==> Word(r, 1 + i) == blocks[i]
  {
    if blocks == [] then h
    else
      var last := |blocks| - 1;
      SetWord(Entered(h, blocks[..last]), 1 + last, blocks[last])
  }

  // write_head overwrites the count and that many entries and leaves the rest of the block.
  function WithHeader(h: Block, blocks: seq<nat>): (r: Block)
    requires |blocks| <= LOGSIZE
    requires forall i :: 0 <= i < |blocks| ==> blocks[i] < 0x1_0000_0000
    ensures HeaderCount(r) == |blocks| && HeaderBlocks(r) == blocks
  {
    Entered(SetWord(h, 0, |blocks|), blocks)
  }

  ghost predicate ValidHeader(lay: Layout, d: Image) {
    && lay.start + lay.size <= |d| <= 0x1_0000_0000 && 0 < lay.size
    && HeaderCount(d[lay.start]) <= LOGSIZE
    && Loggable(lay, d, HeaderBlocks(d[lay.start]))
  }

  // install_trans: log block tail goes to the home of entry tail.
  function InstallWrites(blocks: seq<nat>, data: seq<Block>): (r: seq<Write>)
    requires |blocks| == |data|
    ensures |r| == |blocks|
  {
    seq(|blocks|, i requires 0 <= i < |blocks| => Write(blocks[i], data[i]))
  }

  function LogWrites(lay: Layout, data: seq<Block>): (r: seq<Write>)
    ensures |r| == |data|
  {
    seq(|data|, i requires 0 <= i < |data| => Write(lay.start + i + 1, data[i]))
  }

  function LogData(lay: Layout, d: Image, n: nat): (r: seq<Block>)
    requires lay.start + n < |d|
    ensures |r| == n
  {
    d[lay.start + 1..lay.start + 1 + n]
  }

  // The writes commit() issues for a non-empty transaction, in order.
  function CommitWrites(lay: Layout, h: Block, blocks: seq<nat>, data: seq<Block>): seq<Write>
    requires |blocks| == |data| && |blocks| <= LOGSIZE
    requires forall i :: 0 <= i < |blocks| ==> blocks[i] < 0x1_0000_0000
  {
    LogWrites(lay, data)
    + [Write(lay.start, WithHeader(h, blocks))]
    + InstallWrites(blocks, data)
    + [Write(lay.start, WithHeader(WithHeader(h, blocks), []))]
  }

  // The writes recover_from_log() issues when it finds image d, in order.
  function RecoverWrites(lay: Layout, d: Image): seq<Write>
    requires lay.start < |d| && HeaderCount(d[lay.start]) <= LOGSIZE
    requires lay.start + HeaderCount(d[lay.start]) < |d|
  {
    var h := d[lay.start];
    InstallWrites(HeaderBlocks(h), LogData(lay, d, HeaderCount(h)))
    + [Write(lay.start, WithHeader(h, []))]
  }

  // Reboots: each entry of crashes is how many writes one recovery issued before it was cut
  // short; the last recovery runs to the end.
  ghost function Recovered(lay: Layout, d: Image, crashes: seq<nat>): (r: Image)
    requires ValidHeader(lay, d)
    ensures ValidHeader(lay, r) && |r| == |d|
    decreases |crashes|
  {
    var ws := RecoverWrites(lay, d);
    if crashes == [] then
      RecoveryStep(lay, d, |ws|);
      Apply(d, ws)
    else
      var k := if crashes[0] < |ws| then crashes[0] else |ws|;
      RecoveryStep(lay, d, k);
      Recovered(lay, Apply(d, ws[..k]), crashes[1..])
  }

  // d with blocks[i] replaced by data[i]: what the transaction means.
  ghost function Updated(d: Image, blocks: seq<nat>, data: seq<Block>): (r: Image)
    requires |blocks| == |data| && Distinct(blocks)
    requires forall i :: 0 <= i < |blocks| ==> blocks[i] < |d|
    ensures |r| == |d|
    ensures forall i :: 0 <= i < |blocks| ==> r[blocks[i]] == data[i]
    ensures forall b :: 0 <= b < |d| && b !in blocks ==> r[b] == d[b]
  {
    if blocks == [] then d
    else Updated(d, blocks[1..], data[1..])[blocks[0] := data[0]]
  }

  // What the image stands for: its files with whatever the log holds installed.
  ghost function Target(lay: Layout, d: Image): (r: Image)
    requires ValidHeader(lay, d)
    ensures |r| == |d|
  {
    var h := d[lay.start];
    Updated(d, HeaderBlocks(h), LogData(lay, d, HeaderCount(h)))
  }

  // Two images agree outside the log.
  ghost predicate SameFiles(lay: Layout, d: Image, e: Image) {
    |d| == |e| && forall b :: 0 <= b < |d| && !InLog(lay, b) ==> d[b] == e[b]
  }

  // The first k install writes put in place exactly the first k entries.
  lemma {:induction false} InstallPrefix(lay: Layout, d: Image, blocks: seq<nat>, data: seq<Block>, k: nat)
    requires Loggable(lay, d, blocks) && |data| == |blocks| && k <= |blocks|
    ensures var e := Apply(d, InstallWrites(blocks, data)[..k]);
            && (forall i :: 0 <= i < k ==> e[blocks[i]] == data[i])
            && (forall b :: 0 <= b < |d| && b !in blocks[..k] ==> e[b] == d[b])
    decreases k
  {
    var ws := InstallWrites(blocks, data);
    if k > 0 {
      InstallPrefix(lay, d, blocks, data, k - 1);
      assert ws[..k][..k - 1] == ws[..k - 1];
      assert blocks[..k] == blocks[..k - 1] + [blocks[k - 1]];
    }
  }

  lemma {:induction false} LogPrefix(lay: Layout, d: Image, data: seq<Block>, k: nat)
    requires lay.start + lay.size <= |d| && |data| < lay.size && k <= |data|
    ensures var e := Apply(d, LogWrites(lay, data)[..k]);
            && (forall i :: 0 <= i < k ==> e[lay.start + 1 + i] == data[i])
            && (forall b :: 0 <= b < |d| && !(lay.start + 1 <= b < lay.start + 1 + k) ==> e[b] == d[b])
    decreases k
  {
    var ws := LogWrites(lay, data);
    if k > 0 {
      LogPrefix(lay, d, data, k - 1);
      assert ws[..k][..k - 1] == ws[..k - 1];
    }
  }

  // One recovery cut short: the header either survives or is cleared after every home is
  // installed; the logged data survive; homes change only to what the log holds for them.
  ghost predicate PartlyRecovered(lay: Layout, d: Image, e: Image)
    requires ValidHeader(lay, d)
  {
    && |e| == |d|
    && (forall b :: lay.start < b < lay.start + lay.size ==> e[b] == d[b])
    && if HeaderCount(e[lay.start]) == 0 then SameFiles(lay, e, Target(lay, d))
       else e[lay.start] == d[lay.start] && HomesOldOrNew(lay, d, e)
  }

  ghost predicate HomesOldOrNew(lay: Layout, d: Image, e: Image)
    requires ValidHeader(lay, d) && |e| == |d|
  {
    forall b :: 0 <= b < |d| && !InLog(lay, b) ==> e[b] == d[b] || e[b] == Target(lay, d)[b]
  }

  lemma RecoveryStep(lay: Layout, d: Image, k: nat)
    requires ValidHeader(lay, d)
    requires k <= |RecoverWrites(lay, d)|
    ensures var e := Apply(d, RecoverWrites(lay, d)[..k]);
            && ValidHeader(lay, e)
            && PartlyRecovered(lay, d, e)
            && (k == |RecoverWrites(lay, d)| ==> HeaderCount(e[lay.start]) == 0)
  {
    var h := d[lay.start];
    var n := HeaderCount(h);
    var ins := InstallWrites(HeaderBlocks(h), LogData(lay, d, n));
    var ws := RecoverWrites(lay, d);
    if k <= n {
      assert ws[..k] == ins[..k];
      InstallStep(lay, d, k);
    } else {
      var clear := Write(lay.start, WithHeader(h, []));
      assert ws[..k] == ins + [clear] && ins[..n] == ins;
      InstallStep(lay, d, n);
      ApplySnoc(d, ins, clear);
      ClearStep(lay, d, Apply(d, ins), clear.data, Apply(d, ws[..k]));
    }
  }

  // Recovery before it empties the header.
  lemma InstallStep(lay: Layout, d: Image, k: nat)
    requires ValidHeader(lay, d) && k <= HeaderCount(d[lay.start])
    ensures var h := d[lay.start];
            var e := Apply(d, InstallWrites(HeaderBlocks(h), LogData(lay, d, HeaderCount(h)))[..k]);
            && ValidHeader(lay, e) && PartlyRecovered(lay, d, e) && e[lay.start] == h
            && (k == HeaderCount(h) ==> SameFiles(lay, e, Target(lay, d)))
  {
    var h := d[lay.start];
    var blocks, data := HeaderBlocks(h), LogData(lay, d, HeaderCount(h));
    var e := Apply(d, InstallWrites(blocks, data)[..k]);
    InstallPrefix(lay, d, blocks, data, k);
    assert forall b :: InLog(lay, b) ==> b !in blocks[..k];
    if k == |blocks| { assert blocks[..k] == blocks; }
    forall b | 0 <= b < |d| && !InLog(lay, b)
      ensures (e[b] == d[b] || e[b] == Target(lay, d)[b]) && (k == |blocks| ==> e[b] == Target(lay, d)[b])
    {
      if b in blocks[..k] {
        var i :| 0 <= i < k && blocks[..k][i] == b;
        assert blocks[i] == b;
      }
    }
  }

  // Emptying the header once every home is installed.
  lemma ClearStep(lay: Layout, d: Image, e: Image, h: Block, c: Image)
    requires ValidHeader(lay, d) && ValidHeader(lay, e) && PartlyRecovered(lay, d, e)
             && SameFiles(lay, e, Target(lay, d))
    requires HeaderCount(h) == 0 && c == e[lay.start := h]
    ensures ValidHeader(lay, c) && PartlyRecovered(lay, d, c)
  {
  }

  lemma EmptyTarget(lay: Layout, d: Image)
    requires ValidHeader(lay, d) && HeaderCount(d[lay.start]) == 0
    ensures Target(lay, d) == d
  {
  }

  // A recovery cut short leaves an image that stands for the same files.
  lemma TargetStable(lay: Layout, d: Image, e: Image)
    requires ValidHeader(lay, d) && ValidHeader(lay, e) && PartlyRecovered(lay, d, e)
    ensures SameFiles(lay, Target(lay, e), Target(lay, d))
  {
    if HeaderCount(e[lay.start]) == 0 {
      EmptyTarget(lay, e);
    } else {
      var n := HeaderCount(d[lay.start]);
      assert LogData(lay, e, n) == LogData(lay, d, n);
    }
  }

  // Recovery may be cut short any number of times: what it ends with is fixed by the image it
  // first found.
  lemma {:induction false} RecoveryOutcome(lay: Layout, d: Image, crashes: seq<nat>)
    requires ValidHeader(lay, d)
    ensures var r := Recovered(lay, d, crashes);
            HeaderCount(r[lay.start]) == 0 && SameFiles(lay, r, Target(lay, d))
    decreases |crashes|
  {
    var ws := RecoverWrites(lay, d);
    if crashes == [] {
      RecoveryStep(lay, d, |ws|);
      assert ws[..|ws|] == ws;
    } else {
      var k := if crashes[0] < |ws| then crashes[0] else |ws|;
      RecoveryStep(lay, d, k);
      var e := Apply(d, ws[..k]);
      TargetStable(lay, d, e);
      RecoveryOutcome(lay, e, crashes[1..]);
    }
  }

  // The image a crash leaves before the header write: the files are untouched.
  lemma CrashBeforeHeader(lay: Layout, d: Image, blocks: seq<nat>, data: seq<Block>, j: nat)
    requires Loggable(lay, d, blocks) && |data| == |blocks|
    requires ValidHeader(lay, d) && HeaderCount(d[lay.start]) == 0
    requires j <= |blocks|
    ensures var c := Apply(d, CommitWrites(lay, d[lay.start], blocks, data)[..j]);
            ValidHeader(lay, c) && SameFiles(lay, Target(lay, c), d)
  {
    LogPrefix(lay, d, data, j);
    var ws := CommitWrites(lay, d[lay.start], blocks, data);
    assert ws[..j] == LogWrites(lay, data)[..j];
    EmptyTarget(lay, Apply(d, ws[..j]));
  }

  // The image once the header write is on disk.
  lemma HeaderWritten(lay: Layout, d: Image, blocks: seq<nat>, data: seq<Block>)
    requires Loggable(lay, d, blocks) && |data| == |blocks|
    requires ValidHeader(lay, d)
    ensures var ws := LogWrites(lay, data) + [Write(lay.start, WithHeader(d[lay.start], blocks))];
            var e := Apply(d, ws);
            && ValidHeader(lay, e)
            && HeaderBlocks(e[lay.start]) == blocks && LogData(lay, e, |blocks|) == data
            && SameFiles(lay, e, d) && e[lay.start] == WithHeader(d[lay.start], blocks)
            && SameFiles(lay, Target(lay, e), Updated(d, blocks, data))
  {
    var n := |blocks|;
    var logs := LogWrites(lay, data);
    var h := WithHeader(d[lay.start], blocks);
    LogPrefix(lay, d, data, n);
    Whole(logs);
    ApplySnoc(d, logs, Write(lay.start, h));
    HeaderInPlace(lay, d, blocks, data, Apply(d, logs), h, Apply(d, logs)[lay.start := h]);
  }

  // With the data logged and the header in place, the image stands for the updated files.
  lemma HeaderInPlace(lay: Layout, d: Image, blocks: seq<nat>, data: seq<Block>, l: Image, h: Block, e: Image)
    requires Loggable(lay, d, blocks) && |data| == |blocks| && ValidHeader(lay, d)
    requires |l| == |d| && HeaderCount(h) == |blocks| && HeaderBlocks(h) == blocks && e == l[lay.start := h]
    requires forall i :: 0 <= i < |data| ==> l[lay.start + 1 + i] == data[i]
    requires forall b :: 0 <= b < |d| && !(lay.start + 1 <= b < lay.start + 1 + |data|) ==> l[b] == d[b]
    ensures ValidHeader(lay, e) && LogData(lay, e, |blocks|) == data && SameFiles(lay, e, d)
    ensures SameFiles(lay, Target(lay, e), Updated(d, blocks, data))
  {
    LogDataIs(lay, e, data);
    UpdatedSame(lay, d, e, blocks, data);
  }

  lemma LogDataIs(lay: Layout, e: Image, data: seq<Block>)
    requires lay.start + |data| < |e| && forall i :: 0 <= i < |data| ==> e[lay.start + 1 + i] == data[i]
    ensures LogData(lay, e, |data|) == data
  {
  }

  lemma UpdatedSame(lay: Layout, d: Image, e: Image, blocks: seq<nat>, data: seq<Block>)
    requires Loggable(lay, d, blocks) && |data| == |blocks| && SameFiles(lay, e, d)
    ensures SameFiles(lay, Updated(e, blocks, data), Updated(d, blocks, data))
  {
    var x, y := Updated(e, blocks, data), Updated(d, blocks, data);
    forall b | 0 <= b < |d| && !InLog(lay, b) ensures x[b] == y[b] {
      if b in blocks {
        var i :| 0 <= i < |blocks| && blocks[i] == b;
      }
    }
  }

  // From there on commit issues the same writes a recovery would.
  lemma CommitTailIsRecovery(lay: Layout, d: Image, blocks: seq<nat>, data: seq<Block>)
    requires Loggable(lay, d, blocks) && |data| == |blocks|
    requires ValidHeader(lay, d)
    ensures var ws := LogWrites(lay, data) + [Write(lay.start, WithHeader(d[lay.start], blocks))];
            var e := Apply(d, ws);
            && ValidHeader(lay, e)
            && CommitWrites(lay, d[lay.start], blocks, data) == ws + RecoverWrites(lay, e)
  {
    HeaderWritten(lay, d, blocks, data);
    var ws := LogWrites(lay, data) + [Write(lay.start, WithHeader(d[lay.start], blocks))];
    Assoc(ws, InstallWrites(blocks, data), [Write(lay.start, WithHeader(WithHeader(d[lay.start], blocks), []))]);
  }

  lemma CrashAfterHeader(lay: Layout, d: Image, blocks: seq<nat>, data: seq<Block>, j: nat)
    requires Loggable(lay, d, blocks) && |data| == |blocks|
    requires ValidHeader(lay, d)
    requires |blocks| < j <= |CommitWrites(lay, d[lay.start], blocks, data)|
    ensures var c := Apply(d, CommitWrites(lay, d[lay.start], blocks, data)[..j]);
            ValidHeader(lay, c) && SameFiles(lay, Target(lay, c), Updated(d, blocks, data))
  {
    var ws := LogWrites(lay, data) + [Write(lay.start, WithHeader(d[lay.start], blocks))];
    var e := Apply(d, ws);
    HeaderWritten(lay, d, blocks, data);
    CommitTailIsRecovery(lay, d, blocks, data);
    var k := j - |ws|;
    var rest := RecoverWrites(lay, e);
    PrefixOf(ws, rest, j);
    ApplyConcat(d, ws, rest[..k]);
    CutRecovery(lay, e, k, Updated(d, blocks, data));
  }

  lemma PrefixOf<T>(a: seq<T>, b: seq<T>, j: nat)
    requires |a| <= j <= |a| + |b|
    ensures (a + b)[..j] == a + b[..j - |a|]
  {
  }

  // A recovery cut short leaves an image that stands for the same files.
  lemma CutRecovery(lay: Layout, e: Image, k: nat, files: Image)
    requires ValidHeader(lay, e) && k <= |RecoverWrites(lay, e)| && SameFiles(lay, Target(lay, e), files)
    ensures var c := Apply(e, RecoverWrites(lay, e)[..k]); ValidHeader(lay, c) && SameFiles(lay, Target(lay, c), files)
  {
    RecoveryStep(lay, e, k);
    TargetStable(lay, e, Apply(e, RecoverWrites(lay, e)[..k]));
  }

  // Commit run to its end.
  lemma CommitComplete(lay: Layout, d: Image, blocks: seq<nat>, data: seq<Block>)
    requires Loggable(lay, d, blocks) && |data| == |blocks| && ValidHeader(lay, d)
    ensures var c := Apply(d, CommitWrites(lay, d[lay.start], blocks, data));
            && ValidHeader(lay, c) && HeaderCount(c[lay.start]) == 0
            && SameFiles(lay, c, Updated(d, blocks, data))
  {
    var ws := LogWrites(lay, data) + [Write(lay.start, WithHeader(d[lay.start], blocks))];
    var e := Apply(d, ws);
    CommitTailIsRecovery(lay, d, blocks, data);
    var rest := RecoverWrites(lay, e);
    ApplyConcat(d, ws, rest);
    RecoveryStep(lay, e, |rest|);
    Whole(rest);
    var all := CommitWrites(lay, d[lay.start], blocks, data);
    CrashAfterHeader(lay, d, blocks, data, |all|);
    Whole(all);
    EmptyTarget(lay, Apply(d, all));
  }

  lemma FourParts<T>(a: seq<T>, x: T, b: seq<T>, y: T, s: seq<T>, j: nat)
    requires s == a + [x] + b + [y] && j < |s|
    ensures s[j] == if j < |a| then a[j] else if j == |a| then x else if j <= |a| + |b| then b[j - |a| - 1] else y
  {
  }

  lemma Middle<T>(a: seq<T>, b: seq<T>, c: seq<T>, k: nat)
    requires k <= |b|
    ensures (a + b + c)[..|a| + k] == a + b[..k]
  {
  }

  // The writes of commit, one by one: block k to the log is the k-th and block k home the (|blocks| + 1 + k)-th.
  lemma CommitWriteAt(lay: Layout, h: Block, blocks: seq<nat>, data: seq<Block>, ws: seq<Write>, k: nat, j: nat)
    requires |blocks| == |data| <= LOGSIZE && forall i :: 0 <= i < |blocks| ==> blocks[i] < 0x1_0000_0000
    requires ws == CommitWrites(lay, h, blocks, data) && k < |blocks| && j == |blocks| + 1 + k
    ensures |ws| == 2 * |blocks| + 2 && ws[k] == Write(lay.start + k + 1, data[k]) && ws[j] == Write(blocks[k], data[k])
  {
    var a, b := LogWrites(lay, data), InstallWrites(blocks, data);
    var head := Write(lay.start, WithHeader(h, blocks));
    var clear := Write(lay.start, WithHeader(WithHeader(h, blocks), []));
    FourParts(a, head, b, clear, ws, k);
    FourParts(a, head, b, clear, ws, j);
  }

  lemma HeaderWriteAt(lay: Layout, h: Block, blocks: seq<nat>, data: seq<Block>, ws: seq<Write>, n: nat, j: nat)
    requires |blocks| == |data| == n <= LOGSIZE && forall i :: 0 <= i < |blocks| ==> blocks[i] < 0x1_0000_0000
    requires ws == CommitWrites(lay, h, blocks, data) && j == 2 * n + 1
    ensures |ws| == j + 1
    ensures ws[n] == Write(lay.start, WithHeader(h, blocks))
            && ws[j] == Write(lay.start, WithHeader(WithHeader(h, blocks), []))
  {
    var a, b := LogWrites(lay, data), InstallWrites(blocks, data);
    var head := Write(lay.start, WithHeader(h, blocks));
    var clear := Write(lay.start, WithHeader(WithHeader(h, blocks), []));
    FourParts(a, head, b, clear, ws, n);
    FourParts(a, head, b, clear, ws, j);
  }

  // Until the header is written, the one on the disk is the old one.
  lemma BeforeHeader(lay: Layout, d: Image, blocks: seq<nat>, data: seq<Block>, j: nat)
    requires Loggable(lay, d, blocks) && |data| == |blocks| && j <= |blocks|
    ensures Apply(d, CommitWrites(lay, d[lay.start], blocks, data)[..j])[lay.start] == d[lay.start]
  {
    var ws := CommitWrites(lay, d[lay.start], blocks, data);
    assert ws[..j] == LogWrites(lay, data)[..j];
    LogPrefix(lay, d, data, j);
  }

  // From then on the header and the logged data stay on the disk until the header is emptied.
  lemma AfterHeader(lay: Layout, d: Image, blocks: seq<nat>, data: seq<Block>, k: nat, j: nat, c: Image, t: nat)
    requires Loggable(lay, d, blocks) && |data| == |blocks| && ValidHeader(lay, d) && k <= |blocks|
             && j == |blocks| + 1 + k
    requires c == Apply(d, CommitWrites(lay, d[lay.start], blocks, data)[..j])
    ensures c[lay.start] == WithHeader(d[lay.start], blocks) && (t < |blocks| ==> c[lay.start + t + 1] == data[t])
  {
    var ws := LogWrites(lay, data) + [Write(lay.start, WithHeader(d[lay.start], blocks))];
    var ins := InstallWrites(blocks, data);
    CommitPrefix(lay, d[lay.start], blocks, data, k, j, ws, ins);
    ApplyConcat(d, ws, ins[..k]);
    var e := Apply(d, ws);
    assert Loggable(lay, e, blocks) && LogData(lay, e, |blocks|) == data
        && e[lay.start] == WithHeader(d[lay.start], blocks) by {
      HeaderWritten(lay, d, blocks, data);
    }
    LogStays(lay, e, blocks, data, k, t);
  }

  lemma CommitPrefix(lay: Layout, h: Block, blocks: seq<nat>, data: seq<Block>, k: nat, j: nat, ws: seq<Write>,
                     ins: seq<Write>)
    requires |blocks| == |data| <= LOGSIZE && forall i :: 0 <= i < |blocks| ==> blocks[i] < 0x1_0000_0000
    requires k <= |blocks| && j == |blocks| + 1 + k
    requires ws == LogWrites(lay, data) + [Write(lay.start, WithHeader(h, blocks))]
             && ins == InstallWrites(blocks, data)
    ensures CommitWrites(lay, h, blocks, data)[..j] == ws + ins[..k]
  {
    Middle(ws, ins, [Write(lay.start, WithHeader(WithHeader(h, blocks), []))], k);
  }

  // Writing blocks home leaves the log alone.
  lemma LogStays(lay: Layout, e: Image, blocks: seq<nat>, data: seq<Block>, k: nat, t: nat)
    requires Loggable(lay, e, blocks) && |data| == |blocks| && k <= |blocks| && LogData(lay, e, |blocks|) == data
    ensures var c := Apply(e, InstallWrites(blocks, data)[..k]);
            c[lay.start] == e[lay.start] && (t < |blocks| ==> c[lay.start + t + 1] == data[t])
  {
    InstallPrefix(lay, e, blocks, data, k);
    assert forall b :: InLog(lay, b) ==> b !in blocks[..k];
    assert InLog(lay, lay.start);
    if t < |blocks| {
      assert InLog(lay, lay.start + 1 + t) && LogData(lay, e, |blocks|)[t] == data[t];
    }
  }

  // In recovery, until the header is emptied, the log is as it was found.
  lemma DuringRecovery(lay: Layout, d: Image, k: nat, c: Image)
    requires ValidHeader(lay, d) && k <= HeaderCount(d[lay.start]) && c == Apply(d, RecoverWrites(lay, d)[..k])
    ensures c[lay.start] == d[lay.start]
    ensures k < HeaderCount(d[lay.start]) ==>
              RecoverWrites(lay, d)[k] == Write(HeaderBlocks(d[lay.start])[k], c[lay.start + 1 + k])
  {
    var h := d[lay.start];
    var blocks, data := HeaderBlocks(h), LogData(lay, d, HeaderCount(h));
    assert RecoverWrites(lay, d)[..k] == InstallWrites(blocks, data)[..k];
    LogStays(lay, d, blocks, data, k, k);
  }

  /** A crash after any number j of commit's writes, then any number of crashes in recovery:
      the files are all old or all new, and all new exactly when the header write was issued. */
  lemma CommitIsCrashAtomic(lay: Layout, d: Image, blocks: seq<nat>, data: seq<Block>, j: nat, crashes: seq<nat>)
    requires Loggable(lay, d, blocks) && |data| == |blocks|
    requires ValidHeader(lay, d) && HeaderCount(d[lay.start]) == 0
    requires j <= |CommitWrites(lay, d[lay.start], blocks, data)|
    ensures var c := Apply(d, CommitWrites(lay, d[lay.start], blocks, data)[..j]);
            && ValidHeader(lay, c)
            && var r := Recovered(lay, c, crashes);
               && HeaderCount(r[lay.start]) == 0
               && SameFiles(lay, r, if j <= |blocks| then d else Updated(d, blocks, data))
  {
    if j <= |blocks| {
      CrashBeforeHeader(lay, d, blocks, data, j);
    } else {
      CrashAfterHeader(lay, d, blocks, data, j);
    }
    RecoveryOutcome(lay, Apply(d, CommitWrites(lay, d[lay.start], blocks, data)[..j]), crashes);
  }
}
