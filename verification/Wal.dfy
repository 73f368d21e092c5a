/** What recovery makes of the records of the write-ahead log. */
module Wal {
  import opened Bytes

  type TxId = nat

  /** A logged change. */
  datatype Entry = Put(key: bytes, val: bytes) | Delete(key: bytes)

  datatype LogOp = Change(entry: Entry) | Begin | Commit | Rollback

  datatype LogRecord = LogRecord(lsn: nat, tx: TxId, op: LogOp)

  /** The variables of the recovery loop: operations of transactions without an outcome so far, operations to
      replay, and the highest LSN seen. */
  datatype Recovery = Recovery(active: map<TxId, seq<Entry>>, committed: seq<Entry>, maxLsn: nat) {
    function Pending(tx: TxId): seq<Entry> {
      if tx in active then active[tx] else []
    }
  }

  const EMPTY: Recovery := Recovery(map[], [], 0)

  function Max(a: nat, b: nat): nat {
    if a > b then a else b
  }

  /** One round of the recovery loop. Changes at or below the checkpoint are skipped, transaction marks are not. */
  function Step(s: Recovery, r: LogRecord, checkpoint: nat): Recovery {
    var s := s.(maxLsn := Max(s.maxLsn, r.lsn));
    match r.op
    case Change(e) =>
      if r.lsn <= checkpoint then s
      else if r.tx == 0 then s.(committed := s.committed + [e])
      else s.(active := s.active[r.tx := s.Pending(r.tx) + [e]])
    case Begin => if r.tx > 0 then s.(active := s.active[r.tx := []]) else s
    case Commit =>
      s.(active := s.active - {r.tx},
         committed := if r.lsn <= checkpoint then s.committed else s.committed + s.Pending(r.tx))
    case Rollback => s.(active := s.active - {r.tx})
  }

  /** Recovery of the first `n` records. */
  function RunTo(recs: seq<LogRecord>, n: nat, checkpoint: nat): Recovery
    requires n <= |recs|
  {
    if n == 0 then EMPTY else Step(RunTo(recs, n - 1, checkpoint), recs[n - 1], checkpoint)
  }

  /** What a record adds to the operations to replay, given what its transaction has pending. */
  function Gain(pending: seq<Entry>, r: LogRecord, checkpoint: nat): seq<Entry> {
    if r.lsn <= checkpoint then []
    else match r.op
      case Change(e) => if r.tx == 0 then [e] else []
      case Commit => pending
      case _ => []
  }

  /** What a transaction has pending after a record of its own. */
  function PendingAfter(pending: seq<Entry>, r: LogRecord, checkpoint: nat): seq<Entry> {
    if Ends(r) then [] else if r.lsn <= checkpoint then pending else pending + [r.op.entry]
  }

  lemma StepEffect(s: Recovery, r: LogRecord, checkpoint: nat)
    requires 0 !in s.active
    ensures 0 !in Step(s, r, checkpoint).active
    ensures Step(s, r, checkpoint).committed == s.committed + Gain(s.Pending(r.tx), r, checkpoint)
    ensures forall tx {:trigger Step(s, r, checkpoint).Pending(tx)} :: Step(s, r, checkpoint).Pending(tx) ==
              if tx == r.tx && tx > 0 then PendingAfter(s.Pending(tx), r, checkpoint) else s.Pending(tx)
  {
  }

  // ---- What should be recovered ----

  predicate Ends(r: LogRecord) {
    !r.op.Change?
  }

  /** The changes of `tx` among the first `n` records since its last BEGIN, COMMIT or ROLLBACK. */
  function ChangesSince(recs: seq<LogRecord>, tx: TxId, n: nat): seq<Entry>
    requires n <= |recs|
  {
    if n == 0 then []
    else if recs[n - 1].tx != tx then ChangesSince(recs, tx, n - 1)
    else if Ends(recs[n - 1]) then []
    else ChangesSince(recs, tx, n - 1) + [recs[n - 1].op.entry]
  }

  /** What record `i` makes durable: a change outside any transaction itself, a COMMIT the changes of its
      transaction. */
  function Emitted(recs: seq<LogRecord>, i: nat): seq<Entry>
    requires i < |recs|
  {
    var r := recs[i];
    match r.op
    case Change(e) => if r.tx == 0 then [e] else []
    case Commit => if r.tx == 0 then [] else ChangesSince(recs, r.tx, i)
    case _ => []
  }

  function CommittedOps(recs: seq<LogRecord>, n: nat): seq<Entry>
    requires n <= |recs|
  {
    if n == 0 then [] else CommittedOps(recs, n - 1) + Emitted(recs, n - 1)
  }

  ghost predicate AllAbove(recs: seq<LogRecord>, checkpoint: nat) {
    forall i :: 0 <= i < |recs| ==> recs[i].lsn > checkpoint
  }

  /** Recovery returns the changes outside transactions at their own position and those of each committed
      transaction at the position of its COMMIT; nothing of open or rolled-back transactions, and nothing from
      before a BEGIN that reuses a transaction id. */
  lemma {:induction false} RecoversCommitted(recs: seq<LogRecord>, n: nat, checkpoint: nat)
    requires n <= |recs| && AllAbove(recs, checkpoint)
    ensures RunTo(recs, n, checkpoint).committed == CommittedOps(recs, n)
    ensures 0 !in RunTo(recs, n, checkpoint).active
    ensures forall tx {:trigger RunTo(recs, n, checkpoint).Pending(tx)} :: tx > 0 ==>
              RunTo(recs, n, checkpoint).Pending(tx) == ChangesSince(recs, tx, n)
  {
    if n > 0 {
      RecoversCommitted(recs, n - 1, checkpoint);
      var s, r := RunTo(recs, n - 1, checkpoint), recs[n - 1];
      StepEffect(s, r, checkpoint);
      forall tx | tx > 0 ensures RunTo(recs, n, checkpoint).Pending(tx) == ChangesSince(recs, tx, n) {
        assert s.Pending(tx) == ChangesSince(recs, tx, n - 1);
      }
      assert r.tx > 0 ==> s.Pending(r.tx) == ChangesSince(recs, r.tx, n - 1);
    }
  }

  /** The highest LSN is that of the records read. */
  lemma {:induction false} RecoversLsn(recs: seq<LogRecord>, n: nat, checkpoint: nat)
    requires n <= |recs|
    ensures forall i :: 0 <= i < n ==> recs[i].lsn <= RunTo(recs, n, checkpoint).maxLsn
    ensures RunTo(recs, n, checkpoint).maxLsn == 0
            || (exists i :: 0 <= i < n && recs[i].lsn == RunTo(recs, n, checkpoint).maxLsn)
  {
    if n > 0 {
      RecoversLsn(recs, n - 1, checkpoint);
    }
  }

  lemma {:induction false} ChangesTake(recs: seq<LogRecord>, k: nat, tx: TxId, n: nat)
    requires n <= k <= |recs|
    ensures ChangesSince(recs[..k], tx, n) == ChangesSince(recs, tx, n)
  {
    if n > 0 {
      ChangesTake(recs, k, tx, n - 1);
    }
  }

  /** What the first records commit does not depend on those after them. */
  lemma {:induction false} CommittedTake(recs: seq<LogRecord>, k: nat, n: nat)
    requires n <= k <= |recs|
    ensures CommittedOps(recs[..k], n) == CommittedOps(recs, n)
  {
    if n > 0 {
      CommittedTake(recs, k, n - 1);
      ChangesTake(recs, k, recs[n - 1].tx, n - 1);
    }
  }

  /** More log never takes back what less log recovers. */
  lemma {:induction false} CommittedMonotone(recs: seq<LogRecord>, m: nat, n: nat)
    requires m <= n <= |recs|
    ensures CommittedOps(recs, m) <= CommittedOps(recs, n)
    decreases n - m
  {
    if m < n {
      CommittedMonotone(recs, m, n - 1);
    }
  }

  // ---- The checkpoint ----

  /** The first `p` records are at or below the checkpoint, the others above it. */
  ghost predicate SplitAt(recs: seq<LogRecord>, p: nat, checkpoint: nat) {
    && p <= |recs|
    && (forall i :: 0 <= i < p ==> recs[i].lsn <= checkpoint)
    && (forall i :: p <= i < |recs| ==> recs[i].lsn > checkpoint)
  }

  /** No mark of `tx` among the records from `p` up to `n`. */
  ghost predicate Untouched(recs: seq<LogRecord>, tx: TxId, p: nat, n: nat)
    requires p <= n <= |recs|
  {
    forall i :: p <= i < n ==> !(recs[i].tx == tx && Ends(recs[i]))
  }

  /** What the checkpoint cuts off from a transaction that is open there. */
  function Cut(recs: seq<LogRecord>, tx: TxId, p: nat): seq<Entry>
    requires p <= |recs|
  {
    if tx == 0 then [] else ChangesSince(recs, tx, p)
  }

  /** Record `i` commits a transaction that was open at the checkpoint and had made changes before it. */
  ghost predicate Straddles(recs: seq<LogRecord>, p: nat, i: nat)
    requires p <= i < |recs|
  {
    recs[i].op.Commit? && Untouched(recs, recs[i].tx, p, i) && Cut(recs, recs[i].tx, p) != []
  }

  ghost predicate NoStraddler(recs: seq<LogRecord>, p: nat, n: nat)
    requires p <= n <= |recs|
  {
    forall i {:trigger Straddles(recs, p, i)} :: p <= i < n ==> !Straddles(recs, p, i)
  }

  /** Below the checkpoint nothing is recovered, and open transactions have nothing pending. */
  lemma {:induction false} SkippedPrefix(recs: seq<LogRecord>, p: nat, n: nat, checkpoint: nat)
    requires SplitAt(recs, p, checkpoint) && n <= p
    ensures RunTo(recs, n, checkpoint).committed == [] && 0 !in RunTo(recs, n, checkpoint).active
    ensures forall tx {:trigger RunTo(recs, n, checkpoint).Pending(tx)} :: RunTo(recs, n, checkpoint).Pending(tx) == []
  {
    if n > 0 {
      SkippedPrefix(recs, p, n - 1, checkpoint);
      StepEffect(RunTo(recs, n - 1, checkpoint), recs[n - 1], checkpoint);
      forall tx ensures RunTo(recs, n, checkpoint).Pending(tx) == [] {
        assert RunTo(recs, n - 1, checkpoint).Pending(tx) == [];
      }
    }
  }

  /** Recovery from a checkpoint is recovery of the log after it, as if there were nothing before. */
  lemma {:induction false} CheckpointIsSuffix(recs: seq<LogRecord>, p: nat, n: nat, checkpoint: nat)
    requires SplitAt(recs, p, checkpoint) && p <= n <= |recs|
    ensures RunTo(recs, n, checkpoint).committed == RunTo(recs[p..], n - p, checkpoint).committed
    ensures 0 !in RunTo(recs, n, checkpoint).active && 0 !in RunTo(recs[p..], n - p, checkpoint).active
    ensures forall tx {:trigger RunTo(recs, n, checkpoint).Pending(tx)} ::
              RunTo(recs, n, checkpoint).Pending(tx) == RunTo(recs[p..], n - p, checkpoint).Pending(tx)
    decreases n
  {
    if n == p {
      SkippedPrefix(recs, p, n, checkpoint);
      assert forall tx :: RunTo(recs[p..], 0, checkpoint).Pending(tx) == [];
    } else {
      CheckpointIsSuffix(recs, p, n - 1, checkpoint);
      var s, t := RunTo(recs, n - 1, checkpoint), RunTo(recs[p..], n - 1 - p, checkpoint);
      var r := recs[n - 1];
      assert recs[p..][n - 1 - p] == r;
      StepEffect(s, r, checkpoint);
      StepEffect(t, r, checkpoint);
      assert s.Pending(r.tx) == t.Pending(r.tx);
      forall tx ensures RunTo(recs, n, checkpoint).Pending(tx) == RunTo(recs[p..], n - p, checkpoint).Pending(tx) {
        assert s.Pending(tx) == t.Pending(tx);
      }
    }
  }

  /** What a transaction has pending after the checkpoint, compared to all its changes. */
  lemma {:induction false} PendingCompared(recs: seq<LogRecord>, p: nat, n: nat, checkpoint: nat)
    requires SplitAt(recs, p, checkpoint) && p <= n <= |recs|
    ensures 0 !in RunTo(recs, n, checkpoint).active
    ensures forall tx {:trigger RunTo(recs, n, checkpoint).Pending(tx)} :: tx > 0 ==>
              ChangesSince(recs, tx, n) ==
              (if Untouched(recs, tx, p, n) then Cut(recs, tx, p) else []) + RunTo(recs, n, checkpoint).Pending(tx)
    decreases n
  {
    var s := RunTo(recs, n, checkpoint);
    if n == p {
      SkippedPrefix(recs, p, n, checkpoint);
    } else {
      PendingCompared(recs, p, n - 1, checkpoint);
      var s0, r := RunTo(recs, n - 1, checkpoint), recs[n - 1];
      StepEffect(s0, r, checkpoint);
      forall tx | tx > 0
        ensures ChangesSince(recs, tx, n) ==
                (if Untouched(recs, tx, p, n) then Cut(recs, tx, p) else []) + s.Pending(tx)
      {
        assert s0.Pending(tx) == s0.Pending(tx);
        if r.tx == tx && Ends(r) {
          assert !Untouched(recs, tx, p, n);
        } else {
          assert Untouched(recs, tx, p, n) == Untouched(recs, tx, p, n - 1);
        }
      }
    }
  }

  /** How what is recovered after a checkpoint compares to all committed operations: it is what follows those from
      before the checkpoint, or, if a transaction straddles, less than that. */
  predicate Agrees(before: seq<Entry>, all: seq<Entry>, recovered: seq<Entry>, clean: bool) {
    if clean then all == before + recovered else |all| > |before| + |recovered|
  }

  lemma {:induction false} CheckpointCompared(recs: seq<LogRecord>, p: nat, n: nat, checkpoint: nat)
    requires SplitAt(recs, p, checkpoint) && p <= n <= |recs|
    ensures Agrees(CommittedOps(recs, p), CommittedOps(recs, n), RunTo(recs, n, checkpoint).committed, NoStraddler(recs, p, n))
    decreases n
  {
    if n == p {
      SkippedPrefix(recs, p, n, checkpoint);
    } else {
      CheckpointCompared(recs, p, n - 1, checkpoint);
      var lost, gain := CheckpointStep(recs, p, n, checkpoint);
      Accumulate(CommittedOps(recs, p), CommittedOps(recs, n - 1), RunTo(recs, n - 1, checkpoint).committed,
                 lost, gain, NoStraddler(recs, p, n - 1));
    }
  }

  lemma Accumulate(before: seq<Entry>, all: seq<Entry>, recovered: seq<Entry>, lost: seq<Entry>, gain: seq<Entry>,
                   clean: bool)
    requires Agrees(before, all, recovered, clean)
    ensures Agrees(before, all + (lost + gain), recovered + gain, clean && lost == [])
  {
  }

  /** One more record: what it makes durable is what recovery gains plus what the checkpoint cut off. */
  lemma CheckpointStep(recs: seq<LogRecord>, p: nat, n: nat, checkpoint: nat)
    returns (lost: seq<Entry>, gain: seq<Entry>)
    requires SplitAt(recs, p, checkpoint) && p < n <= |recs|
    ensures CommittedOps(recs, n) == CommittedOps(recs, n - 1) + (lost + gain)
    ensures RunTo(recs, n, checkpoint).committed == RunTo(recs, n - 1, checkpoint).committed + gain
    ensures NoStraddler(recs, p, n) == (NoStraddler(recs, p, n - 1) && lost == [])
  {
    var r := recs[n - 1];
    var cut, pending := OwnPending(recs, p, n - 1, checkpoint);
    StepEffect(RunTo(recs, n - 1, checkpoint), r, checkpoint);
    EmittedCompared(recs, p, n - 1, checkpoint, cut, pending);
    StraddlerStep(recs, p, n);
    lost, gain := if r.op.Commit? then cut else [], Gain(pending, r, checkpoint);
  }

  /** What the transaction of record `n` has pending, and what the checkpoint cut off from it. */
  lemma OwnPending(recs: seq<LogRecord>, p: nat, n: nat, checkpoint: nat) returns (cut: seq<Entry>, pending: seq<Entry>)
    requires SplitAt(recs, p, checkpoint) && p <= n < |recs|
    ensures 0 !in RunTo(recs, n, checkpoint).active
    ensures cut == if Untouched(recs, recs[n].tx, p, n) then Cut(recs, recs[n].tx, p) else []
    ensures pending == RunTo(recs, n, checkpoint).Pending(recs[n].tx)
    ensures recs[n].tx > 0 ==> ChangesSince(recs, recs[n].tx, n) == cut + pending
    ensures recs[n].tx == 0 ==> pending == []
  {
    PendingCompared(recs, p, n, checkpoint);
    cut := if Untouched(recs, recs[n].tx, p, n) then Cut(recs, recs[n].tx, p) else [];
    pending := RunTo(recs, n, checkpoint).Pending(recs[n].tx);
  }

  /** A COMMIT makes durable what the checkpoint cut off and what is pending. */
  lemma EmittedCompared(recs: seq<LogRecord>, p: nat, i: nat, checkpoint: nat, cut: seq<Entry>, pending: seq<Entry>)
    requires SplitAt(recs, p, checkpoint) && p <= i < |recs|
    requires cut == if Untouched(recs, recs[i].tx, p, i) then Cut(recs, recs[i].tx, p) else []
    requires recs[i].tx > 0 ==> ChangesSince(recs, recs[i].tx, i) == cut + pending
    requires recs[i].tx == 0 ==> pending == []
    ensures Emitted(recs, i) == (if recs[i].op.Commit? then cut else []) + Gain(pending, recs[i], checkpoint)
  {
  }

  lemma StraddlerStep(recs: seq<LogRecord>, p: nat, n: nat)
    requires p < n <= |recs|
    ensures NoStraddler(recs, p, n) <==> NoStraddler(recs, p, n - 1) && !Straddles(recs, p, n - 1)
  {
  }

  /** Checkpointing is sound exactly if no transaction straddles the checkpoint. In particular it is sound when no
      transaction with changes is open there. */
  lemma CheckpointSound(recs: seq<LogRecord>, p: nat, checkpoint: nat)
    requires SplitAt(recs, p, checkpoint)
    ensures CommittedOps(recs, |recs|) == CommittedOps(recs, p) + RunTo(recs, |recs|, checkpoint).committed
            <==> NoStraddler(recs, p, |recs|)
    ensures (forall tx :: Cut(recs, tx, p) == []) ==> NoStraddler(recs, p, |recs|)
  {
    CheckpointCompared(recs, p, |recs|, checkpoint);
  }

  /** A transaction that straddles the checkpoint loses its changes from before it. */
  lemma StraddlerLosesChanges() returns (recs: seq<LogRecord>)
    ensures |recs| == 3 && SplitAt(recs, 2, 2)
    ensures CommittedOps(recs, 3) == [Put([1], [1])] && RunTo(recs, 3, 2).committed == []
  {
    recs := [LogRecord(1, 7, Begin), LogRecord(2, 7, Change(Put([1], [1]))), LogRecord(3, 7, Commit)];
    assert ChangesSince(recs, 7, 1) == [];
    assert ChangesSince(recs, 7, 2) == [] + [Put([1], [1])];
    assert CommittedOps(recs, 1) == [] && CommittedOps(recs, 2) == [];
    SkippedPrefix(recs, 2, 2, 2);
    assert RunTo(recs, 2, 2).Pending(7) == [];
  }

  // ---- Restart after a clean shutdown ----

  /** Records numbered from 1 on, as a log is after a shutdown reset its LSN. */
  ghost predicate Renumbered(recs: seq<LogRecord>) {
    forall i :: 0 <= i < |recs| ==> recs[i].lsn == i + 1
  }

  /** A shutdown stores its last LSN as the checkpoint and restarts the numbering. A later recovery from that
      checkpoint finds everything exactly if the first `checkpoint` records of the new log make nothing durable
      and no transaction straddles their end. */
  lemma RecoveryAfterShutdown(recs: seq<LogRecord>, checkpoint: nat)
    requires Renumbered(recs)
    ensures var p := if checkpoint < |recs| then checkpoint else |recs|;
            RunTo(recs, |recs|, checkpoint).committed == CommittedOps(recs, |recs|)
            <==> CommittedOps(recs, p) == [] && NoStraddler(recs, p, |recs|)
  {
    var p := if checkpoint < |recs| then checkpoint else |recs|;
    assert SplitAt(recs, p, checkpoint);
    CheckpointCompared(recs, p, |recs|, checkpoint);
  }

  /** So a log no longer than the checkpoint loses every commit. */
  lemma ShortLogLost(recs: seq<LogRecord>, checkpoint: nat)
    requires Renumbered(recs) && |recs| <= checkpoint
    ensures RunTo(recs, |recs|, checkpoint).committed == []
  {
    assert SplitAt(recs, |recs|, checkpoint);
    SkippedPrefix(recs, |recs|, |recs|, checkpoint);
  }
}
