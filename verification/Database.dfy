/** The database on top of log and index: every change is logged before it is made, COMMIT makes log and data
    durable, and opening replays the log into the data. The index is taken as the map that the B+ tree stands for, the
    data file as the image of that map at the last flush. */
module Database {
  import opened Common
  import opened Bytes
  import opened Nodes
  import opened Wal
  import opened WalFile

  type Contents = map<bytes, bytes>

  /** The index refuses keys that are too long. */
  predicate Accepted(e: Entry) {
    e.Put? ==> |e.key| <= MAX_KEY_SIZE
  }

  function Apply(m: Contents, e: Entry): Contents {
    match e
    case Put(k, v) => if Accepted(e) then m[k := v] else m
    case Delete(k) => m - {k}
  }

  /** Entries from number `i` on applied in order. */
  function ReplayFrom(m: Contents, es: seq<Entry>, i: nat): Contents
    requires i <= |es|
    decreases |es| - i
  {
    if i == |es| then m else ReplayFrom(Apply(m, es[i]), es, i + 1)
  }

  function Replay(m: Contents, es: seq<Entry>): Contents {
    ReplayFrom(m, es, 0)
  }

  // ---- Replay ----

  lemma {:induction false} ReplaySplit(m: Contents, a: seq<Entry>, b: seq<Entry>, i: nat)
    requires i <= |a|
    ensures ReplayFrom(m, a + b, i) == Replay(ReplayFrom(m, a, i), b)
    decreases |a| - i
  {
    if i < |a| {
      assert (a + b)[i] == a[i];
      ReplaySplit(Apply(m, a[i]), a, b, i + 1);
    } else {
      ReplayShift(m, a, b, 0);
    }
  }

  lemma {:induction false} ReplayShift(m: Contents, a: seq<Entry>, b: seq<Entry>, j: nat)
    requires j <= |b|
    ensures ReplayFrom(m, a + b, |a| + j) == ReplayFrom(m, b, j)
    decreases |b| - j
  {
    if j < |b| {
      assert (a + b)[|a| + j] == b[j];
      ReplayShift(Apply(m, b[j]), a, b, j + 1);
    }
  }

  lemma ReplayAppend(m: Contents, a: seq<Entry>, e: Entry)
    ensures Replay(m, a + [e]) == Apply(Replay(m, a), e)
  {
    ReplaySplit(m, a, [e], 0);
    assert ReplayFrom(Apply(Replay(m, a), e), [e], 1) == Apply(Replay(m, a), e);
  }

  lemma ReplayNext(m: Contents, es: seq<Entry>, i: nat)
    requires i < |es|
    ensures Replay(m, es[..i + 1]) == Apply(Replay(m, es[..i]), es[i])
    ensures AllAccepted(es[..i]) && Accepted(es[i]) ==> AllAccepted(es[..i + 1])
  {
    assert es[..i + 1] == es[..i] + [es[i]];
    ReplayAppend(m, es[..i], es[i]);
  }

  lemma AcceptedBefore(es: seq<Entry>, n: nat)
    requires 0 < n <= |es| && AllAccepted(es[..n])
    ensures AllAccepted(es[..n - 1]) && Accepted(es[n - 1])
  {
    assert es[..n][n - 1] == es[n - 1];
    assert forall i :: 0 <= i < n - 1 ==> es[..n - 1][i] == es[..n][i];
  }

  /** Two maps agree on a key: both lack it or both have it with the same value. */
  predicate AgreeAt(m: Contents, n: Contents, k: bytes) {
    (k in m <==> k in n) && (k in m && k in n ==> m[k] == n[k])
  }

  /** Some entry decides the value of `k`. */
  ghost predicate Decides(e: Entry, k: bytes) {
    e.key == k && Accepted(e)
  }

  /** After a replay a key has the value of the last entry that decides it, and its former value if there is none:
      the starting map does not matter for the keys the entries decide. */
  lemma {:induction false} ReplayDecides(m: Contents, n: Contents, es: seq<Entry>, i: nat, k: bytes)
    requires i <= |es|
    requires AgreeAt(m, n, k) || exists j :: i <= j < |es| && Decides(es[j], k)
    ensures AgreeAt(ReplayFrom(m, es, i), ReplayFrom(n, es, i), k)
    decreases |es| - i
  {
    if i < |es| {
      ReplayDecides(Apply(m, es[i]), Apply(n, es[i]), es, i + 1, k);
    }
  }

  lemma {:induction false} ReplayLeaves(m: Contents, es: seq<Entry>, i: nat, k: bytes)
    requires i <= |es|
    requires forall j :: i <= j < |es| ==> !Decides(es[j], k)
    ensures AgreeAt(ReplayFrom(m, es, i), m, k)
    decreases |es| - i
  {
    if i < |es| {
      assert !Decides(es[i], k);
      ReplayLeaves(Apply(m, es[i]), es, i + 1, k);
    }
  }

  /** Replaying a log over data that already has a prefix of it applied changes nothing about the result. */
  lemma ReplayAbsorbs(m: Contents, done: seq<Entry>, all: seq<Entry>)
    requires done <= all
    ensures Replay(Replay(m, done), all) == Replay(m, all)
  {
    var a, b := Replay(Replay(m, done), all), Replay(m, all);
    forall k ensures AgreeAt(a, b, k) {
      if exists j :: 0 <= j < |all| && Decides(all[j], k) {
        ReplayDecides(Replay(m, done), m, all, 0, k);
      } else {
        ReplayLeaves(m, done, 0, k);
        ReplayDecides(Replay(m, done), m, all, 0, k);
      }
    }
    SameMap(a, b);
  }

  lemma SameMap(a: Contents, b: Contents)
    requires forall k :: AgreeAt(a, b, k)
    ensures a == b
  {
    forall k ensures k in a <==> k in b {
      assert AgreeAt(a, b, k);
    }
    forall k | k in a ensures a[k] == b[k] {
      assert AgreeAt(a, b, k);
    }
  }

  // ---- Opening ----

  ghost predicate AllAccepted(es: seq<Entry>) {
    forall i :: 0 <= i < |es| ==> Accepted(es[i])
  }

  // ---- Replays that change nothing ----

  /** The contents already are as the entry would make them. */
  predicate Shows(m: Contents, e: Entry) {
    match e
    case Put(k, v) => k in m && m[k] == v
    case Delete(k) => k !in m
  }

  /** The last of the entries from number `i` on to decide a key is number `j`. */
  ghost predicate IsLast(es: seq<Entry>, i: nat, j: nat) {
    i <= j < |es| && Accepted(es[j]) && forall l :: j < l < |es| ==> !Decides(es[l], es[j].key)
  }

  /** The contents show the last entry for every key that the entries decide. */
  ghost predicate AlreadyShown(m: Contents, es: seq<Entry>) {
    forall j: nat {:trigger IsLast(es, 0, j)} :: IsLast(es, 0, j) ==> Shows(m, es[j])
  }

  lemma {:induction false} LastShows(m: Contents, es: seq<Entry>, i: nat, j: nat)
    requires i <= |es| && IsLast(es, i, j)
    ensures Shows(ReplayFrom(m, es, i), es[j])
    decreases |es| - i
  {
    if i < j {
      LastShows(Apply(m, es[i]), es, i + 1, j);
    } else {
      ReplayLeaves(Apply(m, es[i]), es, i + 1, es[i].key);
    }
  }

  lemma {:induction false} LastExists(es: seq<Entry>, k: bytes, i: nat) returns (j: nat)
    requires i < |es| && Decides(es[i], k)
    ensures IsLast(es, 0, j) && es[j].key == k
    decreases |es| - i
  {
    if l :| i < l < |es| && Decides(es[l], k) {
      j := LastExists(es, k, l);
    } else {
      j := i;
    }
  }

  /** A replay changes nothing exactly if the contents show what it decides. */
  lemma ReplayIdle(m: Contents, es: seq<Entry>)
    ensures Replay(m, es) == m <==> AlreadyShown(m, es)
  {
    if Replay(m, es) == m {
      forall j: nat | IsLast(es, 0, j) ensures Shows(m, es[j]) {
        LastShows(m, es, 0, j);
      }
    }
    if AlreadyShown(m, es) {
      forall k ensures AgreeAt(Replay(m, es), m, k) {
        if i :| 0 <= i < |es| && Decides(es[i], k) {
          var j := LastExists(es, k, i);
          LastShows(m, es, 0, j);
        } else {
          ReplayLeaves(m, es, 0, k);
        }
      }
      SameMap(Replay(m, es), m);
    }
  }

  // ---- One more record ----

  lemma {:induction false} ChangesPrefix(recs: seq<LogRecord>, r: LogRecord, tx: TxId, n: nat)
    requires n <= |recs|
    ensures ChangesSince(recs + [r], tx, n) == ChangesSince(recs, tx, n)
  {
    if n > 0 {
      assert (recs + [r])[n - 1] == recs[n - 1];
      ChangesPrefix(recs, r, tx, n - 1);
    }
  }

  lemma {:induction false} CommittedPrefix(recs: seq<LogRecord>, r: LogRecord, n: nat)
    requires n <= |recs|
    ensures CommittedOps(recs + [r], n) == CommittedOps(recs, n)
  {
    if n > 0 {
      assert (recs + [r])[n - 1] == recs[n - 1];
      CommittedPrefix(recs, r, n - 1);
      ChangesPrefix(recs, r, recs[n - 1].tx, n - 1);
    }
  }

  /** All committed operations of a log. */
  function Committed(recs: seq<LogRecord>): seq<Entry> {
    CommittedOps(recs, |recs|)
  }

  function Changes(recs: seq<LogRecord>, tx: TxId): seq<Entry> {
    ChangesSince(recs, tx, |recs|)
  }

  lemma Logged(recs: seq<LogRecord>, r: LogRecord)
    ensures Committed(recs + [r]) == Committed(recs) +
              (match r.op
               case Change(e) => if r.tx == 0 then [e] else []
               case Commit => if r.tx == 0 then [] else Changes(recs, r.tx)
               case _ => [])
    ensures Changes(recs + [r], r.tx) == if Ends(r) then [] else Changes(recs, r.tx) + [r.op.entry]
  {
    CommittedPrefix(recs, r, |recs|);
    ChangesPrefix(recs, r, r.tx, |recs|);
  }

  /** The changes of the open transaction. */
  function Pending(recs: seq<LogRecord>, open: Option<TxId>): seq<Entry> {
    if open.Some? then Changes(recs, open.value) else []
  }

  /** The contents hold all committed operations and those of the open transaction. */
  ghost predicate Reflects(index: Contents, base: Contents, recs: seq<LogRecord>, open: Option<TxId>) {
    && (open.Some? ==> open.value > 0)
    && index == Replay(base, Committed(recs) + Pending(recs, open))
  }

  /** A change logged under the open transaction, or under none, is pending or committed last. */
  lemma ChangeLogged(index: Contents, base: Contents, recs: seq<LogRecord>, open: Option<TxId>, r: LogRecord)
    requires Reflects(index, base, recs, open) && r.tx == (if open.Some? then open.value else 0) && r.op.Change?
    ensures Reflects(Apply(index, r.op.entry), base, recs + [r], open)
  {
    Logged(recs, r);
    ReplayAppend(base, Committed(recs) + Pending(recs, open), r.op.entry);
    assert Committed(recs + [r]) + Pending(recs + [r], open) == (Committed(recs) + Pending(recs, open)) + [r.op.entry];
  }

  lemma BeginLogged(index: Contents, base: Contents, recs: seq<LogRecord>, r: LogRecord)
    requires Reflects(index, base, recs, None) && r.tx > 0 && r.op.Begin?
    ensures Reflects(index, base, recs + [r], Some(r.tx)) && Pending(recs + [r], Some(r.tx)) == []
    ensures index == Replay(base, Committed(recs + [r]))
  {
    Logged(recs, r);
    assert Committed(recs + [r]) + [] == Committed(recs + [r]) == Committed(recs) + [];
  }

  lemma CommitLogged(index: Contents, base: Contents, recs: seq<LogRecord>, r: LogRecord)
    requires Reflects(index, base, recs, Some(r.tx)) && r.op.Commit?
    ensures Reflects(index, base, recs + [r], None) && index == Replay(base, Committed(recs + [r]))
    ensures Committed(recs + [r]) == Committed(recs) + Pending(recs, Some(r.tx))
  {
    Logged(recs, r);
    assert Committed(recs + [r]) + [] == Committed(recs + [r]);
  }

  /** A ROLLBACK undoes nothing: the index is right afterwards exactly if the changes of the transaction changed
      nothing. */
  lemma RollbackLogged(index: Contents, base: Contents, recs: seq<LogRecord>, r: LogRecord)
    requires Reflects(index, base, recs, Some(r.tx)) && r.op.Rollback?
    ensures Committed(recs + [r]) == Committed(recs)
    ensures Reflects(index, base, recs + [r], None) <==>
            AlreadyShown(Replay(base, Committed(recs)), Pending(recs, Some(r.tx)))
  {
    Logged(recs, r);
    var m, es := Replay(base, Committed(recs)), Pending(recs, Some(r.tx));
    ReplaySplit(base, Committed(recs), es, 0);
    ReplayIdle(m, es);
    assert Committed(recs + [r]) + [] == Committed(recs);
  }

  /** Without changes there is nothing to undo. */
  lemma NothingPending(m: Contents)
    ensures AlreadyShown(m, [])
  {
  }

  /** A change made before a ROLLBACK stays in the index although it is not committed. */
  lemma RolledBackChangeStays() returns (index: Contents, recs: seq<LogRecord>, r: LogRecord)
    ensures Reflects(index, map[], recs, Some(r.tx)) && r.op.Rollback? && !Reflects(index, map[], recs + [r], None)
  {
    var begin, put := LogRecord(1, 7, Begin), LogRecord(2, 7, Change(Put([1], [1])));
    BeginLogged(map[], map[], [], begin);
    ChangeLogged(map[], map[], [] + [begin], Some(7), put);
    index, recs, r := Apply(map[], put.op.entry), [] + [begin] + [put], LogRecord(3, 7, Rollback);
    Logged([], begin);
    Logged([] + [begin], put);
    RollbackLogged(index, map[], recs, r);
    assert [1] in index;
  }

  // ---- Crashes ----

  /** A crash loses whatever part of the log was not synced, and every change of the data since the last flush.
      Opening what is left gives the starting contents with exactly the committed operations of the surviving part of
      the log; these include everything that was synced. */
  lemma {:induction false} CrashRecovery(base: Contents, recs: seq<LogRecord>, flushed: nat, durable: nat, cut: nat,
                                         checkpoint: nat, crc: Checksum)
    requires AllLoggable(recs) && AllAbove(recs, checkpoint)
    requires flushed <= durable <= |recs| && |FramesTo(recs, durable, crc)| <= cut <= |Frames(recs, crc)|
    ensures var image := Replay(base, CommittedOps(recs, flushed));
            var k := WholeFrames(recs, cut, crc);
            var found := Recovered(Frames(recs, crc)[..cut], checkpoint, crc).committed;
            && durable <= k
            && CommittedOps(recs, durable) <= found == CommittedOps(recs, k)
            && Replay(image, found) == Replay(base, CommittedOps(recs, k))
  {
    var k := WholeFrames(recs, cut, crc);
    TruncatedLog(recs, cut, checkpoint, crc);
    FramesKept(recs, durable, cut, crc);
    RecoversCommitted(recs, k, checkpoint);
    CommittedMonotone(recs, durable, k);
    CommittedMonotone(recs, flushed, k);
    ReplayAbsorbs(base, CommittedOps(recs, flushed), CommittedOps(recs, k));
  }

  /** From record `start` on the log has one transaction: its BEGIN, its changes and its COMMIT. */
  ghost predicate IsTransaction(recs: seq<LogRecord>, start: nat, tx: TxId) {
    && start + 2 <= |recs| && tx > 0
    && (forall i {:trigger IsPart(recs, start, tx, i)} :: start <= i < |recs| ==> IsPart(recs, start, tx, i))
  }

  predicate IsPart(recs: seq<LogRecord>, start: nat, tx: TxId, i: int)
    requires 0 <= start <= i < |recs|
  {
    var op := recs[i].op;
    recs[i].tx == tx && if i == start then op.Begin? else if i < |recs| - 1 then op.Change? else op.Commit?
  }

  /** What the records `from` up to `to` change. */
  function Entries(recs: seq<LogRecord>, from: nat, to: nat): seq<Entry>
    requires from <= to <= |recs|
  {
    if from == to then []
    else Entries(recs, from, to - 1) + (if recs[to - 1].op.Change? then [recs[to - 1].op.entry] else [])
  }

  /** Before its COMMIT a transaction makes nothing durable, its COMMIT makes all of it durable. */
  lemma {:induction false} CommitsAtOnce(recs: seq<LogRecord>, start: nat, tx: TxId, k: nat)
    requires IsTransaction(recs, start, tx) && start <= k <= |recs|
    ensures start < k < |recs| ==> ChangesSince(recs, tx, k) == Entries(recs, start + 1, k)
    ensures CommittedOps(recs, k) ==
            if k < |recs| then CommittedOps(recs, start) else CommittedOps(recs, start) + Entries(recs, start + 1, |recs| - 1)
    decreases k
  {
    if start < k {
      CommitsAtOnce(recs, start, tx, k - 1);
      PartStep(recs, start, tx, k);
    }
  }

  lemma PartStep(recs: seq<LogRecord>, start: nat, tx: TxId, k: nat)
    requires IsTransaction(recs, start, tx) && start < k <= |recs|
    requires start < k - 1 ==> ChangesSince(recs, tx, k - 1) == Entries(recs, start + 1, k - 1)
    ensures k < |recs| ==> ChangesSince(recs, tx, k) == Entries(recs, start + 1, k)
    ensures CommittedOps(recs, k) ==
            if k < |recs| then CommittedOps(recs, k - 1) else CommittedOps(recs, k - 1) + Entries(recs, start + 1, |recs| - 1)
  {
    assert IsPart(recs, start, tx, k - 1);
    var gain := if k < |recs| then [] else Entries(recs, start + 1, |recs| - 1);
    assert Emitted(recs, k - 1) == gain;
    assert CommittedOps(recs, k) == CommittedOps(recs, k - 1) + gain;
    assert CommittedOps(recs, k - 1) + [] == CommittedOps(recs, k - 1);
  }

  /** A crash during a COMMIT leaves nothing of the transaction, or all of it if its last frame survived. */
  lemma {:induction false} AtomicCommit(base: Contents, recs: seq<LogRecord>, start: nat, tx: TxId, flushed: nat,
                                        durable: nat, cut: nat, checkpoint: nat, crc: Checksum)
    requires AllLoggable(recs) && AllAbove(recs, checkpoint) && IsTransaction(recs, start, tx)
    requires flushed <= durable <= |recs| && |FramesTo(recs, durable, crc)| <= cut <= |Frames(recs, crc)|
    requires start <= durable
    ensures var after := Replay(Replay(base, CommittedOps(recs, flushed)), Recovered(Frames(recs, crc)[..cut], checkpoint, crc).committed);
            && (WholeFrames(recs, cut, crc) < |recs| ==> after == Replay(base, CommittedOps(recs, start)))
            && (WholeFrames(recs, cut, crc) == |recs| ==>
                  after == Replay(base, CommittedOps(recs, start) + Entries(recs, start + 1, |recs| - 1)))
  {
    CrashRecovery(base, recs, flushed, durable, cut, checkpoint, crc);
    CommitsAtOnce(recs, start, tx, WholeFrames(recs, cut, crc));
  }

  /** A put outside any transaction takes effect where it stands in the log: a longer log has it among what it commits,
      and its value is there unless a later operation on the key is committed too. */
  lemma PutTakesEffect(base: Contents, recs: seq<LogRecord>, i: nat, n: nat, k: bytes, v: bytes)
    requires i < n <= |recs| && recs[i].tx == 0 && recs[i].op == Change(Put(k, v)) && |k| <= MAX_KEY_SIZE
    ensures var at, found := |CommittedOps(recs, i)|, CommittedOps(recs, n);
            && at < |found| && found[at] == Put(k, v)
            && ((forall j :: at < j < |found| ==> found[j].key != k) ==>
                  k in Replay(base, found) && Replay(base, found)[k] == v)
  {
    var before, found := CommittedOps(recs, i), CommittedOps(recs, n);
    assert Emitted(recs, i) == [Put(k, v)] && CommittedOps(recs, i + 1) == before + [Put(k, v)];
    CommittedMonotone(recs, i + 1, n);
    assert before + [Put(k, v)] <= found;
    LastPutShows(base, found, |before|, k, v);
  }

  lemma LastPutShows(base: Contents, es: seq<Entry>, at: nat, k: bytes, v: bytes)
    requires at < |es| && es[at] == Put(k, v) && |k| <= MAX_KEY_SIZE
    ensures (forall j :: at < j < |es| ==> es[j].key != k) ==> k in Replay(base, es) && Replay(base, es)[k] == v
  {
    var before, rest := es[..at + 1], es[at + 1..];
    assert es == before + rest;
    ReplaySplit(base, before, rest, 0);
    ReplayNext(base, es, at);
    if forall j :: at < j < |es| ==> es[j].key != k {
      forall j | 0 <= j < |rest| ensures !Decides(rest[j], k) {
        assert rest[j] == es[at + 1 + j];
      }
      ReplayLeaves(Replay(base, before), rest, 0, k);
    }
  }

  /** If the whole log survives and no transaction is open, nothing is lost. */
  lemma NothingLost(index: Contents, base: Contents, recs: seq<LogRecord>, crc: Checksum)
    requires Reflects(index, base, recs, None)
    ensures WholeFrames(recs, |Frames(recs, crc)|, crc) == |recs| && index == Replay(base, Committed(recs))
  {
    FramesKept(recs, |recs|, |Frames(recs, crc)|, crc);
    assert Committed(recs) + [] == Committed(recs);
  }

  /** After a shutdown at LSN `checkpoint` the log restarts at LSN 1. As long as it has at most `checkpoint` records, a
      crash loses all of it. */
  lemma LostAfterShutdown(image: Contents, recs: seq<LogRecord>, cut: nat, checkpoint: nat, crc: Checksum)
    requires AllLoggable(recs) && Renumbered(recs) && |recs| <= checkpoint && cut <= |Frames(recs, crc)|
    ensures Replay(image, Recovered(Frames(recs, crc)[..cut], checkpoint, crc).committed) == image
  {
    TruncatedLog(recs, cut, checkpoint, crc);
    SkippedPrefix(recs, |recs|, WholeFrames(recs, cut, crc), checkpoint);
  }

  // ---- The database ----

  /** Log and image agree: the log can be recovered, its first `durable` records are synced, and the image holds the
      operations committed by the first `flushed` of them. */
  ghost predicate LogOk(recs: seq<LogRecord>, frames: seq<bytes>, lsn: nat, checkpoint: nat, durable: nat, synced: nat,
                        base: Contents, flushed: nat, image: Contents)
  {
    && AllLoggable(recs) && AllAbove(recs, checkpoint) && checkpoint <= lsn
    && flushed <= durable <= |recs| == |frames|
    && synced == |JoinedTo(frames, durable)|
    && image == Replay(base, CommittedOps(recs, flushed))
  }

  /** An empty log whose numbering restarts goes with any image, but only with checkpoint 0. */
  lemma EmptyLog(image: Contents, checkpoint: nat)
    ensures LogOk([], [], 0, checkpoint, 0, 0, image, 0, image) <==> checkpoint == 0
    ensures Reflects(image, image, [], None)
  {
    assert Committed([]) + [] == [];
  }

  lemma LogAppended(recs: seq<LogRecord>, r: LogRecord, frames: seq<bytes>, frames': seq<bytes>, lsn: nat,
                    checkpoint: nat, durable: nat, synced: nat, base: Contents, flushed: nat, image: Contents)
    requires LogOk(recs, frames, lsn, checkpoint, durable, synced, base, flushed, image) && Loggable(r) && r.lsn > lsn
    requires |frames'| == |frames| + 1 && frames'[..|frames|] == frames
    ensures LogOk(recs + [r], frames', r.lsn, checkpoint, durable, synced, base, flushed, image)
  {
    var more := recs + [r];
    forall i | 0 <= i < |more| ensures Loggable(more[i]) {
      assert i < |recs| ==> more[i] == recs[i] && Loggable(recs[i]);
    }
    assert frames' == frames + [frames'[|frames|]];
    JoinedPrefix(frames, frames'[|frames|], durable);
    CommittedPrefix(recs, r, flushed);
  }

  lemma LogSynced(recs: seq<LogRecord>, frames: seq<bytes>, lsn: nat, checkpoint: nat, durable: nat, synced: nat,
                  base: Contents, flushed: nat, image: Contents)
    requires LogOk(recs, frames, lsn, checkpoint, durable, synced, base, flushed, image)
    ensures LogOk(recs, frames, lsn, checkpoint, |recs|, |JoinedTo(frames, |frames|)|, base, flushed, image)
  {
  }

  class Database {
    const wal: WriteAheadLog
    const syncOnWrite: bool
    /** The checkpoint LSN on page 0. */
    var checkpoint: nat
    var index: Contents
    /** The data file as of the last flush. */
    var image: Contents
    /** How much of the log file is known to be on disk. */
    var synced: nat
    /** The contents before the first record of the log. */
    ghost var base: Contents
    /** The transaction whose changes are being logged; transactions come one after the other. */
    ghost var open: Option<TxId>
    /** How many records the image and the synced part of the log include. */
    ghost var flushed: nat
    ghost var durable: nat

    /** Log and image agree: the image holds the operations committed up to some synced record. */
    ghost predicate LogValid()
      reads `checkpoint, `image, `synced, `base, `flushed, `durable, wal
    {
      wal.Valid() && LogOk(wal.records, wal.frames, wal.lsn, checkpoint, durable, synced, base, flushed, image)
    }

    ghost predicate Valid()
      reads this, wal
    {
      LogValid() && Reflects(index, base, wal.records, open)
    }

    constructor (crc: Checksum, syncOnWrite: bool)
      ensures Valid() && fresh(wal) && index == map[] && open == None && wal.records == [] && wal.lsn == 0
      ensures wal.crc == crc && image == base == map[] && AllSynced() && checkpoint == 0 && this.syncOnWrite == syncOnWrite
    {
      wal := new WriteAheadLog(crc);
      this.syncOnWrite, checkpoint := syncOnWrite, 0;
      index, image, synced := map[], map[], 0;
      base, open, flushed, durable := map[], None, 0, 0;
    }

    /** All of the log is on disk. */
    ghost predicate AllSynced()
      reads `synced, `durable, wal
    {
      durable == |wal.records| && synced == |wal.file|
    }

    /** A record goes to the log, which is synced if asked for. */
    method Log(tx: TxId, op: LogOp, sync: bool) returns (ghost r: LogRecord)
      requires LogValid() && wal.lsn + 1 < TWO_64 && tx < TWO_64 && |Payload(op)| < TWO_32
      modifies wal, `synced, `durable
      ensures LogValid() && r == LogRecord(old(wal.lsn) + 1, tx, op) && wal.records == old(wal.records) + [r]
      ensures wal.lsn == old(wal.lsn) + 1
      ensures if sync then AllSynced() else synced == old(synced) && durable == old(durable)
    {
      r := Append(tx, op);
      if sync { Sync(); }
    }

    method Append(tx: TxId, op: LogOp) returns (ghost r: LogRecord)
      requires LogValid() && wal.lsn + 1 < TWO_64 && Loggable(LogRecord(wal.lsn + 1, tx, op))
      modifies wal
      ensures LogValid() && r == LogRecord(old(wal.lsn) + 1, tx, op) && wal.records == old(wal.records) + [r]
      ensures wal.lsn == old(wal.lsn) + 1
    {
      r := LogRecord(wal.lsn + 1, tx, op);
      wal.WriteRecord(tx, op);
      LogAppended(old(wal.records), r, old(wal.frames), wal.frames, old(wal.lsn), checkpoint, durable, synced, base, flushed, image);
    }

    /** The file is synced. */
    method Sync()
      requires LogValid()
      modifies `synced, `durable
      ensures LogValid() && AllSynced()
    {
      LogSynced(wal.records, wal.frames, wal.lsn, checkpoint, durable, synced, base, flushed, image);
      synced, durable := |wal.file|, |wal.records|;
    }

    /** `put_with_tx`: the change is logged first; the index refuses a key that is too long, the log does not. `carried`
        says whether the tree finds room for the record; if not, the index is not what the log says any more. */
    method PutWithTx(tx: TxId, key: bytes, value: bytes, carried: bool) returns (r: Result<(), Entry>)
      requires LogValid() && wal.lsn + 1 < TWO_64 && tx < TWO_64 && |key| + |value| + 8 < TWO_32
      requires tx == (if open.Some? then open.value else 0) && (open.Some? ==> tx > 0)
      modifies wal, `synced, `durable, `index
      ensures LogValid() && wal.lsn == old(wal.lsn) + 1
      ensures wal.records == old(wal.records) + [LogRecord(old(wal.lsn) + 1, tx, Change(Put(key, value)))]
      ensures if syncOnWrite then AllSynced() else synced == old(synced) && durable == old(durable)
      ensures open.Some? ==> Committed(wal.records) == old(Committed(wal.records))
      ensures r.Ok? <==> |key| <= MAX_KEY_SIZE && carried
      ensures |key| > MAX_KEY_SIZE || carried ==>
                && index == (if r.Ok? then old(index)[key := value] else old(index))
                && (old(Valid()) ==> Valid())
    {
      var e := Put(key, value);
      ghost var logged := Log(tx, Change(e), syncOnWrite);
      Logged(old(wal.records), logged);
      if old(Valid()) {
        ChangeLogged(index, base, old(wal.records), open, logged);
      }
      if |key| > MAX_KEY_SIZE || !carried { return Err(e); }
      index := index[key := value];
      r := Ok(());
    }

    /** `delete_with_tx`. `carried` says whether the tree stays one: whether the delete frees no leaf. */
    method DeleteWithTx(tx: TxId, key: bytes, ghost carried: bool)
      requires LogValid() && wal.lsn + 1 < TWO_64 && tx < TWO_64 && |key| + 4 < TWO_32
      requires tx == (if open.Some? then open.value else 0) && (open.Some? ==> tx > 0)
      modifies wal, `synced, `durable, `index
      ensures LogValid() && wal.lsn == old(wal.lsn) + 1
      ensures wal.records == old(wal.records) + [LogRecord(old(wal.lsn) + 1, tx, Change(Delete(key)))]
      ensures if syncOnWrite then AllSynced() else synced == old(synced) && durable == old(durable)
      ensures open.Some? ==> Committed(wal.records) == old(Committed(wal.records))
      ensures carried ==> index == old(index) - {key}
      ensures carried && old(Valid()) ==> Valid()
    {
      ghost var logged := Log(tx, Change(Delete(key)), syncOnWrite);
      Logged(old(wal.records), logged);
      if old(Valid()) {
        ChangeLogged(index, base, old(wal.records), open, logged);
      }
      index := index - {key};
    }

    /** `begin_tx`. */
    method BeginTx(tx: TxId)
      requires Valid() && wal.lsn + 1 < TWO_64 && 0 < tx < TWO_64 && open == None
      modifies wal, `synced, `durable, `open
      ensures Valid() && open == Some(tx) && wal.lsn == old(wal.lsn) + 1
      ensures if syncOnWrite then AllSynced() else synced == old(synced) && durable == old(durable)
      ensures wal.records == old(wal.records) + [LogRecord(old(wal.lsn) + 1, tx, Begin)] && Pending(wal.records, open) == []
      ensures index == Replay(base, Committed(wal.records))
    {
      LogBegin(tx);
      open := Some(tx);
    }

    /** The mark in the log: what is pending now is that of the new transaction, which is nothing. */
    method LogBegin(tx: TxId)
      requires Valid() && wal.lsn + 1 < TWO_64 && 0 < tx < TWO_64 && open == None
      modifies wal, `synced, `durable
      ensures LogValid() && wal.lsn == old(wal.lsn) + 1
      ensures if syncOnWrite then AllSynced() else synced == old(synced) && durable == old(durable)
      ensures wal.records == old(wal.records) + [LogRecord(old(wal.lsn) + 1, tx, Begin)]
      ensures Reflects(index, base, wal.records, Some(tx)) && Pending(wal.records, Some(tx)) == []
      ensures index == Replay(base, Committed(wal.records))
    {
      ghost var logged := Log(tx, Begin, syncOnWrite);
      BeginLogged(index, base, old(wal.records), logged);
    }

    /** `commit_tx`: the mark is logged, log and data are made durable. */
    method CommitTx(tx: TxId)
      requires LogValid() && wal.lsn + 1 < TWO_64 && tx < TWO_64 && open == Some(tx)
      modifies wal, `image, `synced, `open, `flushed, `durable
      ensures wal.records == old(wal.records) + [LogRecord(old(wal.lsn) + 1, tx, Commit)]
      ensures open == None && index == image == old(index) && AllSynced()
      ensures old(Valid()) ==>
                && Valid() && base == old(base) && flushed == durable == |wal.records| == |old(wal.records)| + 1
                && Committed(wal.records) == old(Committed(wal.records) + Pending(wal.records, open))
    {
      ghost var logged := Log(tx, Commit, true);
      if old(Valid()) {
        CommitLogged(index, base, old(wal.records), logged);
      }
      open, image, flushed := None, index, |wal.records|;
      assert wal.records[..durable] == wal.records;
    }

    /** `rollback_tx` only logs: nothing is undone, so it is right exactly if the changes of the transaction changed
        nothing. */
    method RollbackTx(tx: TxId)
      requires Valid() && wal.lsn + 1 < TWO_64 && tx < TWO_64 && open == Some(tx)
      modifies wal, `synced, `durable, `open
      ensures open == None && LogValid() && Committed(wal.records) == old(Committed(wal.records))
      ensures wal.records == old(wal.records) + [LogRecord(old(wal.lsn) + 1, tx, Rollback)]
      ensures if syncOnWrite then AllSynced() else synced == old(synced) && durable == old(durable)
      ensures Valid() <==> AlreadyShown(Replay(base, Committed(wal.records)), old(Pending(wal.records, open)))
    {
      ghost var logged := Log(tx, Rollback, syncOnWrite);
      RollbackLogged(index, base, old(wal.records), logged);
      open := None;
    }

    /** `close`: everything is flushed and the log emptied. The changes of a transaction that is still open stay, so the
        data is what was committed exactly if they changed nothing. The LSN of the log restarts below the checkpoint
        that was stored, so that the next log is not one all of which is recovered, unless nothing was ever logged. */
    method Close()
      requires Valid()
      modifies this, wal
      ensures index == image == base == old(index) && open == None
      ensures var committed := Replay(old(base), old(Committed(wal.records)));
              image == committed <==> AlreadyShown(committed, old(Pending(wal.records, open)))
      ensures wal.Valid() && wal.records == [] && wal.lsn == 0 && checkpoint == old(wal.lsn) && AllSynced()
      ensures Valid() <==> old(wal.lsn) == 0
    {
      ReplaySplit(base, Committed(wal.records), Pending(wal.records, open), 0);
      ReplayIdle(Replay(base, Committed(wal.records)), Pending(wal.records, open));
      image := index;
      var last := wal.lsn;
      checkpoint := last;
      wal.Checkpoint();
      synced, base, open, flushed, durable := 0, index, None, 0, 0;
      EmptyLog(index, checkpoint);
    }

    /** `open`, once the log has been replayed and the result `index` flushed: the log goes on where it ended. */
    constructor Resumed(wal: WriteAheadLog, syncOnWrite: bool, checkpoint: nat, index: Contents, ghost base: Contents)
      requires AllLoggable(wal.records) && AllAbove(wal.records, checkpoint) && |wal.records| == |wal.frames|
      requires index == Replay(base, Committed(wal.records))
      ensures this.wal == wal && this.base == base && this.index == image == index && open == None
      ensures this.checkpoint == checkpoint && this.syncOnWrite == syncOnWrite && AllSynced()
      ensures flushed == |wal.records|
      ensures Valid() <==> wal.Valid() && checkpoint <= wal.lsn
    {
      this.wal, this.syncOnWrite, this.checkpoint := wal, syncOnWrite, checkpoint;
      this.index, image, synced := index, index, |wal.file|;
      this.base, open, flushed, durable := base, None, |wal.records|, |wal.records|;
      new;
      assert Committed(wal.records) + [] == Committed(wal.records);
    }
  }
}
