/** The database on the B+ tree: every change goes to the log and to the tree, and opening replays the log into the
    tree. */
module Engine {
  import opened Common
  import opened Bytes
  import opened Nodes
  import opened TreeSplit
  import opened BPlusTree
  import opened TreeRuns
  import opened Wal
  import opened WalFile
  import Db = Database
  import Sql = Session

  /** The tree stands for what the database has as its index. */
  ghost predicate Backed(db: Db.Database, tree: BTree)
    reads db, db.wal, tree
  {
    db.Valid() && Represents(tree, db.index)
  }

  predicate FitsLog(e: Entry) {
    |e.key| + (if e.Put? then |e.val| else 0) + 8 < TWO_32
  }

  /** One more change is logged: under the open transaction, or committed at once. */
  ghost predicate Recorded(recs: seq<LogRecord>, recs': seq<LogRecord>, open: Option<TxId>, es: seq<Entry>) {
    && (open.Some? ==>
          Db.Committed(recs') == Db.Committed(recs) && Db.Pending(recs', open) == Db.Pending(recs, open) + es)
    && (open.None? ==> Db.Committed(recs') == Db.Committed(recs) + es)
  }

  /** `put_with_tx` and `delete_with_tx`: the change is logged and made in the tree, unless it is a delete that would free
      a leaf or a value that would not be read back. Small records are never refused, and leave small pages. */
  method Perform(db: Db.Database, tree: BTree, tx: TxId, e: Entry) returns (outcome: Outcome)
    requires Backed(db, tree) && FitsLog(e) && db.wal.lsn + 1 < TWO_64 && tx < TWO_64
    requires tx == if db.open.Some? then db.open.value else 0
    modifies db.wal, db`synced, db`durable, db`index, tree
    ensures outcome.Done? ==>
              && Db.Accepted(e) && Backed(db, tree) && db.index == Db.Apply(old(db.index), e)
              && tree.shape[tree.root].height <= old(tree.shape[tree.root].height) + 1
    ensures outcome.Done? || outcome.Refused? || outcome.Full? ==>
              && db.LogValid() && db.wal.lsn == old(db.wal.lsn) + 1
              && db.wal.records == old(db.wal.records) + [LogRecord(old(db.wal.lsn) + 1, tx, Change(e))]
              && Recorded(old(db.wal.records), db.wal.records, db.open, [e])
              && (if db.syncOnWrite then db.AllSynced() else db.synced == old(db.synced))
    ensures outcome.WouldFree? || outcome.Unreadable? ==> unchanged(db) && unchanged(db.wal) && unchanged(tree)
    ensures outcome.WouldFree? ==> e.Delete? && FreesLeaf(tree, e.key)
    ensures outcome.Unreadable? ==> e.Put? && !Readable(e.val)
    ensures !Db.Accepted(e) ==> outcome.Refused? || outcome.Unreadable?
    ensures outcome.Refused? ==> e.Put?
    ensures outcome.Refused? && !Db.Accepted(e) ==> Backed(db, tree) && db.index == old(db.index)
    ensures outcome.Full? ==> tree.alloc.numPages == U32_MAX
    ensures tree.alloc.numPages <= old(tree.alloc.numPages) + MostPages(e, old(tree.shape[tree.root].height))
    ensures old(AllSmall(tree.nodes)) && SmallEntry(e) ==>
              && (outcome.Done? || outcome.Full? || outcome.WouldFree?)
              && (outcome.Done? ==> AllSmall(tree.nodes))
  {
    ghost var recs, logged := db.wal.records, LogRecord(db.wal.lsn + 1, tx, Change(e));
    outcome := TreeRuns.Perform(tree, e, db.index);
    if outcome.WouldFree? || outcome.Unreadable? {
      return;
    }
    assert db.wal.records == recs && LogRecord(db.wal.lsn + 1, tx, Change(e)) == logged;
    LogChange(db, tx, e, outcome.Done?);
  }

  /** The log's part of it. `carried` says whether the tree has made the change. */
  method LogChange(db: Db.Database, tx: TxId, e: Entry, carried: bool)
    requires db.Valid() && FitsLog(e) && db.wal.lsn + 1 < TWO_64 && tx < TWO_64
    requires tx == if db.open.Some? then db.open.value else 0
    modifies db.wal, db`synced, db`durable, db`index
    ensures db.LogValid() && db.wal.lsn == old(db.wal.lsn) + 1
    ensures db.wal.records == old(db.wal.records) + [LogRecord(old(db.wal.lsn) + 1, tx, Change(e))]
    ensures Recorded(old(db.wal.records), db.wal.records, db.open, [e])
    ensures if db.syncOnWrite then db.AllSynced() else db.synced == old(db.synced)
    ensures carried || !Db.Accepted(e) ==> db.Valid() && db.index == Db.Apply(old(db.index), e)
  {
    ghost var recs, logged := db.wal.records, LogRecord(db.wal.lsn + 1, tx, Change(e));
    RecordedOne(recs, logged, db.open);
    match e {
      case Put(k, v) =>
        var r := db.PutWithTx(tx, k, v, carried);
      case Delete(k) =>
        db.DeleteWithTx(tx, k, carried);
    }
    assert db.wal.records == recs + [logged] && logged.op.entry == e;
  }

  lemma RecordedOne(recs: seq<LogRecord>, r: LogRecord, open: Option<TxId>)
    requires r.op.Change? && r.tx == (if open.Some? then open.value else 0) && (open.Some? ==> r.tx > 0)
    ensures Recorded(recs, recs + [r], open, [r.op.entry])
  {
    Db.Logged(recs, r);
    assert Db.Committed(recs) + [] == Db.Committed(recs);
  }

  /** What a run of changes has logged. */
  lemma RecordedNext(recs: seq<LogRecord>, recs': seq<LogRecord>, recs'': seq<LogRecord>, open: Option<TxId>,
                     es: seq<Entry>, i: nat)
    requires i < |es| && Recorded(recs, recs', open, es[..i]) && Recorded(recs', recs'', open, [es[i]])
    ensures Recorded(recs, recs'', open, es[..i + 1])
  {
    assert es[..i + 1] == es[..i] + [es[i]];
  }

  /** A run of changes that began with these contents, pages, height and records has come so far. */
  ghost predicate Going(db: Db.Database, tree: BTree, es: seq<Entry>, done: nat, m: map<bytes, bytes>, pages: nat,
                        height: nat, lsn: nat, recs: seq<LogRecord>, small: bool)
    reads db, db.wal, tree
  {
    && Backed(db, tree) && (small ==> AllSmall(tree.nodes))
    && Performed(m, es, done, pages, height, db.index, tree.alloc.numPages, tree.shape[tree.root].height)
    && db.wal.lsn == lsn + done && Recorded(recs, db.wal.records, db.open, es[..done])
  }

  /** One more change of a run. */
  method NextChange(db: Db.Database, tree: BTree, tx: TxId, es: seq<Entry>, done: nat, ghost m: map<bytes, bytes>,
                    ghost pages: nat, ghost height: nat, ghost lsn: nat, ghost recs: seq<LogRecord>, ghost small: bool)
    returns (outcome: Outcome)
    requires Going(db, tree, es, done, m, pages, height, lsn, recs, small)
    requires done < |es| && FitsLog(es[done]) && (small ==> SmallEntry(es[done]))
    requires db.wal.lsn + 1 < TWO_64 && tx < TWO_64 && tx == if db.open.Some? then db.open.value else 0
    modifies db.wal, db`synced, db`durable, db`index, tree
    ensures outcome.Done? ==> Going(db, tree, es, done + 1, m, pages, height, lsn, recs, small)
    ensures outcome.WouldFree? || outcome.Unreadable? ==> unchanged(db) && unchanged(db.wal) && unchanged(tree)
    ensures outcome.WouldFree? ==> es[done].Delete? && FreesLeaf(tree, es[done].key)
    ensures outcome.Unreadable? ==> es[done].Put? && !Readable(es[done].val)
    ensures outcome.Refused? ==> es[done].Put? && (db.open.Some? ==> Db.Committed(db.wal.records) == Db.Committed(recs))
    ensures outcome.Refused? && !Db.Accepted(es[done]) ==> Backed(db, tree) && db.index == old(db.index)
    ensures outcome.Full? ==> pages + RunPages(es, 0, height) >= U32_MAX
    ensures small ==> !outcome.Refused? && !outcome.Unreadable?
  {
    ghost var m', pages', height', recs' := db.index, tree.alloc.numPages, tree.shape[tree.root].height, db.wal.records;
    outcome := Perform(db, tree, tx, es[done]);
    PerformedNext(m, es, done, pages, height, m', pages', height',
                  db.index, tree.alloc.numPages, if outcome.Done? then tree.shape[tree.root].height else 0);
    if outcome.Done? {
      RecordedNext(recs, recs', db.wal.records, db.open, es, done);
    }
  }

  /** Any run of changes, under one transaction or under none, goes on until the index refuses an insert, the file is
      full, a value would not be read back or a delete would free a leaf; up to there log and tree agree and stand for
      what the changes give. Small records are never refused, and the file is only full if the changes may need that many
      pages. */
  method RunChanges(db: Db.Database, tree: BTree, tx: TxId, es: seq<Entry>) returns (done: nat, outcome: Outcome)
    requires Backed(db, tree) && db.wal.lsn + |es| < TWO_64 && tx < TWO_64
    requires tx == if db.open.Some? then db.open.value else 0
    requires forall i {:trigger es[i]} :: 0 <= i < |es| ==> FitsLog(es[i])
    modifies db.wal, db`synced, db`durable, db`index, tree
    ensures done <= |es| && (outcome.Done? <==> done == |es|) && Db.AllAccepted(es[..done])
    ensures outcome.Done? || outcome.WouldFree? || outcome.Unreadable? || (outcome.Refused? && !Db.Accepted(es[done])) ==>
              Backed(db, tree) && db.index == Db.Replay(old(db.index), es[..done])
    ensures outcome.Done? || outcome.WouldFree? || outcome.Unreadable? ==>
              db.wal.lsn == old(db.wal.lsn) + done && Recorded(old(db.wal.records), db.wal.records, db.open, es[..done])
    ensures outcome.WouldFree? ==> es[done].Delete? && FreesLeaf(tree, es[done].key)
    ensures outcome.Unreadable? ==> es[done].Put? && !Readable(es[done].val)
    ensures outcome.Refused? ==>
              es[done].Put? && (db.open.Some? ==> Db.Committed(db.wal.records) == old(Db.Committed(db.wal.records)))
    ensures outcome.Full? ==>
              old(tree.alloc.numPages) + RunPages(es, 0, old(tree.shape[tree.root].height)) >= U32_MAX
    ensures old(AllSmall(tree.nodes)) && SmallEntries(es) ==>
              && !outcome.Refused? && !outcome.Unreadable?
              && (!outcome.Full? ==> AllSmall(tree.nodes))
  {
    done := 0;
    ghost var small := AllSmall(tree.nodes) && SmallEntries(es);
    ghost var m, pages, height := db.index, tree.alloc.numPages, tree.shape[tree.root].height;
    ghost var lsn, recs := db.wal.lsn, db.wal.records;
    NothingRecorded(recs, db.open, es);
    while done < |es|
      invariant Going(db, tree, es, done, m, pages, height, lsn, recs, small)
    {
      assert small ==> SmallEntry(es[done]);
      outcome := NextChange(db, tree, tx, es, done, m, pages, height, lsn, recs, small);
      if !outcome.Done? { return; }
      done := done + 1;
    }
    outcome := Done;
  }

  lemma NothingRecorded(recs: seq<LogRecord>, open: Option<TxId>, es: seq<Entry>)
    ensures Recorded(recs, recs, open, es[..0])
  {
    assert Db.Committed(recs) + [] == Db.Committed(recs) && Db.Pending(recs, open) + [] == Db.Pending(recs, open);
  }

  // ---- COMMIT ----

  /** All buffered changes are small. */
  ghost predicate SmallBuffer(buffer: Sql.Buffer) {
    forall k {:trigger buffer[k]} :: k in buffer ==> SmallEntry(Sql.EntryOf(k, buffer[k]))
  }

  /** Why a COMMIT stops at the change of key `at`. */
  ghost predicate StopsAt(outcome: Outcome, tree: BTree, buffer: Sql.Buffer, at: bytes)
    reads tree
  {
    && at in buffer
    && (outcome.WouldFree? ==> buffer[at].None? && FreesLeaf(tree, at))
    && (outcome.Unreadable? ==> buffer[at].Some? && !Readable(buffer[at].value))
    && (outcome.Refused? ==> buffer[at].Some?)
  }

  /** The tree is in order when a COMMIT stops, unless it found no room. */
  ghost predicate InOrder(outcome: Outcome, at: bytes) {
    outcome.WouldFree? || outcome.Unreadable? || (outcome.Refused? && |at| > MAX_KEY_SIZE)
  }

  /** COMMIT on log and tree: the buffered changes are logged and made in key order, then the transaction is committed.
      If it gets to the end, what was visible is in the database, in the tree and durable. Otherwise the transaction goes
      on; unless the tree found no room, exactly the changes before `at` have been made. A small buffer in a tree of small
      records is never refused. */
  method Commit(s: Sql.Session, tree: BTree) returns (outcome: Outcome, ghost at: bytes)
    requires s.Usable() && s.inTransaction && Represents(tree, s.db.index)
    requires s.db.wal.lsn + |s.buffer| + 1 < TWO_64
    modifies s, s.db, s.db.wal, tree
    ensures outcome.Done? ==>
              && s.Valid() && !s.inTransaction && tree.Valid()
              && tree.view == s.db.index == s.db.image == old(s.Visible()) && s.db.synced == |s.db.wal.file|
    ensures !outcome.Done? ==>
              s.inTransaction && s.buffer == old(s.buffer) && s.start == old(s.start) && StopsAt(outcome, tree, s.buffer, at)
    ensures InOrder(outcome, at) ==>
              && s.Usable() && s.Visible() == old(s.Visible()) && Represents(tree, s.db.index)
              && s.db.index == Sql.Overlaid(old(s.db.index), Sql.Part(s.buffer, Sql.Before(s.buffer.Keys, at)))
    ensures old(AllSmall(tree.nodes)) && SmallBuffer(old(s.buffer)) ==>
              outcome.Done? || outcome.Full? || outcome.WouldFree?
  {
    outcome, at := CommitChanges(s.db, tree, s.tx, s.buffer);
    if outcome.Done? {
      FinishCommit(s, tree);
    } else {
      Sql.PartHidden(old(s.db.index), s.buffer, Sql.Before(s.buffer.Keys, at));
    }
  }

  /** The end of it. */
  method FinishCommit(s: Sql.Session, tree: BTree)
    requires Backed(s.db, tree) && s.db.open == Some(s.tx) && s.tx < TWO_64 && s.db.wal.lsn + 1 < TWO_64
    modifies s, s.db, s.db.wal
    ensures s.Valid() && !s.inTransaction && tree.Valid()
    ensures tree.view == s.db.index == s.db.image == old(s.db.index) && s.db.synced == |s.db.wal.file|
  {
    s.Finish();
  }

  /** The changes of a COMMIT. */
  method CommitChanges(db: Db.Database, tree: BTree, tx: TxId, buffer: Sql.Buffer)
    returns (outcome: Outcome, ghost at: bytes)
    requires Backed(db, tree) && Sql.BufferFits(buffer)
    requires db.open == Some(tx) && tx < TWO_64 && db.wal.lsn + |buffer| + 1 < TWO_64
    modifies db.wal, db`synced, db`durable, db`index, tree
    ensures outcome.Done? ==>
              && Backed(db, tree) && db.wal.lsn + 1 < TWO_64 && db.index == Sql.Overlaid(old(db.index), buffer)
    ensures !outcome.Done? ==> StopsAt(outcome, tree, buffer, at)
    ensures InOrder(outcome, at) ==>
              && Backed(db, tree) && Db.Committed(db.wal.records) == old(Db.Committed(db.wal.records))
              && db.index == Sql.Overlaid(old(db.index), Sql.Part(buffer, Sql.Before(buffer.Keys, at)))
    ensures old(AllSmall(tree.nodes)) && SmallBuffer(buffer) ==> !outcome.Refused? && !outcome.Unreadable?
  {
    var keys := Sql.InKeyOrder(buffer);
    var es := Sql.EntriesOf(buffer, keys);
    BufferEntries(buffer, keys);
    ghost var index := db.index;
    var done;
    done, outcome := RunChanges(db, tree, tx, es);
    Sql.ReplayBuffer(index, buffer, keys, done);
    Sql.FirstKeys(buffer, keys, done);
    at := if done < |keys| then keys[done] else [];
  }

  lemma BufferEntries(buffer: Sql.Buffer, keys: seq<bytes>)
    requires Sql.BufferFits(buffer) && Sql.ListsKeys(buffer, keys)
    ensures forall i {:trigger Sql.EntriesOf(buffer, keys)[i]} :: 0 <= i < |keys| ==> FitsLog(Sql.EntriesOf(buffer, keys)[i])
    ensures SmallBuffer(buffer) ==> SmallEntries(Sql.EntriesOf(buffer, keys))
  {
    forall i | 0 <= i < |keys| ensures FitsLog(Sql.EntriesOf(buffer, keys)[i]) {
      assert keys[i] in buffer && Sql.EntryFits(keys[i], buffer[keys[i]]);
    }
    if SmallBuffer(buffer) {
      forall i | 0 <= i < |keys| ensures SmallEntry(Sql.EntriesOf(buffer, keys)[i]) {
        assert keys[i] in buffer && SmallEntry(Sql.EntryOf(keys[i], buffer[keys[i]]));
      }
    }
  }

  // ---- Crashes ----

  /** A crash that leaves the first `cut` bytes of the log and the tree of the last flush, and the next start: the log is
      recovered and replayed into the tree. If the replay gets to its end, the tree stands for the starting contents with
      exactly the committed operations of the surviving part of the log, which include everything that was synced. It
      gets there if all records are small, the file has room and no delete frees a leaf. */
  method Restart(db: Db.Database, tree: BTree, cut: nat)
    returns (outcome: Outcome, done: nat, wal: WriteAheadLog, ghost survived: nat)
    requires db.LogValid() && db.synced <= cut <= |db.wal.file| && Represents(tree, db.image)
    modifies tree
    ensures db.durable <= survived <= |db.wal.records|
    ensures CommittedOps(db.wal.records, db.durable) <= CommittedOps(db.wal.records, survived)
    ensures var found := CommittedOps(db.wal.records, survived);
            && done <= |found| && Db.AllAccepted(found[..done]) && (outcome.Done? <==> done == |found|)
            && (outcome.Done? ==> Represents(tree, Db.Replay(db.base, found)))
            && (outcome.Refused? || outcome.Unreadable? ==> found[done].Put?)
            && (outcome.WouldFree? ==> found[done].Delete? && FreesLeaf(tree, found[done].key))
            && (outcome.Full? ==>
                old(tree.alloc.numPages) + RunPages(found, 0, old(tree.shape[tree.root].height)) >= U32_MAX)
            && (old(AllSmall(tree.nodes)) && SmallEntries(found) ==> !outcome.Refused? && !outcome.Unreadable?)
    ensures outcome.Done? && cut == |db.wal.file| && db.Valid() && db.open == None ==> tree.view == db.index
    ensures Reopened(db, wal, cut, survived)
  {
    var entries;
    wal, entries, survived := RecoverLog(db, cut);
    done, outcome := Run(tree, entries, db.image);
    assert entries[..|entries|] == entries;
  }

  /** The log's part of it: what is recovered gives, on top of the last flush, what was committed. */
  method RecoverLog(db: Db.Database, cut: nat) returns (wal: WriteAheadLog, entries: seq<Entry>, ghost survived: nat)
    requires db.LogValid() && db.synced <= cut <= |db.wal.file|
    ensures db.durable <= survived <= |db.wal.records| && entries == CommittedOps(db.wal.records, survived)
    ensures CommittedOps(db.wal.records, db.durable) <= entries
    ensures Db.Replay(db.image, entries) == Db.Replay(db.base, entries)
    ensures cut == |db.wal.file| && db.Valid() && db.open == None ==> Db.Replay(db.base, entries) == db.index
    ensures fresh(wal) && Reopened(db, wal, cut, survived)
  {
    FramesAre(db.wal.frames, db.wal.records, db.wal.crc);
    survived := WholeFrames(db.wal.records, cut, db.wal.crc);
    Db.CrashRecovery(db.base, db.wal.records, db.flushed, db.durable, cut, db.checkpoint, db.wal.crc);
    TruncatedLog(db.wal.records, cut, db.checkpoint, db.wal.crc);
    WholeWithin(db.wal.frames, 0, cut);
    JoinedBegins(db.wal.frames, survived);
    if db.Valid() && db.open == None {
      Db.NothingLost(db.index, db.base, db.wal.records, db.wal.crc);
    }
    wal := new WriteAheadLog.Opened(db.wal.crc, db.wal.file[..cut], db.wal.records[..survived], db.wal.frames[..survived]);
    entries := wal.Recover(db.checkpoint);
  }

  /** A put outside any transaction, once the log has been synced behind it, is there after a crash at any time and a
      restart that gets to its end, unless a later operation on the key was committed too. */
  method PutSurvives(db: Db.Database, tree: BTree, cut: nat, ghost i: nat, ghost k: bytes, ghost v: bytes)
    returns (outcome: Outcome, ghost survived: nat)
    requires db.LogValid() && db.synced <= cut <= |db.wal.file| && Represents(tree, db.image)
    requires i < db.durable && db.wal.records[i].tx == 0 && db.wal.records[i].op == Change(Put(k, v))
    requires |k| <= MAX_KEY_SIZE
    modifies tree
    ensures db.durable <= survived <= |db.wal.records|
    ensures outcome.Done? ==>
              var at, found := |CommittedOps(db.wal.records, i)|, CommittedOps(db.wal.records, survived);
              && tree.Valid() && at < |found| && found[at] == Put(k, v) && tree.view == Db.Replay(db.base, found)
              && ((forall j :: at < j < |found| ==> found[j].key != k) ==> k in tree.view && tree.view[k] == v)
  {
    var done, wal;
    outcome, done, wal, survived := Restart(db, tree, cut);
    Db.PutTakesEffect(db.base, db.wal.records, i, survived, k, v);
  }

  /** With `sync_on_write` a put outside any transaction that was carried out, and everything before, is there after any
      crash and a restart that gets to its end. `flushed` is the tree of the last flush. */
  method PutThenCrash(db: Db.Database, tree: BTree, flushed: BTree, key: bytes, value: bytes, cut: nat)
    returns (put: Outcome, restart: Option<Outcome>)
    requires Backed(db, tree) && db.syncOnWrite && db.open == None && FitsLog(Put(key, value)) && db.wal.lsn + 1 < TWO_64
    requires Represents(flushed, db.image) && flushed != tree
    modifies db.wal, db`synced, db`durable, db`index, tree, flushed
    ensures put.Done? ==> db.AllSynced() && db.index == old(db.index)[key := value]
    ensures put.Done? && db.synced <= cut <= |db.wal.file| ==> restart.Some?
    ensures put.Done? && restart == Some(Done) ==> flushed.Valid() && flushed.view == old(db.index)[key := value]
  {
    restart := None;
    put := Perform(db, tree, 0, Put(key, value));
    if put.Done? && db.synced <= cut <= |db.wal.file| {
      var outcome, done, wal;
      ghost var survived;
      outcome, done, wal, survived := Restart(db, flushed, cut);
      restart := Some(outcome);
    }
  }

  /** The log after a restart: what is left of the file, and the highest LSN found in it. */
  ghost predicate Reopened(db: Db.Database, wal: WriteAheadLog, cut: nat, survived: nat)
    reads db, db.wal, wal
  {
    && cut <= |db.wal.file| && survived <= |db.wal.records| == |db.wal.frames|
    && wal.crc == db.wal.crc && wal.file == db.wal.file[..cut]
    && wal.records == db.wal.records[..survived] && wal.frames == db.wal.frames[..survived]
    && JoinedTo(db.wal.frames, survived) <= wal.file
    && wal.lsn == RunTo(db.wal.records, survived, db.checkpoint).maxLsn
  }

  /** The cut leaves no part of a frame. */
  ghost predicate CleanCut(frames: seq<bytes>, survived: nat, cut: nat)
    requires survived <= |frames|
  {
    cut == |JoinedTo(frames, survived)|
  }

  /** The database that goes on after a restart is in order, so that all of this holds for the next crash too, exactly if
      the crash left no torn frame, and any record at all unless there was no checkpoint. Whatever it logs behind a torn
      frame is lost as long as nothing can be read there. */
  method Resume(db: Db.Database, wal: WriteAheadLog, cut: nat, ghost survived: nat, index: Db.Contents)
    returns (next: Db.Database)
    requires db.LogValid() && Reopened(db, wal, cut, survived)
    requires index == Db.Replay(db.base, CommittedOps(db.wal.records, survived))
    ensures fresh(next) && next.wal == wal && next.base == db.base && next.open == None
    ensures next.index == next.image == index && next.wal.records == db.wal.records[..survived]
    ensures next.Valid() <==> CleanCut(db.wal.frames, survived, cut) && (survived > 0 || db.checkpoint == 0)
    ensures forall more {:trigger wal.file + more} ::
              FrameAt(wal.file + more, |JoinedTo(db.wal.frames, survived)|, wal.crc).None? ==>
                Recovered(wal.file + more, db.checkpoint, wal.crc) == RunTo(db.wal.records, survived, db.checkpoint)
  {
    ghost var recs := db.wal.records;
    LogTake(db.wal.frames, recs, survived, db.wal.crc);
    CommittedTake(recs, survived, survived);
    RecoversLsn(recs, survived, db.checkpoint);
    forall i | 0 <= i < survived ensures Loggable(recs[..survived][i]) {
      assert Loggable(recs[i]);
    }
    next := new Db.Database.Resumed(wal, db.syncOnWrite, db.checkpoint, index, db.base);
    assert survived > 0 ==> recs[survived - 1].lsn > db.checkpoint;
    FramesAre(db.wal.frames, recs, db.wal.crc);
    forall more | FrameAt(wal.file + more, |JoinedTo(db.wal.frames, survived)|, wal.crc).None?
      ensures Recovered(wal.file + more, db.checkpoint, wal.crc) == RunTo(recs, survived, db.checkpoint)
    {
      StillBegins(JoinedTo(db.wal.frames, survived), wal.file, more);
      LostBehind(recs, survived, wal.file + more, db.checkpoint, wal.crc);
    }
  }

  lemma StillBegins(a: bytes, file: bytes, more: bytes)
    requires a <= file
    ensures a <= file + more
  {
    assert (file + more)[..|a|] == file[..|a|];
  }

  /** A new database with one frame in its log, not synced. */
  method OneFrame(crc: Checksum) returns (db: Db.Database)
    ensures fresh(db) && fresh(db.wal) && db.LogValid() && db.synced == 0 && db.image == db.base == map[]
    ensures |db.wal.frames| == |db.wal.records| == 1 && db.wal.records[0].op.Begin?
    ensures |db.wal.file| == |JoinedTo(db.wal.frames, 1)| > 1 && db.wal.crc == crc
  {
    db := new Db.Database(crc, false);
    db.BeginTx(7);
    assert IsFrame(db.wal.frames[0], db.wal.records[0], db.wal.crc);
    assert JoinedTo(db.wal.frames, 1) == [] + db.wal.frames[0];
  }

  /** So it can lose a change that was logged whole: a crash leaves one byte of the first frame, the next change is logged
      behind it, and the start after that does not find it, although the file is as it was written. */
  method TornTail(crc: Checksum) returns (wal: WriteAheadLog, entries: seq<Entry>)
    ensures |wal.file| > 1 && wal.file[1..] == Frame(LogRecord(1, 0, Change(Put([1], [1]))), crc)
    ensures entries == []
  {
    var db := OneFrame(crc);
    var found;
    ghost var survived;
    wal, found, survived := RecoverLog(db, 1);
    wal.WriteRecord(0, Change(Put([1], [1])));
    ghost var frame := Frame(LogRecord(1, 0, Change(Put([1], [1]))), crc);
    assert wal.file == [wal.file[0]] + frame;
    TornByteHides(wal.file[0], db.checkpoint, crc);
    entries := wal.Recover(db.checkpoint);
  }
}
