/** The transaction of an SQL session: its changes are kept in a write buffer until COMMIT. There is no other writer. */
module Session {
  import opened Common
  import opened Bytes
  import opened Nodes
  import opened Wal
  import opened WalFile
  import Db = Database

  /** A buffered value, or none for a deleted key. */
  type Buffer = map<bytes, Option<bytes>>

  function EntryOf(k: bytes, v: Option<bytes>): Entry {
    match v
    case Some(x) => Put(k, x)
    case None => Delete(k)
  }

  /** What the transaction sees: its own changes over the database. */
  function Overlaid(index: Db.Contents, buffer: Buffer): Db.Contents {
    map k | k in index.Keys + buffer.Keys && (k in buffer ==> buffer[k].Some?) ::
      if k in buffer then buffer[k].value else index[k]
  }

  function WithPrefix(m: Db.Contents, prefix: bytes): Db.Contents {
    map k | k in m && prefix <= k :: m[k]
  }

  /** Key and value fit a log record. */
  predicate EntryFits(k: bytes, v: Option<bytes>) {
    |k| + (if v.Some? then |v.value| else 0) + 8 < TWO_32
  }

  ghost predicate BufferFits(buffer: Buffer) {
    forall k {:trigger buffer[k]} :: k in buffer ==> EntryFits(k, buffer[k])
  }

  /** One more buffered change. */
  lemma Buffered(index: Db.Contents, buffer: Buffer, k: bytes, v: Option<bytes>)
    requires BufferFits(buffer) && EntryFits(k, v)
    ensures BufferFits(buffer[k := v])
    ensures Overlaid(index, buffer[k := v]) ==
            if v.Some? then Overlaid(index, buffer)[k := v.value] else Overlaid(index, buffer) - {k}
  {
  }

  /** The buffered changes of some keys. */
  function Part(buffer: Buffer, keys: set<bytes>): Buffer {
    map k | k in buffer && k in keys :: buffer[k]
  }

  /** Making one more buffered change in the database. */
  lemma PartNext(index: Db.Contents, buffer: Buffer, done: set<bytes>, k: bytes)
    requires k in buffer && Db.Accepted(EntryOf(k, buffer[k]))
    ensures Db.Apply(Overlaid(index, Part(buffer, done)), EntryOf(k, buffer[k])) ==
            Overlaid(index, Part(buffer, done + {k}))
  {
    var a, b := Db.Apply(Overlaid(index, Part(buffer, done)), EntryOf(k, buffer[k])), Overlaid(index, Part(buffer, done + {k}));
    forall j ensures Db.AgreeAt(a, b, j) {
    }
    Db.SameMap(a, b);
  }

  /** Changes that have been made in the database do not show. */
  lemma PartHidden(index: Db.Contents, buffer: Buffer, done: set<bytes>)
    ensures Overlaid(Overlaid(index, Part(buffer, done)), buffer) == Overlaid(index, buffer)
  {
    var a, b := Overlaid(Overlaid(index, Part(buffer, done)), buffer), Overlaid(index, buffer);
    forall j ensures Db.AgreeAt(a, b, j) {
    }
    Db.SameMap(a, b);
  }

  lemma NoPart(index: Db.Contents, buffer: Buffer)
    ensures Overlaid(index, map[]) == index && Part(buffer, {}) == map[] && Part(buffer, buffer.Keys) == buffer
  {
    Db.SameMap(Overlaid(index, map[]), index);
  }

  /** The contents are as before some buffered changes exactly if they showed them already. */
  lemma PartIdle(index: Db.Contents, buffer: Buffer)
    ensures Overlaid(index, buffer) == index <==> forall k {:trigger buffer[k]} :: k in buffer ==>
              Db.Shows(index, EntryOf(k, buffer[k]))
  {
    var m := Overlaid(index, buffer);
    if m == index {
      forall k | k in buffer ensures Db.Shows(index, EntryOf(k, buffer[k])) {
        assert k in m <==> buffer[k].Some?;
      }
    }
    if forall k {:trigger buffer[k]} :: k in buffer ==> Db.Shows(index, EntryOf(k, buffer[k])) {
      forall k ensures Db.AgreeAt(m, index, k) {
        assert k in buffer ==> Db.Shows(index, EntryOf(k, buffer[k]));
      }
      Db.SameMap(m, index);
    }
  }

  // ---- Key order ----

  /** The first key of a set. */
  ghost predicate IsLeast(keys: set<bytes>, k: bytes) {
    k in keys && forall j {:trigger Less(k, j)} :: j in keys && j != k ==> Less(k, j)
  }

  lemma {:induction false} LeastExists(keys: set<bytes>) returns (k: bytes)
    requires keys != {}
    ensures IsLeast(keys, k)
  {
    LessIsStrictTotalOrder();
    var j :| j in keys;
    if keys == {j} {
      k := j;
    } else {
      var least := LeastExists(keys - {j});
      k := if Less(j, least) then j else least;
    }
  }

  /** The order of the write buffer. */
  method TakeLeast(keys: set<bytes>) returns (k: bytes)
    requires keys != {}
    ensures IsLeast(keys, k)
  {
    ghost var least := LeastExists(keys);
    k :| k in keys && forall j {:trigger Less(k, j)} :: j in keys && j != k ==> Less(k, j);
  }

  /** The keys of a set before a key. */
  ghost function Before(keys: set<bytes>, k: bytes): set<bytes> {
    set j | j in keys && Less(j, k)
  }

  /** The keys of a buffer, in order. */
  ghost predicate ListsKeys(buffer: Buffer, keys: seq<bytes>) {
    && |keys| == |buffer| && (forall k :: k in keys <==> k in buffer)
    && forall i, j :: 0 <= i < j < |keys| ==> Less(keys[i], keys[j])
  }

  /** The iteration over the write buffer. */
  method InKeyOrder(buffer: Buffer) returns (keys: seq<bytes>)
    ensures ListsKeys(buffer, keys) && Increasing(keys)
  {
    keys := [];
    var todo := buffer.Keys;
    while todo != {}
      invariant todo <= buffer.Keys && |keys| + |todo| == |buffer|
      invariant forall k {:trigger k in keys} :: k in keys <==> k in buffer && k !in todo
      invariant forall j, k {:trigger Less(j, k)} :: j in keys && k in todo ==> Less(j, k)
      invariant forall i, j :: 0 <= i < j < |keys| ==> Less(keys[i], keys[j])
    {
      var k := TakeLeast(todo);
      keys, todo := keys + [k], todo - {k};
    }
    SortedIncreasing(keys);
  }

  function EntriesOf(buffer: Buffer, keys: seq<bytes>): (es: seq<Entry>)
    requires forall k :: k in keys ==> k in buffer
    ensures |es| == |keys| && forall i :: 0 <= i < |keys| ==> es[i] == EntryOf(keys[i], buffer[keys[i]])
  {
    seq(|keys|, i requires 0 <= i < |keys| => EntryOf(keys[i], buffer[keys[i]]))
  }

  /** Making the first `n` changes of a buffer. */
  lemma {:induction false} ReplayBuffer(index: Db.Contents, buffer: Buffer, keys: seq<bytes>, n: nat)
    requires ListsKeys(buffer, keys) && n <= |keys| && Db.AllAccepted(EntriesOf(buffer, keys)[..n])
    ensures Db.Replay(index, EntriesOf(buffer, keys)[..n]) == Overlaid(index, Part(buffer, KeysTo(keys, n)))
  {
    if n == 0 {
      NoPart(index, buffer);
      assert KeysTo(keys, 0) == {};
    } else {
      Db.AcceptedBefore(EntriesOf(buffer, keys), n);
      ReplayBuffer(index, buffer, keys, n - 1);
      ReplayBufferNext(index, buffer, keys, EntriesOf(buffer, keys), n - 1);
    }
  }

  lemma ReplayBufferNext(index: Db.Contents, buffer: Buffer, keys: seq<bytes>, es: seq<Entry>, n: nat)
    requires n < |keys| == |es| && keys[n] in buffer && es[n] == EntryOf(keys[n], buffer[keys[n]]) && Db.Accepted(es[n])
    requires Db.Replay(index, es[..n]) == Overlaid(index, Part(buffer, KeysTo(keys, n)))
    ensures Db.Replay(index, es[..n + 1]) == Overlaid(index, Part(buffer, KeysTo(keys, n + 1)))
  {
    Db.ReplayNext(index, es, n);
    PartNext(index, buffer, KeysTo(keys, n), keys[n]);
    assert KeysTo(keys, n + 1) == KeysTo(keys, n) + {keys[n]};
  }

  ghost function KeysTo(keys: seq<bytes>, n: nat): set<bytes>
    requires n <= |keys|
  {
    set i | 0 <= i < n :: keys[i]
  }

  lemma FirstKeys(buffer: Buffer, keys: seq<bytes>, n: nat)
    requires ListsKeys(buffer, keys) && n <= |keys|
    ensures n < |keys| ==> KeysTo(keys, n) == Before(buffer.Keys, keys[n])
    ensures n == |keys| ==> Part(buffer, KeysTo(keys, n)) == buffer
  {
    LessIsStrictTotalOrder();
    if n < |keys| {
      forall k | k in Before(buffer.Keys, keys[n]) ensures k in KeysTo(keys, n) {
        var i :| 0 <= i < |keys| && keys[i] == k;
      }
    } else {
      forall k | k in buffer ensures k in KeysTo(keys, n) {
        var i :| 0 <= i < |keys| && keys[i] == k;
      }
    }
  }

  // ---- Scans ----

  /** `rows` is the database with the buffered changes of the keys in `done`, restricted to a prefix. */
  ghost predicate Merged(rows: Db.Contents, index: Db.Contents, buffer: Buffer, prefix: bytes, done: set<bytes>) {
    && (forall k {:trigger k in rows} :: k in rows <==>
          prefix <= k && if k in buffer && k in done then buffer[k].Some? else k in index)
    && (forall k {:trigger rows[k]} :: k in rows ==>
          rows[k] == if k in buffer && k in done then buffer[k].value else index[k])
  }

  function MergeOne(rows: Db.Contents, k: bytes, v: Option<bytes>, prefix: bytes): Db.Contents {
    if !(prefix <= k) then rows else if v.Some? then rows[k := v.value] else rows - {k}
  }

  lemma MergeStep(rows: Db.Contents, index: Db.Contents, buffer: Buffer, prefix: bytes, done: set<bytes>, k: bytes)
    requires Merged(rows, index, buffer, prefix, done) && k in buffer
    ensures Merged(MergeOne(rows, k, buffer[k], prefix), index, buffer, prefix, done + {k})
  {
  }

  lemma MergeDone(rows: Db.Contents, index: Db.Contents, buffer: Buffer, prefix: bytes)
    requires Merged(rows, index, buffer, prefix, buffer.Keys)
    ensures rows == WithPrefix(Overlaid(index, buffer), prefix)
  {
    var m := WithPrefix(Overlaid(index, buffer), prefix);
    assert forall k :: k in m <==> k in rows;
  }

  // ---- The session ----

  /** The tree carries out the changes of all these keys. */
  ghost predicate AllCarried(buffer: Buffer, carries: bytes -> bool) {
    forall k {:trigger buffer[k]} :: k in buffer ==> carries(k)
  }

  /** The index takes a change: the key is not too long and the tree finds room; a delete always succeeds. */
  predicate Taken(k: bytes, v: Option<bytes>, carries: bytes -> bool) {
    v.Some? ==> |k| <= MAX_KEY_SIZE && carries(k)
  }

  ghost predicate AllTaken(buffer: Buffer, carries: bytes -> bool) {
    forall k {:trigger buffer[k]} :: k in buffer ==> Taken(k, buffer[k], carries)
  }

  ghost predicate Carried(keys: set<bytes>, carries: bytes -> bool) {
    forall k {:trigger k in keys} :: k in keys ==> carries(k)
  }

  /** In the course of a COMMIT: the changes of the keys in `done` were taken; those of the keys in `todo` come next. */
  ghost predicate Applied(buffer: Buffer, done: set<bytes>, todo: set<bytes>, carries: bytes -> bool) {
    && todo <= buffer.Keys && done == buffer.Keys - todo
    && (forall j, k {:trigger Less(j, k)} :: j in done && k in todo ==> Less(j, k))
    && (forall k {:trigger buffer[k]} :: k in done ==> Taken(k, buffer[k], carries))
  }

  lemma AppliedNext(buffer: Buffer, done: set<bytes>, todo: set<bytes>, carries: bytes -> bool, k: bytes)
    requires Applied(buffer, done, todo, carries) && IsLeast(todo, k) && Taken(k, buffer[k], carries)
    ensures Applied(buffer, done + {k}, todo - {k}, carries)
    ensures Carried(done + {k}, carries) <==> Carried(done, carries) && carries(k)
  {
    assert k in done + {k};
    forall j | j in done ensures j in done + {k} {
    }
  }

  lemma AppliedUpTo(buffer: Buffer, done: set<bytes>, todo: set<bytes>, carries: bytes -> bool, k: bytes)
    requires Applied(buffer, done, todo, carries) && IsLeast(todo, k)
    ensures Before(buffer.Keys, k) == done && k in buffer
    ensures AllCarried(buffer, carries) ==> Carried(done, carries) && carries(k)
  {
    LessIsStrictTotalOrder();
    if AllCarried(buffer, carries) {
      forall j | j in done + {k} ensures carries(j) {
        assert carries(j) by { var v := buffer[j]; }
      }
    }
  }

  /** A BEGIN was logged. */
  ghost predicate Marked(recs: seq<LogRecord>, recs': seq<LogRecord>, id: TxId) {
    |recs'| == |recs| + 1 && recs'[..|recs|] == recs && recs'[|recs|].tx == id && recs'[|recs|].op == Wal.Begin
  }

  class Session {
    const db: Db.Database
    var inTransaction: bool
    var tx: TxId
    var buffer: Buffer
    /** The contents when the transaction began. */
    ghost var start: Db.Contents

    /** What holds at all times, also after a COMMIT that failed: during a transaction `start` is what was committed
        before it. */
    ghost predicate Usable()
      reads this, db, db.wal
    {
      && db.Valid() && BufferFits(buffer)
      && (inTransaction ==>
            db.open == Some(tx) && 0 < tx < TWO_64 && start == Db.Replay(db.base, Db.Committed(db.wal.records)))
      && (!inTransaction ==> db.open == None && buffer == map[])
    }

    /** Before a COMMIT nothing was logged for a transaction but its BEGIN, so the database is as it was then. */
    ghost predicate Valid()
      reads this, db, db.wal
    {
      Usable() && (inTransaction ==> Db.Pending(db.wal.records, db.open) == [] && db.index == start)
    }

    /** What a statement of the session sees. */
    ghost function Visible(): Db.Contents
      reads this, db
    {
      Overlaid(db.index, buffer)
    }

    constructor (db: Db.Database)
      requires db.Valid() && db.open == None
      ensures Valid() && !inTransaction && Visible() == db.index && this.db == db
    {
      this.db, inTransaction, tx, buffer, start := db, false, 0, map[], db.index;
      new;
      NoPart(db.index, buffer);
    }

    /** `scan_prefix` merged with the write buffer, as in `scan_table_rows`. */
    method Scan(prefix: bytes) returns (rows: Db.Contents)
      requires Usable()
      ensures rows == WithPrefix(Visible(), prefix)
    {
      rows := WithPrefix(db.index, prefix);
      ghost var done: set<bytes> := {};
      if inTransaction {
        var todo := buffer.Keys;
        while todo != {}
          invariant todo <= buffer.Keys && done == buffer.Keys - todo && Merged(rows, db.index, buffer, prefix, done)
        {
          var k :| k in todo;
          MergeStep(rows, db.index, buffer, prefix, done, k);
          if prefix <= k {
            match buffer[k]
            case Some(v) => rows := rows[k := v];
            case None => rows := rows - {k};
          }
          todo, done := todo - {k}, done + {k};
        }
      }
      assert done == buffer.Keys;
      MergeDone(rows, db.index, buffer, prefix);
    }

    /** BEGIN. */
    method Begin(id: TxId) returns (ok: bool)
      requires Usable() && 0 < id < TWO_64 && db.wal.lsn + 1 < TWO_64
      modifies `inTransaction, `tx, `buffer, `start, db.wal, db`synced, db`durable, db`open
      ensures Usable() && inTransaction && Visible() == old(Visible())
      ensures ok <==> !old(inTransaction)
      ensures ok ==> Valid() && tx == id && start == old(Visible()) && buffer == map[] && db.wal.lsn == old(db.wal.lsn) + 1
      ensures ok ==> Marked(old(db.wal.records), db.wal.records, id)
      ensures !ok ==> unchanged(this) && unchanged(db) && unchanged(db.wal)
    {
      if inTransaction { return false; }
      Start(id);
      return true;
    }

    /** BEGIN outside any transaction. */
    method Start(id: TxId)
      requires Usable() && !inTransaction && 0 < id < TWO_64 && db.wal.lsn + 1 < TWO_64
      modifies `inTransaction, `tx, `buffer, `start, db.wal, db`synced, db`durable, db`open
      ensures Valid() && inTransaction && tx == id && buffer == map[] && start == db.index == Visible() == old(Visible())
      ensures db.wal.lsn == old(db.wal.lsn) + 1
      ensures Marked(old(db.wal.records), db.wal.records, id)
    {
      NoPart(db.index, buffer);
      db.BeginTx(id);
      inTransaction, tx, buffer, start := true, id, map[], db.index;
    }

    /** A row is written or deleted within the transaction. */
    method Change(key: bytes, value: Option<bytes>)
      requires Usable() && inTransaction && EntryFits(key, value)
      modifies `buffer
      ensures Usable() && (old(Valid()) ==> Valid()) && buffer == old(buffer)[key := value]
      ensures Visible() == if value.Some? then old(Visible())[key := value.value] else old(Visible()) - {key}
    {
      Buffered(db.index, buffer, key, value);
      buffer := buffer[key := value];
    }

    /** A buffered change is logged and made. */
    method Apply(k: bytes, ghost index: Db.Contents, ghost done: set<bytes>, carries: bytes -> bool) returns (ok: bool)
      requires db.LogValid() && db.open == Some(tx) && 0 < tx < TWO_64 && db.wal.lsn + 1 < TWO_64
      requires k in buffer && EntryFits(k, buffer[k])
      requires Carried(done, carries) ==> db.Valid() && db.index == Overlaid(index, Part(buffer, done))
      modifies db.wal, db`synced, db`durable, db`index
      ensures db.LogValid() && db.wal.lsn == old(db.wal.lsn) + 1 && (ok <==> Taken(k, buffer[k], carries))
      ensures Db.Committed(db.wal.records) == old(Db.Committed(db.wal.records))
      ensures Carried(done, carries) && carries(k) ==>
                && db.Valid()
                && db.index == if ok then Overlaid(index, Part(buffer, done + {k})) else Overlaid(index, Part(buffer, done))
    {
      if Db.Accepted(EntryOf(k, buffer[k])) { PartNext(index, buffer, done, k); }
      match buffer[k] {
        case Some(v) =>
          var r := db.PutWithTx(tx, k, v, carries(k));
          ok := r.Ok?;
        case None =>
          db.DeleteWithTx(tx, k, carries(k));
          ok := true;
      }
    }

    /** The loop of COMMIT, in key order up to the first change the index refuses. */
    method ApplyAll(carries: bytes -> bool) returns (ok: bool, ghost at: bytes)
      requires Usable() && inTransaction && db.wal.lsn + |buffer| + 1 < TWO_64
      modifies db.wal, db`synced, db`durable, db`index
      ensures db.LogValid() && db.wal.lsn <= old(db.wal.lsn) + |buffer|
      ensures ok <==> AllTaken(buffer, carries)
      ensures Db.Committed(db.wal.records) == old(Db.Committed(db.wal.records))
      ensures ok && AllCarried(buffer, carries) ==> db.Valid() && db.index == old(Visible())
      ensures !ok && AllCarried(buffer, carries) ==>
                && db.Valid() && at in buffer && !Taken(at, buffer[at], carries)
                && (forall k :: k in Before(buffer.Keys, at) ==> Taken(k, buffer[k], carries))
                && db.index == Overlaid(old(db.index), Part(buffer, Before(buffer.Keys, at)))
    {
      var todo := buffer.Keys;
      ghost var done: set<bytes> := {};
      NoPart(db.index, buffer);
      while todo != {}
        invariant Applied(buffer, done, todo, carries)
        invariant db.LogValid() && db.wal.lsn + |todo| <= old(db.wal.lsn) + |buffer|
        invariant Db.Committed(db.wal.records) == old(Db.Committed(db.wal.records))
        invariant Carried(done, carries) ==> db.Valid() && db.index == Overlaid(old(db.index), Part(buffer, done))
      {
        var k := TakeLeast(todo);
        ok := Apply(k, old(db.index), done, carries);
        if !ok {
          at := k;
          AppliedUpTo(buffer, done, todo, carries, k);
          return;
        }
        AppliedNext(buffer, done, todo, carries, k);
        todo, done := todo - {k}, done + {k};
      }
      assert done == buffer.Keys;
      ok, at := true, [];
    }

    /** COMMIT: the buffered changes are logged and made one after the other. It succeeds exactly if the index takes all
        of them. If the tree carries them out, what is visible does not change: after success it is in the database, and
        durable; if a key is refused, the changes before it have been made and the transaction goes on. */
    method Commit(carries: bytes -> bool) returns (ok: bool, ghost at: bytes)
      requires Usable() && inTransaction && db.wal.lsn + |buffer| + 1 < TWO_64
      modifies this, db, db.wal
      ensures ok <==> AllTaken(old(buffer), carries)
      ensures ok && AllCarried(old(buffer), carries) ==>
                && Valid() && !inTransaction && Visible() == old(Visible())
                && db.index == db.image == old(Visible()) && db.synced == |db.wal.file|
      ensures !ok ==> inTransaction && buffer == old(buffer) && start == old(start) && db.image == old(db.image)
      ensures !ok ==> db.wal.lsn <= old(db.wal.lsn) + |buffer|
      ensures !ok && AllCarried(buffer, carries) ==>
                && Usable() && Visible() == old(Visible()) && at in buffer && !Taken(at, buffer[at], carries)
                && (forall k :: k in Before(buffer.Keys, at) ==> Taken(k, buffer[k], carries))
                && db.index == Overlaid(old(db.index), Part(buffer, Before(buffer.Keys, at)))
    {
      ok, at := ApplyAll(carries);
      if ok {
        Finish();
      } else if AllCarried(buffer, carries) {
        PartHidden(old(db.index), buffer, Before(buffer.Keys, at));
      }
    }

    /** The end of a successful COMMIT. */
    method Finish()
      requires db.LogValid() && db.open == Some(tx) && tx < TWO_64 && db.wal.lsn + 1 < TWO_64
      modifies `buffer, `inTransaction, `tx, db, db.wal
      ensures !inTransaction && db.index == db.image == Visible() == old(db.index) && db.synced == |db.wal.file|
      ensures old(db.Valid()) ==> Valid()
    {
      db.CommitTx(tx);
      buffer, inTransaction, tx := map[], false, 0;
      NoPart(db.index, buffer);
    }

    /** ROLLBACK empties the buffer, but undoes nothing in the database. So what was visible before BEGIN is visible
        again before any COMMIT, and after a COMMIT that failed exactly if the changes it made had changed nothing. */
    method Rollback() returns (ok: bool)
      requires Usable() && db.wal.lsn + 1 < TWO_64
      modifies `buffer, `inTransaction, `tx, db.wal, db`synced, db`durable, db`open
      ensures !inTransaction && (ok <==> old(inTransaction))
      ensures Visible() == old(db.index)
      ensures !ok ==> Usable() && Visible() == old(Visible())
      ensures ok ==>
                && (Visible() == start <==> Db.AlreadyShown(start, old(Db.Pending(db.wal.records, db.open))))
                && (Usable() <==> Visible() == start)
      ensures ok && old(Valid()) ==> Valid() && Visible() == start
    {
      ok := inTransaction;
      if ok { Abandon(); } else { NoPart(db.index, buffer); }
    }

    method Abandon()
      requires Usable() && inTransaction && db.wal.lsn + 1 < TWO_64
      modifies `buffer, `inTransaction, `tx, db.wal, db`synced, db`durable, db`open
      ensures !inTransaction && Visible() == old(db.index)
      ensures Visible() == start <==> Db.AlreadyShown(start, old(Db.Pending(db.wal.records, db.open)))
      ensures Usable() <==> Visible() == start
      ensures old(Valid()) ==> Visible() == start
    {
      ghost var pending := Db.Pending(db.wal.records, db.open);
      Db.ReplaySplit(db.base, Db.Committed(db.wal.records), pending, 0);
      Db.ReplayIdle(start, pending);
      Db.NothingPending(start);
      db.RollbackTx(tx);
      buffer, inTransaction, tx := map[], false, 0;
      NoPart(db.index, buffer);
    }
  }

  // ---- A COMMIT that fails ----

  /** After a COMMIT that failed, ROLLBACK leaves the changes before the key that was refused. So it restores what was
      visible before BEGIN exactly if those had changed nothing. */
  method CommitThenRollback(s: Session, carries: bytes -> bool) returns (ok: bool, ghost at: bytes)
    requires s.Valid() && s.inTransaction && s.db.wal.lsn + |s.buffer| + 2 < TWO_64 && AllCarried(s.buffer, carries)
    modifies s, s.db, s.db.wal
    ensures ok <==> AllTaken(old(s.buffer), carries)
    ensures !ok ==> var made := Part(old(s.buffer), Before(old(s.buffer).Keys, at));
              && at in old(s.buffer) && !Taken(at, old(s.buffer)[at], carries)
              && !s.inTransaction && s.start == old(s.start) && s.Visible() == Overlaid(old(s.start), made)
              && (s.Visible() == old(s.start) <==>
                  forall k {:trigger made[k]} :: k in made ==> Db.Shows(old(s.start), EntryOf(k, made[k])))
  {
    ok, at := s.Commit(carries);
    if !ok {
      PartIdle(old(s.start), Part(old(s.buffer), Before(old(s.buffer).Keys, at)));
      var rolledBack := s.Rollback();
    }
  }

  function TooLong(): (k: bytes)
    ensures |k| == MAX_KEY_SIZE + 1 && k[0] == 2
  {
    seq(MAX_KEY_SIZE + 1, _ => 2)
  }

  /** Two changes, the second with a key that is too long. */
  function TwoChanges(): Buffer {
    map[[1] := Some([5]), TooLong() := Some([])]
  }

  lemma FirstOfTwo(at: bytes)
    requires at in TwoChanges() && !Taken(at, TwoChanges()[at], _ => true)
    ensures Overlaid(map[], Part(TwoChanges(), Before(TwoChanges().Keys, at))) == map[[1] := [5]]
  {
    var k := TooLong();
    assert at == k;
    LessIsStrictTotalOrder();
    assert Less([1], k) && !Less(k, k);
    var made := Part(TwoChanges(), Before(TwoChanges().Keys, k));
    assert made.Keys == {[1]};
    Db.SameMap(Overlaid(map[], made), map[[1] := [5]]);
  }

  /** A session on a new database, in a transaction. */
  method FirstTransaction(crc: Checksum) returns (s: Session)
    ensures fresh(s) && fresh(s.db) && fresh(s.db.wal) && s.Valid() && s.inTransaction
    ensures s.start == map[] && s.buffer == map[] && s.db.wal.lsn == 1
  {
    var db := new Db.Database(crc, false);
    s := new Session(db);
    var begun := s.Begin(7);
  }

  /** The two changes made in it. */
  method TwoChangesMade(crc: Checksum) returns (s: Session)
    ensures fresh(s) && fresh(s.db) && fresh(s.db.wal) && s.Valid() && s.inTransaction
    ensures s.start == map[] && s.buffer == TwoChanges() && s.db.wal.lsn == 1
  {
    s := FirstTransaction(crc);
    s.Change([1], Some([5]));
    s.Change(TooLong(), Some([]));
  }

  /** It happens: COMMIT of these changes fails, and after ROLLBACK the first one is there. */
  method RollbackKeepsChange(crc: Checksum) returns (s: Session, ok: bool)
    ensures !ok && s.start == map[] && !s.inTransaction && s.Visible() == map[[1] := [5]]
  {
    s := TwoChangesMade(crc);
    var carries := (k: bytes) => true;
    assert TooLong() in TwoChanges() && !Taken(TooLong(), TwoChanges()[TooLong()], carries);
    assert |TwoChanges()| <= 2;
    ghost var at;
    ok, at := CommitThenRollback(s, carries);
    FirstOfTwo(at);
  }
}
