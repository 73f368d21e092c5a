/** The write-ahead log as a file of checksummed frames. The checksum is any function of the bytes it covers. */
module WalFile {
  import opened Common
  import opened Bytes
  import opened Wal

  type u32 = n: nat | n < TWO_32
  type Checksum = bytes -> u32

  const HEADER: nat := 21

  // ---- Frames ----

  function OpCode(op: LogOp): byte {
    match op
    case Change(Put(_, _)) => 1
    case Change(Delete(_)) => 2
    case Begin => 3
    case Commit => 4
    case Rollback => 5
  }

  function Payload(op: LogOp): bytes {
    match op
    case Change(Put(k, v)) => Field(k) + Field(v)
    case Change(Delete(k)) => Field(k)
    case _ => []
  }

  /** LSN, transaction id, operation and payload length. */
  function Header(lsn: nat, tx: TxId, code: byte, length: nat): (h: bytes)
    ensures |h| == HEADER
  {
    LE(lsn, 8) + (LE(tx, 8) + ([code] + LE(length, 4)))
  }

  function Frame(r: LogRecord, crc: Checksum): (f: bytes)
    ensures |f| == HEADER + |Payload(r.op)| + 4
  {
    var h := Header(r.lsn, r.tx, OpCode(r.op), |Payload(r.op)|);
    h + (Payload(r.op) + LE(crc(h + Payload(r.op)), 4))
  }

  function Encoded(recs: seq<LogRecord>, crc: Checksum): (frames: seq<bytes>)
    ensures |frames| == |recs|
  {
    seq(|recs|, i requires 0 <= i < |recs| => Frame(recs[i], crc))
  }

  /** Byte strings from number `i` on, one after the other. */
  function Joined(frames: seq<bytes>, i: nat): bytes
    requires i <= |frames|
    decreases |frames| - i
  {
    if i == |frames| then [] else frames[i] + Joined(frames, i + 1)
  }

  /** The first `n` byte strings, one after the other. */
  function JoinedTo(frames: seq<bytes>, n: nat): bytes
    requires n <= |frames|
  {
    if n == 0 then [] else JoinedTo(frames, n - 1) + frames[n - 1]
  }

  /** The part of the file that holds the first `n` records. */
  function FramesTo(recs: seq<LogRecord>, n: nat, crc: Checksum): bytes
    requires n <= |recs|
  {
    JoinedTo(Encoded(recs, crc), n)
  }

  /** The file that holds the records. */
  function Frames(recs: seq<LogRecord>, crc: Checksum): bytes {
    FramesTo(recs, |recs|, crc)
  }

  /** The record's numbers and lengths are within the range of their fields. */
  predicate Loggable(r: LogRecord) {
    r.lsn < TWO_64 && r.tx < TWO_64 && |Payload(r.op)| < TWO_32
  }

  // ---- Parsing ----

  datatype RawFrame = RawFrame(lsn: nat, tx: TxId, code: byte, payload: bytes)

  /** The frame at `off` and the offset after it; none if the file ends within it or its checksum is wrong. */
  function FrameAt(file: bytes, off: nat, crc: Checksum): (f: Option<(RawFrame, nat)>)
    requires off <= |file|
    ensures f.Some? ==> off < f.value.1 <= |file|
  {
    if off + HEADER > |file| then None
    else
      var header := file[off..off + HEADER];
      var length := FromLE(header[17..21]);
      var end := off + HEADER + length;
      if end + 4 > |file| then None
      else
        var payload := file[off + HEADER..end];
        if crc(header + payload) != FromLE(file[end..end + 4]) then None
        else Some((RawFrame(FromLE(header[0..8]), FromLE(header[8..16]), header[16], payload), end + 4))
  }

  /** The frames from offset `off` on, up to the first that is incomplete or wrong. */
  function RawFrames(file: bytes, off: nat, crc: Checksum): seq<RawFrame>
    requires off <= |file|
    decreases |file| - off
  {
    match FrameAt(file, off, crc)
    case None => []
    case Some((f, next)) => [f] + RawFrames(file, next, crc)
  }

  /** A length field at `off` and the bytes it announces. */
  function ParseField(payload: bytes, off: nat): Option<bytes> {
    if off + 4 > |payload| then None
    else
      var length := FromLE(payload[off..off + 4]);
      if off + 4 + length > |payload| then None else Some(payload[off + 4..off + 4 + length])
  }

  /** The operation of a frame; none if its payload is malformed or its code unknown. */
  function ParseOp(code: byte, payload: bytes): Option<LogOp> {
    if code == 1 then
      if |payload| < 8 then None
      else
        match ParseField(payload, 0)
        case None => None
        case Some(k) =>
          match ParseField(payload, 4 + |k|)
          case None => None
          case Some(v) => Some(Change(Put(k, v)))
    else if code == 2 then
      match ParseField(payload, 0)
      case None => None
      case Some(k) => Some(Change(Delete(k)))
    else if code == 3 then Some(Begin)
    else if code == 4 then Some(Commit)
    else if code == 5 then Some(Rollback)
    else None
  }

  /** The mark a frame at or below the checkpoint stands for; its payload is not looked at. */
  function SkippedOp(code: byte): Option<LogOp> {
    if code == 3 then Some(Begin) else if code == 4 then Some(Commit) else if code == 5 then Some(Rollback) else None
  }

  /** One round of the recovery loop, and whether the loop goes on. */
  function Round(s: Recovery, f: RawFrame, checkpoint: nat): (Recovery, bool) {
    var seen := s.(maxLsn := Max(s.maxLsn, f.lsn));
    var op := if f.lsn <= checkpoint then SkippedOp(f.code) else ParseOp(f.code, f.payload);
    match op
    case Some(o) => (Step(s, LogRecord(f.lsn, f.tx, o), checkpoint), true)
    case None => (seen, f.lsn <= checkpoint)
  }

  /** The recovery loop over the frames from number `i` on, with `s` in its variables. */
  function Interpreted(s: Recovery, frames: seq<RawFrame>, i: nat, checkpoint: nat): Recovery
    requires i <= |frames|
    decreases |frames| - i
  {
    if i == |frames| then s
    else
      var (next, goes) := Round(s, frames[i], checkpoint);
      if goes then Interpreted(next, frames, i + 1, checkpoint) else next
  }

  function Recovered(file: bytes, checkpoint: nat, crc: Checksum): Recovery {
    Interpreted(EMPTY, RawFrames(file, 0, crc), 0, checkpoint)
  }

  // ---- A written frame is read back ----

  lemma FieldBack(payload: bytes, off: nat, b: bytes)
    requires HoldsAt(payload, off, Field(b)) && |b| < TWO_32
    ensures ParseField(payload, off) == Some(b)
  {
    FieldHeld(payload, off, b);
  }

  lemma OpBack(op: LogOp)
    requires |Payload(op)| < TWO_32
    ensures ParseOp(OpCode(op), Payload(op)) == Some(op)
  {
    var payload := Payload(op);
    assert HoldsAt(payload, 0, payload);
    match op
    case Change(Put(k, v)) =>
      HoldsSplit(payload, 0, Field(k), Field(v));
      FieldBack(payload, 0, k);
      FieldBack(payload, 4 + |k|, v);
    case Change(Delete(k)) =>
      FieldBack(payload, 0, k);
    case _ =>
  }

  /** A payload is parsed as a put exactly if it has the code of one and begins with the length of a key, the key, the
      length of a value and the value; as a delete exactly if with the length of a key and the key. The other codes are
      marks, and nothing else is parsed. */
  lemma ParsedExactly(code: byte, payload: bytes, op: LogOp)
    ensures ParseOp(code, payload) == Some(op) <==>
            match op
            case Change(Put(k, v)) =>
              && code == 1 && |payload| >= 8 + |k| + |v|
              && FromLE(payload[0..4]) == |k| && payload[4..4 + |k|] == k
              && FromLE(payload[4 + |k|..8 + |k|]) == |v| && payload[8 + |k|..8 + |k| + |v|] == v
            case Change(Delete(k)) =>
              code == 2 && |payload| >= 4 + |k| && FromLE(payload[0..4]) == |k| && payload[4..4 + |k|] == k
            case Begin => code == 3
            case Commit => code == 4
            case Rollback => code == 5
  {
  }

  lemma HeaderBack(lsn: nat, tx: TxId, code: byte, length: nat)
    requires lsn < TWO_64 && tx < TWO_64 && length < TWO_32
    ensures var h := Header(lsn, tx, code, length);
            FromLE(h[0..8]) == lsn && FromLE(h[8..16]) == tx && h[16] == code && FromLE(h[17..21]) == length
  {
    var h := Header(lsn, tx, code, length);
    assert HoldsAt(h, 0, h);
    HoldsSplit(h, 0, LE(lsn, 8), LE(tx, 8) + ([code] + LE(length, 4)));
    HoldsSplit(h, 8, LE(tx, 8), [code] + LE(length, 4));
    HoldsSplit(h, 16, [code], LE(length, 4));
    assert h[16] == h[16..17][0];
    FromLE64(lsn);
    FromLE64(tx);
    FromLE32(length);
  }

  function Raw(r: LogRecord): RawFrame {
    RawFrame(r.lsn, r.tx, OpCode(r.op), Payload(r.op))
  }

  lemma ParseParts(file: bytes, off: nat, h: bytes, payload: bytes, sum: bytes, crc: Checksum)
    requires |h| == HEADER && |sum| == 4 && FromLE(h[17..21]) == |payload| && FromLE(sum) == crc(h + payload)
    requires HoldsAt(file, off, h) && HoldsAt(file, off + HEADER, payload)
    requires HoldsAt(file, off + HEADER + |payload|, sum)
    ensures FrameAt(file, off, crc) ==
            Some((RawFrame(FromLE(h[0..8]), FromLE(h[8..16]), h[16], payload), off + HEADER + |payload| + 4))
  {
  }

  /** A frame that lies within the file is parsed as the record that was written. */
  lemma WholeFrame(file: bytes, off: nat, r: LogRecord, crc: Checksum)
    requires HoldsAt(file, off, Frame(r, crc)) && Loggable(r)
    ensures FrameAt(file, off, crc) == Some((Raw(r), off + |Frame(r, crc)|))
  {
    var payload := Payload(r.op);
    var h := Header(r.lsn, r.tx, OpCode(r.op), |payload|);
    var sum := crc(h + payload);
    HoldsSplit(file, off, h, payload + LE(sum, 4));
    HoldsSplit(file, off + HEADER, payload, LE(sum, 4));
    HeaderBack(r.lsn, r.tx, OpCode(r.op), |payload|);
    FromLE32(sum);
    ParseParts(file, off, h, payload, LE(sum, 4), crc);
  }

  /** The file ends in the middle of `f`. */
  ghost predicate TornAt(file: bytes, off: nat, f: bytes) {
    off <= |file| && |file| - off < |f| && file[off..] <= f
  }

  /** A frame the file ends in the middle of is not parsed. */
  lemma TornFrame(file: bytes, off: nat, r: LogRecord, crc: Checksum)
    requires TornAt(file, off, Frame(r, crc)) && Loggable(r)
    ensures FrameAt(file, off, crc).None?
  {
    if off + HEADER <= |file| {
      var h := Header(r.lsn, r.tx, OpCode(r.op), |Payload(r.op)|);
      assert file[off..off + HEADER] == file[off..][..HEADER] == Frame(r, crc)[..HEADER] == h;
      HeaderBack(r.lsn, r.tx, OpCode(r.op), |Payload(r.op)|);
    }
  }

  /** Wherever `f` is in a file it is parsed as `raw`, and wherever it is torn it is not parsed. */
  ghost predicate Decodes(f: bytes, raw: RawFrame, crc: Checksum) {
    && (forall file, off: nat {:trigger HoldsAt(file, off, f)} ::
          HoldsAt(file, off, f) ==> FrameAt(file, off, crc) == Some((raw, off + |f|)))
    && (forall file, off: nat {:trigger TornAt(file, off, f)} :: TornAt(file, off, f) ==> FrameAt(file, off, crc).None?)
  }

  lemma FrameDecodes(r: LogRecord, crc: Checksum)
    requires Loggable(r)
    ensures Decodes(Frame(r, crc), Raw(r), crc)
  {
    forall file, off: nat | HoldsAt(file, off, Frame(r, crc))
      ensures FrameAt(file, off, crc) == Some((Raw(r), off + |Frame(r, crc)|))
    {
      WholeFrame(file, off, r, crc);
    }
    forall file, off: nat | TornAt(file, off, Frame(r, crc)) ensures FrameAt(file, off, crc).None? {
      TornFrame(file, off, r, crc);
    }
  }

  // ---- A truncated log ----

  /** How many byte strings from number `i` on lie completely within the next `cut` bytes. */
  function WholeFrom(frames: seq<bytes>, i: nat, cut: nat): (k: nat)
    requires i <= |frames|
    ensures i + k <= |frames|
    decreases |frames| - i
  {
    if i == |frames| || |frames[i]| > cut then 0 else 1 + WholeFrom(frames, i + 1, cut - |frames[i]|)
  }

  /** How many records survive whole when the log is cut. */
  function WholeFrames(recs: seq<LogRecord>, cut: nat, crc: Checksum): (k: nat)
    ensures k <= |recs|
  {
    WholeFrom(Encoded(recs, crc), 0, cut)
  }

  ghost predicate AllLoggable(recs: seq<LogRecord>) {
    forall i {:trigger Loggable(recs[i])} :: 0 <= i < |recs| ==> Loggable(recs[i])
  }

  ghost predicate AllDecode(frames: seq<bytes>, raws: seq<RawFrame>, crc: Checksum) {
    |frames| == |raws| && forall i {:trigger frames[i]} :: 0 <= i < |frames| ==> Decodes(frames[i], raws[i], crc)
  }

  lemma SplitFile(file: bytes, off: nat, frames: seq<bytes>, i: nat)
    requires i < |frames| && off <= |file| && file[off..] <= Joined(frames, i)
    ensures |frames[i]| > |file| - off ==> TornAt(file, off, frames[i])
    ensures |frames[i]| <= |file| - off ==>
              HoldsAt(file, off, frames[i]) && file[off + |frames[i]|..] <= Joined(frames, i + 1)
  {
    var f, rest := frames[i], Joined(frames, i + 1);
    if |f| <= |file| - off {
      assert file[off..off + |f|] == file[off..][..|f|] == (f + rest)[..|f|];
      assert file[off + |f|..] == file[off..][|f|..];
    }
  }

  /** A truncated file is parsed as the frames that survived whole. */
  lemma {:induction false} TruncatedFrames(file: bytes, off: nat, frames: seq<bytes>, raws: seq<RawFrame>, i: nat,
                                           crc: Checksum)
    requires i <= |frames| && off <= |file| && file[off..] <= Joined(frames, i) && AllDecode(frames, raws, crc)
    ensures RawFrames(file, off, crc) == raws[i..i + WholeFrom(frames, i, |file| - off)]
    decreases |frames| - i
  {
    if i == |frames| {
      RawFramesEnd(file, off, crc);
    } else {
      SplitFile(file, off, frames, i);
      if |frames[i]| <= |file| - off {
        var next := off + |frames[i]|;
        var k := WholeFrom(frames, i + 1, |file| - next);
        RawFramesStep(file, off, crc, raws[i], next);
        TruncatedFrames(file, next, frames, raws, i + 1, crc);
        OneMoreWhole(frames, raws, i, |file| - off);
      } else {
        RawFramesEnd(file, off, crc);
      }
    }
  }

  lemma RawFramesStep(file: bytes, off: nat, crc: Checksum, f: RawFrame, next: nat)
    requires off <= |file| && FrameAt(file, off, crc) == Some((f, next))
    ensures next <= |file| && RawFrames(file, off, crc) == [f] + RawFrames(file, next, crc)
  {
  }

  lemma RawFramesEnd(file: bytes, off: nat, crc: Checksum)
    requires off <= |file| && FrameAt(file, off, crc).None?
    ensures RawFrames(file, off, crc) == []
  {
  }

  lemma OneMoreWhole(frames: seq<bytes>, raws: seq<RawFrame>, i: nat, cut: nat)
    requires |raws| == |frames| && i < |frames| && |frames[i]| <= cut
    ensures var k := WholeFrom(frames, i + 1, cut - |frames[i]|);
            raws[i..i + WholeFrom(frames, i, cut)] == [raws[i]] + raws[i + 1..i + 1 + k]
  {
  }

  /** The loop takes `raw` as the record `r`. */
  ghost predicate Reads(raw: RawFrame, r: LogRecord, checkpoint: nat) {
    forall s {:trigger Round(s, raw, checkpoint)} :: Round(s, raw, checkpoint) == (Step(s, r, checkpoint), true)
  }

  lemma RecordReads(r: LogRecord, checkpoint: nat)
    requires Loggable(r)
    ensures Reads(Raw(r), r, checkpoint)
  {
    OpBack(r.op);
  }

  lemma {:induction false} InterpretedRecords(raws: seq<RawFrame>, recs: seq<LogRecord>, i: nat, checkpoint: nat)
    requires i <= |raws| <= |recs|
    requires forall j {:trigger raws[j]} :: 0 <= j < |raws| ==> Reads(raws[j], recs[j], checkpoint)
    ensures Interpreted(RunTo(recs, i, checkpoint), raws, i, checkpoint) == RunTo(recs, |raws|, checkpoint)
    decreases |raws| - i
  {
    if i < |raws| {
      assert Round(RunTo(recs, i, checkpoint), raws[i], checkpoint) == (RunTo(recs, i + 1, checkpoint), true);
      InterpretedStep(RunTo(recs, i, checkpoint), raws, i, checkpoint, RunTo(recs, i + 1, checkpoint));
      InterpretedRecords(raws, recs, i + 1, checkpoint);
    }
  }

  lemma InterpretedStep(s: Recovery, frames: seq<RawFrame>, i: nat, checkpoint: nat, next: Recovery)
    requires i < |frames| && Round(s, frames[i], checkpoint) == (next, true)
    ensures Interpreted(s, frames, i, checkpoint) == Interpreted(next, frames, i + 1, checkpoint)
  {
  }

  function Raws(recs: seq<LogRecord>): (raws: seq<RawFrame>)
    ensures |raws| == |recs|
  {
    seq(|recs|, i requires 0 <= i < |recs| => Raw(recs[i]))
  }

  lemma LogDecodes(recs: seq<LogRecord>, checkpoint: nat, crc: Checksum)
    requires AllLoggable(recs)
    ensures AllDecode(Encoded(recs, crc), Raws(recs), crc)
    ensures forall i :: 0 <= i < |recs| ==> Reads(Raws(recs)[i], recs[i], checkpoint)
  {
    forall i | 0 <= i < |recs|
      ensures Decodes(Encoded(recs, crc)[i], Raws(recs)[i], crc) && Reads(Raws(recs)[i], recs[i], checkpoint)
    {
      FrameDecodes(recs[i], crc);
      RecordReads(recs[i], checkpoint);
    }
  }

  /** A log cut at any byte is recovered as the records whose frames survived whole. */
  lemma {:induction false} TruncatedLog(recs: seq<LogRecord>, cut: nat, checkpoint: nat, crc: Checksum)
    requires cut <= |Frames(recs, crc)| && AllLoggable(recs)
    ensures Recovered(Frames(recs, crc)[..cut], checkpoint, crc) == RunTo(recs, WholeFrames(recs, cut, crc), checkpoint)
  {
    var frames, raws := Encoded(recs, crc), Raws(recs);
    LogDecodes(recs, checkpoint, crc);
    JoinSplit(frames, |frames|);
    assert Frames(recs, crc) + [] == Frames(recs, crc);
    TruncatedJoined(frames, raws, cut, crc);
    RecoveredRecords(raws, recs, WholeFrom(frames, 0, cut), checkpoint);
  }

  lemma TruncatedJoined(frames: seq<bytes>, raws: seq<RawFrame>, cut: nat, crc: Checksum)
    requires AllDecode(frames, raws, crc) && cut <= |Joined(frames, 0)|
    ensures RawFrames(Joined(frames, 0)[..cut], 0, crc) == raws[..WholeFrom(frames, 0, cut)]
  {
    var file := Joined(frames, 0)[..cut];
    assert file[0..] == file;
    TruncatedFrames(file, 0, frames, raws, 0, crc);
    assert raws[0..WholeFrom(frames, 0, cut)] == raws[..WholeFrom(frames, 0, cut)];
  }

  lemma RecoveredRecords(raws: seq<RawFrame>, recs: seq<LogRecord>, k: nat, checkpoint: nat)
    requires |raws| == |recs| && k <= |raws| && forall j {:trigger raws[j]} :: 0 <= j < |raws| ==>
               Reads(raws[j], recs[j], checkpoint)
    ensures Interpreted(EMPTY, raws[..k], 0, checkpoint) == RunTo(recs, k, checkpoint)
  {
    InterpretedRecords(raws[..k], recs, 0, checkpoint);
    assert RunTo(recs, 0, checkpoint) == EMPTY;
  }

  /** The byte strings that survive whole lie within the cut. */
  lemma {:induction false} WholeWithin(frames: seq<bytes>, i: nat, cut: nat)
    requires i <= |frames|
    ensures |JoinedTo(frames, i + WholeFrom(frames, i, cut))| <= |JoinedTo(frames, i)| + cut
    decreases |frames| - i
  {
    if i < |frames| && |frames[i]| <= cut {
      WholeWithin(frames, i + 1, cut - |frames[i]|);
      assert i + 1 + WholeFrom(frames, i + 1, cut - |frames[i]|) == i + WholeFrom(frames, i, cut);
    }
  }

  // ---- Behind a frame that cannot be read ----

  lemma {:induction false} JoinedOrder(frames: seq<bytes>, i: nat, k: nat)
    requires i <= k <= |frames|
    ensures JoinedTo(frames, i) <= JoinedTo(frames, k)
    decreases k
  {
    if i < k {
      JoinedOrder(frames, i, k - 1);
      assert JoinedTo(frames, k)[..|JoinedTo(frames, k - 1)|] == JoinedTo(frames, k - 1);
    }
  }

  /** A file is parsed as the frames it begins with, up to the first that cannot be read. */
  lemma {:induction false} FramesAhead(file: bytes, frames: seq<bytes>, raws: seq<RawFrame>, i: nat, k: nat, crc: Checksum)
    requires i <= k <= |frames| && AllDecode(frames, raws, crc) && JoinedTo(frames, k) <= file
    requires FrameAt(file, |JoinedTo(frames, k)|, crc).None?
    ensures |JoinedTo(frames, i)| <= |file| && RawFrames(file, |JoinedTo(frames, i)|, crc) == raws[i..k]
    decreases k - i
  {
    if i == k {
      RawFramesEnd(file, |JoinedTo(frames, i)|, crc);
    } else {
      JoinedOrder(frames, i + 1, k);
      FrameAhead(file, frames, raws, i, crc);
      FramesAhead(file, frames, raws, i + 1, k, crc);
      FirstAndRest(raws, i, k);
    }
  }

  lemma FirstAndRest(raws: seq<RawFrame>, i: nat, k: nat)
    requires i < k <= |raws|
    ensures raws[i..k] == [raws[i]] + raws[i + 1..k]
  {
  }

  lemma FrameAhead(file: bytes, frames: seq<bytes>, raws: seq<RawFrame>, i: nat, crc: Checksum)
    requires i < |frames| && AllDecode(frames, raws, crc) && JoinedTo(frames, i + 1) <= file
    ensures |JoinedTo(frames, i)| <= |JoinedTo(frames, i + 1)| <= |file|
    ensures RawFrames(file, |JoinedTo(frames, i)|, crc) ==
            [raws[i]] + RawFrames(file, |JoinedTo(frames, i + 1)|, crc)
  {
    var off := |JoinedTo(frames, i)|;
    FrameHeld(file, JoinedTo(frames, i), frames[i]);
    RawFramesStep(file, off, crc, raws[i], off + |frames[i]|);
  }

  lemma FrameHeld(file: bytes, before: bytes, f: bytes)
    requires before + f <= file
    ensures HoldsAt(file, |before|, f)
  {
    assert file[|before|..|before| + |f|] == (before + f)[|before|..];
  }

  /** A frame whose sum is not that of its header and payload ends the recovery: the records before it are recovered, it
      and whatever follows are not. */
  lemma WrongSum(recs: seq<LogRecord>, k: nat, header: bytes, payload: bytes, sum: bytes, rest: bytes, checkpoint: nat,
                 crc: Checksum)
    requires AllLoggable(recs) && k <= |recs|
    requires |header| == HEADER && |payload| == FromLE(header[17..21]) && |sum| == 4
    requires FromLE(sum) != crc(header + payload)
    ensures Recovered(FramesTo(recs, k, crc) + header + payload + sum + rest, checkpoint, crc) ==
            RunTo(recs, k, checkpoint)
  {
    var before := FramesTo(recs, k, crc);
    var file := before + header + payload + sum + rest;
    SumDecides(before, header, payload, sum, rest, crc);
    assert before <= file;
    LostBehind(recs, k, file, checkpoint, crc);
  }

  /** A complete frame is parsed exactly if its sum is right, and then as its fields say. */
  lemma SumDecides(before: bytes, header: bytes, payload: bytes, sum: bytes, rest: bytes, crc: Checksum)
    requires |header| == HEADER && |payload| == FromLE(header[17..21]) && |sum| == 4
    ensures var f := FrameAt(before + header + payload + sum + rest, |before|, crc);
            && (f.Some? <==> FromLE(sum) == crc(header + payload))
            && (f.Some? ==>
                  f.value.0 == RawFrame(FromLE(header[0..8]), FromLE(header[8..16]), header[16], payload) &&
                  f.value.1 == |before| + HEADER + |payload| + 4)
  {
    var file, off := before + header + payload + sum + rest, |before|;
    var end := off + HEADER + |payload|;
    assert file[off..off + HEADER] == header;
    assert file[off + HEADER..end] == payload;
    assert file[end..end + 4] == sum;
  }

  /** If a file begins with the frames of some records and what comes next is no frame, recovery gives what those records
      give: whatever is behind is lost. */
  lemma LostBehind(recs: seq<LogRecord>, k: nat, file: bytes, checkpoint: nat, crc: Checksum)
    requires AllLoggable(recs) && k <= |recs| && FramesTo(recs, k, crc) <= file
    requires FrameAt(file, |FramesTo(recs, k, crc)|, crc).None?
    ensures Recovered(file, checkpoint, crc) == RunTo(recs, k, checkpoint)
  {
    LogDecodes(recs, checkpoint, crc);
    FramesAhead(file, Encoded(recs, crc), Raws(recs), 0, k, crc);
    assert Raws(recs)[0..k] == Raws(recs)[..k];
    RecoveredRecords(Raws(recs), recs, k, checkpoint);
  }

  /** A change logged behind a single byte of a torn frame is not recovered, whatever the byte and the checksum. */
  lemma TornByteHides(b: byte, checkpoint: nat, crc: Checksum)
    ensures Recovered([b] + Frame(LogRecord(1, 0, Change(Put([1], [1]))), crc), checkpoint, crc) == EMPTY
  {
    var r := LogRecord(1, 0, Change(Put([1], [1])));
    var file := [b] + Frame(r, crc);
    ShiftedLength(b, crc);
    assert FrameAt(file, 0, crc).None?;
    RawFramesEnd(file, 0, crc);
  }

  /** Shifted by one byte, the length field takes in the operation code and announces more than there is. */
  lemma ShiftedLength(b: byte, crc: Checksum)
    ensures var file := [b] + Frame(LogRecord(1, 0, Change(Put([1], [1]))), crc);
            |file| == 36 && FromLE(file[0..HEADER][17..21]) > 36
  {
    var r := LogRecord(1, 0, Change(Put([1], [1])));
    var file := [b] + Frame(r, crc);
    var h := Header(1, 0, 1, 10);
    assert |Payload(r.op)| == 10;
    assert h[16] == 1 && h[17] == LE(10, 4)[0] == Digit(10, 0);
    var field := file[0..HEADER][17..21];
    assert field[0] == h[16] && field[1] == h[17];
    assert Digit(10, 0) == 10;
    assert FromLE(field) == FromLEAt(field, 0) && FromLEAt(field, 0) == field[0] as nat + 256 * FromLEAt(field, 1);
    assert FromLEAt(field, 1) == field[1] as nat + 256 * FromLEAt(field, 2);
  }

  // ---- Appending ----

  lemma {:induction false} JoinedPrefix(frames: seq<bytes>, f: bytes, n: nat)
    requires n <= |frames|
    ensures JoinedTo(frames + [f], n) == JoinedTo(frames, n)
  {
    if n > 0 {
      JoinedPrefix(frames, f, n - 1);
    }
  }

  /** Appending a frame appends it to the file. */
  lemma JoinedAppend(frames: seq<bytes>, f: bytes)
    ensures JoinedTo(frames + [f], |frames| + 1) == JoinedTo(frames, |frames|) + f
  {
    JoinedPrefix(frames, f, |frames|);
  }

  lemma {:induction false} JoinSplit(frames: seq<bytes>, n: nat)
    requires n <= |frames|
    ensures JoinedTo(frames, n) + Joined(frames, n) == Joined(frames, 0)
  {
    if n > 0 {
      JoinSplit(frames, n - 1);
      AppendAssociative(JoinedTo(frames, n - 1), frames[n - 1], Joined(frames, n));
    }
  }

  lemma {:induction false} JoinedGrows(frames: seq<bytes>, i: nat, m: nat)
    requires i <= m <= |frames|
    ensures |JoinedTo(frames, i)| <= |JoinedTo(frames, m)|
    decreases m
  {
    if i < m {
      JoinedGrows(frames, i, m - 1);
    }
  }

  /** A cut behind the first `m` byte strings leaves them whole. */
  lemma {:induction false} WholeKept(frames: seq<bytes>, i: nat, m: nat, cut: nat)
    requires i <= m <= |frames| && |JoinedTo(frames, i)| + cut >= |JoinedTo(frames, m)|
    ensures i + WholeFrom(frames, i, cut) >= m
    decreases m - i
  {
    if i < m {
      JoinedGrows(frames, i + 1, m);
      WholeKept(frames, i + 1, m, cut - |frames[i]|);
    }
  }

  /** A cut behind the frames of the first `m` records leaves them whole. */
  lemma FramesKept(recs: seq<LogRecord>, m: nat, cut: nat, crc: Checksum)
    requires m <= |recs| && cut >= |FramesTo(recs, m, crc)|
    ensures WholeFrames(recs, cut, crc) >= m
  {
    WholeKept(Encoded(recs, crc), 0, m, cut);
  }

  /** A shorter log is the beginning of the file. */
  lemma LogTake(frames: seq<bytes>, recs: seq<LogRecord>, k: nat, crc: Checksum)
    requires FramesOf(frames, recs, crc) && k <= |recs|
    ensures FramesOf(frames[..k], recs[..k], crc) && JoinedTo(frames[..k], k) == JoinedTo(frames, k)
    ensures JoinedTo(frames, k) <= JoinedTo(frames, |frames|)
  {
    forall i | 0 <= i < k ensures IsFrame(frames[..k][i], recs[..k][i], crc) {
      assert IsFrame(frames[i], recs[i], crc);
    }
    JoinedTake(frames, k, k);
    JoinedBegins(frames, k);
  }

  lemma JoinedBegins(frames: seq<bytes>, k: nat)
    requires k <= |frames|
    ensures JoinedTo(frames, k) <= JoinedTo(frames, |frames|)
  {
    JoinSplit(frames, k);
    JoinSplit(frames, |frames|);
    var part, whole := JoinedTo(frames, k), JoinedTo(frames, |frames|);
    assert whole == whole + [] == part + Joined(frames, k);
    assert whole[..|part|] == part;
  }

  lemma {:induction false} JoinedTake(frames: seq<bytes>, k: nat, n: nat)
    requires n <= k <= |frames|
    ensures JoinedTo(frames[..k], n) == JoinedTo(frames, n)
  {
    if n > 0 {
      JoinedTake(frames, k, n - 1);
    }
  }

  lemma InPieces(file: bytes, header: bytes, payload: bytes, sum: bytes)
    ensures file + header + payload + sum == file + (header + (payload + sum))
  {
    AppendAssociative(header, payload, sum);
    AppendAssociative(file, header + payload, sum);
    AppendAssociative(file, header, payload);
  }

  ghost predicate IsFrame(f: bytes, r: LogRecord, crc: Checksum) {
    f == Frame(r, crc)
  }

  ghost predicate FramesOf(frames: seq<bytes>, recs: seq<LogRecord>, crc: Checksum) {
    && |frames| == |recs|
    && forall i {:trigger IsFrame(frames[i], recs[i], crc)} :: 0 <= i < |recs| ==> IsFrame(frames[i], recs[i], crc)
  }

  lemma FramesAre(frames: seq<bytes>, recs: seq<LogRecord>, crc: Checksum)
    requires FramesOf(frames, recs, crc)
    ensures frames == Encoded(recs, crc)
  {
    forall i | 0 <= i < |recs| ensures frames[i] == Encoded(recs, crc)[i] {
      assert IsFrame(frames[i], recs[i], crc);
    }
  }

  lemma FramesExtended(frames: seq<bytes>, recs: seq<LogRecord>, r: LogRecord, f: bytes, crc: Checksum)
    requires FramesOf(frames, recs, crc) && f == Frame(r, crc)
    ensures FramesOf(frames + [f], recs + [r], crc)
  {
    forall i | 0 <= i < |recs| + 1 ensures IsFrame((frames + [f])[i], (recs + [r])[i], crc) {
      assert i < |recs| ==> IsFrame(frames[i], recs[i], crc);
    }
  }

  // ---- The log file ----

  class WriteAheadLog {
    const crc: Checksum
    var file: bytes
    var lsn: nat
    /** The records written since the file was last empty. */
    ghost var records: seq<LogRecord>
    ghost var frames: seq<bytes>

    /** The file consists of the frames of the records. */
    ghost predicate Valid()
      reads this
    {
      FramesOf(frames, records, crc) && file == JoinedTo(frames, |frames|)
    }

    constructor (crc: Checksum)
      ensures Valid() && records == [] && lsn == 0 && this.crc == crc
    {
      this.crc, file, lsn, records, frames := crc, [], 0, [], [];
    }

    /** `WriteAheadLog::open` on a file. */
    constructor Opened(crc: Checksum, file: bytes, ghost records: seq<LogRecord>, ghost frames: seq<bytes>)
      ensures this.crc == crc && this.file == file && lsn == 0 && this.records == records && this.frames == frames
    {
      this.crc, this.file, lsn, this.records, this.frames := crc, file, 0, records, frames;
    }

    /** `write_record`: the record gets the next LSN and its frame goes to the end of the file, whatever is there. */
    method WriteRecord(tx: TxId, op: LogOp)
      requires lsn + 1 < TWO_64
      modifies this
      ensures lsn == old(lsn) + 1 && file == old(file) + Frame(LogRecord(old(lsn) + 1, tx, op), crc)
      ensures old(Valid()) ==> Valid()
      ensures records == old(records) + [LogRecord(old(lsn) + 1, tx, op)]
      ensures |frames| == |old(frames)| + 1 && frames[..|old(frames)|] == old(frames)
    {
      lsn := lsn + 1;
      var payload := Payload(op);
      var header := Header(lsn, tx, OpCode(op), |payload|);
      var sum := LE(crc(header + payload), 4);
      ghost var r, f := LogRecord(lsn, tx, op), header + (payload + sum);
      if Valid() {
        FramesExtended(frames, records, r, f, crc);
        JoinedAppend(frames, f);
      }
      InPieces(file, header, payload, sum);
      assert f == Frame(r, crc);
      file := file + header;
      file := file + payload;
      file := file + sum;
      records, frames := records + [r], frames + [f];
    }

    /** `recover`: reads frame after frame until one is incomplete or wrong. */
    method Recover(checkpoint: nat) returns (entries: seq<Entry>)
      modifies `lsn
      ensures entries == Recovered(file, checkpoint, crc).committed && lsn == Recovered(file, checkpoint, crc).maxLsn
    {
      entries := [];
      var active: map<TxId, seq<Entry>> := map[];
      var maxLsn: nat, offset: nat := 0, 0;
      ghost var frames, i: nat := RawFrames(file, 0, crc), 0;
      while true
        invariant offset <= |file| && i <= |frames| && frames[i..] == RawFrames(file, offset, crc)
        invariant Interpreted(Recovery(active, entries, maxLsn), frames, i, checkpoint) ==
                  Recovered(file, checkpoint, crc)
        decreases |file| - offset
      {
        var frame := FrameAt(file, offset, crc);
        if frame.None? {
          RawFramesEnd(file, offset, crc);
          break;
        }
        var (f, next) := frame.value;
        RawFramesStep(file, offset, crc, f, next);
        assert f == frames[i..][0] == frames[i] && frames[i + 1..] == frames[i..][1..];
        ghost var before := Recovery(active, entries, maxLsn);
        if f.lsn > maxLsn { maxLsn := f.lsn; }
        offset, i := next, i + 1;
        if f.lsn <= checkpoint {
          active := TrackMark(before, f, active, entries, maxLsn, checkpoint);
          InterpretedStep(before, frames, i - 1, checkpoint, Recovery(active, entries, maxLsn));
          continue;
        }
        var op := ParseOp(f.code, f.payload);
        if op.None? { break; }
        active, entries := Track(before, f, op.value, active, entries, maxLsn, checkpoint);
        InterpretedStep(before, frames, i - 1, checkpoint, Recovery(active, entries, maxLsn));
      }
      lsn := maxLsn;
    }

    /** A frame at or below the checkpoint: only transaction marks are followed. */
    method TrackMark(ghost s: Recovery, f: RawFrame, active: map<TxId, seq<Entry>>, ghost entries: seq<Entry>,
                     ghost maxLsn: nat, ghost checkpoint: nat)
      returns (active': map<TxId, seq<Entry>>)
      requires f.lsn <= checkpoint && s.active == active && s.committed == entries && maxLsn == Max(s.maxLsn, f.lsn)
      ensures Round(s, f, checkpoint) == (Recovery(active', entries, maxLsn), true)
    {
      active' := active;
      if f.code == 3 {
        if f.tx > 0 { active' := active[f.tx := []]; }
      } else if f.code == 4 || f.code == 5 {
        active' := active - {f.tx};
      }
    }

    /** A frame above the checkpoint. */
    method Track(ghost s: Recovery, f: RawFrame, op: LogOp, active: map<TxId, seq<Entry>>, entries: seq<Entry>,
                 ghost maxLsn: nat, ghost checkpoint: nat)
      returns (active': map<TxId, seq<Entry>>, entries': seq<Entry>)
      requires f.lsn > checkpoint && s.active == active && s.committed == entries && maxLsn == Max(s.maxLsn, f.lsn)
      requires ParseOp(f.code, f.payload) == Some(op)
      ensures Round(s, f, checkpoint) == (Recovery(active', entries', maxLsn), true)
    {
      active', entries' := active, entries;
      match op
      case Change(e) =>
        if f.tx == 0 {
          entries' := entries + [e];
        } else {
          active' := active[f.tx := (if f.tx in active then active[f.tx] else []) + [e]];
        }
      case Begin =>
        if f.tx > 0 { active' := active[f.tx := []]; }
      case Commit =>
        if f.tx in active {
          entries' := entries + active[f.tx];
        } else {
          assert entries + [] == entries;
        }
        active' := active - {f.tx};
      case Rollback =>
        active' := active - {f.tx};
    }

    /** `checkpoint`: the file is emptied and the numbering restarts. */
    method Checkpoint()
      modifies this
      ensures Valid() && file == [] && records == [] && lsn == 0
    {
      file, lsn, records, frames := [], 0, [], [];
    }
  }
}
