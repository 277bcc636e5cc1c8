/**
 What recovery guarantees: on files the engine wrote, including one cut off at any
 byte of the last append, and on arbitrary bytes.
 */
module WalRecovery {
  import opened Strings
  import opened LittleEndian
  import opened Mvcc
  import opened Wal

  predicate AllStorable(c: Codec, recs: seq<Record>)
  {
    forall i :: 0 <= i < |recs| ==> Storable(c, recs[i])
  }

  lemma {:induction false} FrameFields(c: Codec, payload: Str)
    ensures var f := Frame(c, payload);
            && f[..4] == Put32(|payload|) && f[4..8] == Put32(c.crc(payload)) && f[8..] == payload
            && Get32(f[..4]) == |payload| % TWO32 && Get32(f[4..8]) == c.crc(payload)
  {
    hide Put32, Get32;
    RoundTrip32(|payload|);
    RoundTrip32(c.crc(payload));
  }

  lemma {:induction false} EncodedIsFrame(c: Codec, r: Record)
    requires Storable(c, r)
    ensures IsFrame(c, EncodeRecord(c, r), r)
  {
    hide Get32, Frame;
    FrameFields(c, c.marshal(r));
  }

  /** A complete frame in the file is read as its record, whatever surrounds it. */
  lemma {:induction false} ReadsFrame(c: Codec, data: Str, off: nat, f: Str, r: Record)
    requires off + |f| <= |data| && data[off..off + |f|] == f && IsFrame(c, f, r)
    ensures ReadFrame(c, data, off) == Good(r, off + |f|)
  {
    hide Get32;
    SliceOfSlice(data, off, off + |f|, 0, 4);
    SliceOfSlice(data, off, off + |f|, 4, 8);
    SliceOfSlice(data, off, off + |f|, 8, |f|);
    assert f[8..|f|] == f[8..];
  }

  lemma {:induction false} SliceOfSlice(data: Str, a: nat, b: nat, i: nat, j: nat)
    requires a <= b <= |data| && i <= j <= b - a
    ensures data[a..b][i..j] == data[a + i..a + j]
  {
    var x, y := data[a..b][i..j], data[a + i..a + j];
    forall k | 0 <= k < j - i ensures x[k] == y[k] {
      assert x[k] == data[a..b][i + k] == data[a + i + k];
    }
  }

  lemma {:induction false} ReplayGood(c: Codec, data: Str, off: nat, r: Record, next: nat)
    requires off <= |data| && ReadFrame(c, data, off) == Good(r, next)
    ensures next <= |data|
    ensures var rest := ReplayFrom(c, data, next);
            ReplayFrom(c, data, off) == rest.(recs := [r] + rest.recs)
  {
  }

  /** Replay gets through the frames of storable records and goes on behind them. */
  lemma {:induction false} ReplaysFrames(c: Codec, data: Str, off: nat, recs: seq<Record>)
    requires AllStorable(c, recs) && off + |Frames(c, recs)| <= |data|
    requires data[off..off + |Frames(c, recs)|] == Frames(c, recs)
    ensures var rest := ReplayFrom(c, data, off + |Frames(c, recs)|);
            ReplayFrom(c, data, off) == rest.(recs := recs + rest.recs)
  {
    hide AllStorable, Frames, Concat, FrameList, ReplayFrom, AllFrames;
    FramesAreConcat(c, recs);
    StorableFrames(c, recs);
    ReplaysConcat(c, data, off, FrameList(c, recs), recs);
  }

  /** A frame the file ends inside of is not read at all. */
  lemma {:induction false} TornFrame(c: Codec, data: Str, off: nat, payload: Str, n: nat)
    requires 0 < |payload| <= MAX_RECORD && n < |Frame(c, payload)|
    requires off <= |data| && data[off..] == Frame(c, payload)[..n]
    ensures ReadFrame(c, data, off).End? || ReadFrame(c, data, off).Torn?
  {
    hide Get32, Frame;
    FrameFields(c, payload);
    var f := Frame(c, payload);
    if n >= 8 {
      assert data[off..off + 4] == data[off..][..4] == f[..4];
    }
  }

  lemma {:induction false} HeaderIsOk(rest: Str)
    ensures HeaderOk(Header() + rest)
  {
    hide Get32;
    var d := Header() + rest;
    assert d[..4] == Header()[..4] == Ascii("RNDB");
    assert d[4..8] == Header()[4..8] == Put32(1);
    RoundTrip32(1);
  }

  /** A crash at any byte of an append: recovery finds every earlier record, and the
      new one exactly when its frame is complete; the file is cut back accordingly. */
  lemma {:induction false} CrashInAppend(c: Codec, recs: seq<Record>, r: Record, n: nat)
    requires AllStorable(c, recs) && Storable(c, r) && n <= |EncodeRecord(c, r)|
    ensures var file := Header() + Frames(c, recs) + EncodeRecord(c, r)[..n];
            OpenSpec(c, file) ==
              if n == |EncodeRecord(c, r)| then Opened(recs + [r], Header() + Frames(c, recs + [r]))
              else Opened(recs, Header() + Frames(c, recs))
  {
    hide Get32, ReadFrame, IsFrame, HasValid, Header, HeaderOk;
    var f := EncodeRecord(c, r);
    if n == |f| {
      FramesSnoc(c, recs, r);
      assert Header() + Frames(c, recs) + f[..n] == Header() + Frames(c, recs + [r]);
      Reopens(c, recs + [r]);
    } else {
      var file := Header() + Frames(c, recs) + f[..n];
      var off := HEADER_SIZE + |Frames(c, recs)|;
      HeaderIsOk(Frames(c, recs) + f[..n]);
      assert file == Header() + (Frames(c, recs) + f[..n]);
      assert file[HEADER_SIZE..off] == Frames(c, recs);
      ReplaysFrames(c, file, HEADER_SIZE, recs);
      assert file[off..] == f[..n];
      TornFrame(c, file, off, c.marshal(r), n);
      assert file[..off] == Header() + Frames(c, recs);
      assert recs + [] == recs;
      OpensGood(c, file);
    }
  }

  lemma {:induction false} OpensGood(c: Codec, file: Str)
    requires HeaderOk(file)
    ensures var r := ReplayFrom(c, file, HEADER_SIZE);
            OpenSpec(c, file) == if r.corrupt then Failed(Corrupt) else Opened(r.recs, file[..r.lastGood])
  {
  }

  lemma {:induction false} FramesSnoc(c: Codec, recs: seq<Record>, r: Record)
    ensures Frames(c, recs + [r]) == Frames(c, recs) + EncodeRecord(c, r)
  {
    hide EncodeRecord;
    if recs == [] {
      assert recs + [r] == [r] && [r][1..] == [];
    } else {
      assert (recs + [r])[1..] == recs[1..] + [r];
      FramesSnoc(c, recs[1..], r);
    }
  }

  /** A file of storable records opens to exactly these records and is left as it is. */
  lemma {:induction false} Reopens(c: Codec, recs: seq<Record>)
    requires AllStorable(c, recs)
    ensures OpenSpec(c, Header() + Frames(c, recs)) == Opened(recs, Header() + Frames(c, recs))
  {
    hide Get32, IsFrame, HasValid, Header, HeaderOk, EncodeRecord;
    var file := Header() + Frames(c, recs);
    HeaderIsOk(Frames(c, recs));
    assert file[HEADER_SIZE..|file|] == Frames(c, recs);
    ReplaysFrames(c, file, HEADER_SIZE, recs);
    assert file[..|file|] == file && recs + [] == recs;
    OpensGood(c, file);
  }

  // ---------------------------------------------------------- arbitrary bytes

  function Concat(fs: seq<Str>): Str
  {
    if fs == [] then [] else fs[0] + Concat(fs[1..])
  }

  /** On any bytes: what lies before `lastGood` is exactly one valid frame per record returned. */
  lemma {:induction false} ReplayIsFrames(c: Codec, data: Str, off: nat) returns (fs: seq<Str>)
    requires off <= |data|
    ensures var r := ReplayFrom(c, data, off);
            && |fs| == |r.recs| && Concat(fs) == data[off..r.lastGood]
            && forall i :: 0 <= i < |fs| ==> IsFrame(c, fs[i], r.recs[i])
    decreases |data| - off
  {
    hide IsFrame, HasValid;
    var it := ReadFrame(c, data, off);
    if it.Good? {
      var rest := ReplayIsFrames(c, data, it.next);
      fs := [data[off..it.next]] + rest;
      assert fs[1..] == rest;
      var last := ReplayFrom(c, data, off).lastGood;
      assert data[off..it.next] + data[it.next..last] == data[off..last];
    } else {
      fs := [];
    }
  }

  /** A valid frame is the framing of its own payload. */
  lemma {:induction false} FrameIsCanonical(c: Codec, f: Str, r: Record)
    requires IsFrame(c, f, r)
    ensures f == Frame(c, f[8..])
  {
    hide Get32, Put32;
    Canonical32(f[..4]);
    Canonical32(f[4..8]);
    assert f == f[..4] + f[4..8] + f[8..];
  }

  /** Reading a frame depends on its own bytes only. */
  lemma {:induction false} ReplayTruncated(c: Codec, data: Str, off: nat, last: nat)
    requires off <= |data| && last == ReplayFrom(c, data, off).lastGood
    ensures ReplayFrom(c, data[..last], off) == Replayed(ReplayFrom(c, data, off).recs, last, false)
    decreases |data| - off
  {
    hide IsFrame, HasValid, ReadFrame, ReplayFrom;
    var it := ReadFrame(c, data, off);
    var cut := data[..last];
    if it.Good? {
      GoodFrame(c, data, off);
      ReplayGood(c, data, off, it.rec, it.next);
      ReplayTruncated(c, data, it.next, last);
      SliceOfSlice(data, 0, last, off, it.next);
      assert data[0..last] == cut;
      ReadsFrame(c, cut, off, data[off..it.next], it.rec);
      ReplayGood(c, cut, off, it.rec, it.next);
    } else {
      ReplayStops(c, data, off);
      ReplayEnd(c, cut);
    }
  }

  lemma {:induction false} GoodFrame(c: Codec, data: Str, off: nat)
    requires off <= |data| && ReadFrame(c, data, off).Good?
    ensures off < ReadFrame(c, data, off).next <= |data|
    ensures IsFrame(c, data[off..ReadFrame(c, data, off).next], ReadFrame(c, data, off).rec)
  {
    hide Get32;
    var f := data[off..ReadFrame(c, data, off).next];
    SliceOfSlice(data, off, off + |f|, 0, 4);
    SliceOfSlice(data, off, off + |f|, 4, 8);
    SliceOfSlice(data, off, off + |f|, 8, |f|);
  }

  lemma {:induction false} ReplayStops(c: Codec, data: Str, off: nat)
    requires off <= |data| && !ReadFrame(c, data, off).Good?
    ensures ReplayFrom(c, data, off).recs == [] && ReplayFrom(c, data, off).lastGood == off
  {
    hide ReadFrame, HasValid;
  }

  lemma {:induction false} ReplayEnd(c: Codec, data: Str)
    ensures ReplayFrom(c, data, |data|) == Replayed([], |data|, false)
  {
  }

  /** Recovery is idempotent: opening the repaired file again yields the same records
      and changes nothing. */
  lemma {:induction false} RecoveryIdempotent(c: Codec, data: Str)
    requires OpenSpec(c, data).Opened?
    ensures OpenSpec(c, OpenSpec(c, data).file) == OpenSpec(c, data)
  {
    hide Get32, ReadFrame, HasValid, ReplayFrom, Header, IsFrame;
    if data == [] {
      HeaderIsOk([]);
      assert Header() + [] == Header();
      Reopens(c, []);
    } else {
      var last := ReplayFrom(c, data, HEADER_SIZE).lastGood;
      ReplayTruncated(c, data, HEADER_SIZE, last);
      var cut := data[..last];
      assert cut[..4] == data[..4] && cut[4..8] == data[4..8] && cut[..last] == cut;
    }
  }

  /** ErrWALCorrupt is reported only if a complete checksummed frame follows the damage. */
  lemma {:induction false} CorruptHasLaterFrame(c: Codec, data: Str, off: nat) returns (i: nat, j: nat, r: Record)
    requires off <= |data| && ReplayFrom(c, data, off).corrupt
    ensures ReplayFrom(c, data, off).lastGood + FRAME_HEADER <= i <= j <= |data| && IsFrame(c, data[i..j], r)
    ensures ReadFrame(c, data, ReplayFrom(c, data, off).lastGood).Bad?
    decreases |data| - off
  {
    hide IsFrame;
    var it := ReadFrame(c, data, off);
    if it.Good? {
      i, j, r := CorruptHasLaterFrame(c, data, it.next);
    } else {
      var tail := data[it.next..];
      var k: nat :| ValidAt(c, tail, k) && forall j: nat :: j < k ==> !OverlongAt(tail, j);
      var g := ReadFrame(c, tail, k);
      i, j, r := it.next + k, it.next + g.next, g.rec;
      assert data[i..j] == tail[k..g.next];
    }
  }

  // ------------------------------------------- recovery, exactly, on any bytes

  /** `rest` begins with a complete frame that passes every check. */
  ghost predicate StartsWithFrame(c: Codec, rest: Str)
  {
    exists j: nat, r: Record :: j <= |rest| && IsFrame(c, rest[..j], r)
  }

  /** Where reading goes on once the frame at the start of `rest` is rejected: behind its
      header if the length is out of range, else behind the payload it announces. */
  function Skip(rest: Str): nat
    requires |rest| >= FRAME_HEADER
  {
    var size := Get32(rest[..4]);
    if size == 0 || size > MAX_RECORD then FRAME_HEADER else FRAME_HEADER + size
  }

  /** The file does not end inside the frame at the start of `rest`. */
  predicate Complete(rest: Str)
  {
    |rest| >= FRAME_HEADER && Skip(rest) <= |rest|
  }

  /** A valid frame lies at or behind `from`, with no over-long candidate in between. */
  ghost predicate LaterFrame(c: Codec, rest: Str, from: nat)
  {
    exists i: nat, j: nat, r: Record ::
      from <= i <= j <= |rest| && IsFrame(c, rest[i..j], r) && NoOverlong(rest, from, i)
  }

  predicate NoOverlong(rest: Str, from: nat, to: nat)
  {
    forall p: nat :: from <= p < to ==> !OverlongAt(rest, p)
  }

  predicate AllFrames(c: Codec, fs: seq<Str>, rs: seq<Record>)
  {
    |fs| == |rs| && forall i :: 0 <= i < |fs| ==> IsFrame(c, fs[i], rs[i])
  }

  /** Replay gets through valid frames and goes on behind them. */
  lemma {:induction false} ReplaysConcat(c: Codec, data: Str, off: nat, fs: seq<Str>, rs: seq<Record>)
    requires AllFrames(c, fs, rs) && off + |Concat(fs)| <= |data| && data[off..off + |Concat(fs)|] == Concat(fs)
    ensures var rest := ReplayFrom(c, data, off + |Concat(fs)|);
            ReplayFrom(c, data, off) == rest.(recs := rs + rest.recs)
    decreases |fs|
  {
    hide ReadFrame, HasValid, IsFrame, ReplayFrom;
    var rest := ReplayFrom(c, data, off + |Concat(fs)|);
    if fs == [] {
      assert rs + rest.recs == rest.recs;
    } else {
      var f, more, all := fs[0], Concat(fs[1..]), Concat(fs);
      SliceOfSlice(data, off, off + |all|, 0, |f|);
      SliceOfSlice(data, off, off + |all|, |f|, |all|);
      assert all[0..|f|] == f && all[|f|..|all|] == more;
      ReadsFrame(c, data, off, f, rs[0]);
      ReplayGood(c, data, off, rs[0], off + |f|);
      ReplaysConcat(c, data, off + |f|, fs[1..], rs[1..]);
      assert [rs[0]] + (rs[1..] + rest.recs) == rs + rest.recs;
    }
  }

  lemma {:induction false} SliceTail(data: Str, off: nat, i: nat, j: nat)
    requires off <= |data| && i <= j <= |data| - off
    ensures data[off..][i..j] == data[off + i..off + j]
  {
    SliceOfSlice(data, off, |data|, i, j);
    assert data[off..|data|] == data[off..];
  }

  /** What reading finds at a place that does not hold a valid frame. */
  lemma {:induction false} ReadsNoFrame(c: Codec, data: Str, off: nat)
    requires off <= |data| && !StartsWithFrame(c, data[off..])
    ensures var it := ReadFrame(c, data, off);
            if Complete(data[off..]) then it == Bad(off + Skip(data[off..])) else it.End? || it.Torn?
  {
    hide Get32, IsFrame;
    var rest, it := data[off..], ReadFrame(c, data, off);
    if |rest| >= FRAME_HEADER { SliceTail(data, off, 0, 4); }
    if it.Good? {
      SliceTail(data, off, 0, it.next - off);
    }
  }

  lemma {:induction false} OverlongShifts(rest: Str, from: nat, p: nat)
    requires from <= |rest|
    ensures OverlongAt(rest[from..], p) <==> OverlongAt(rest, from + p)
  {
    hide Get32;
    if p + FRAME_HEADER <= |rest| - from { SliceTail(rest, from, p, p + 4); }
  }

  lemma {:induction false} ValidIsFrame(c: Codec, tail: Str, i: nat)
    requires ValidAt(c, tail, i)
    ensures exists j: nat, r: Record :: i <= j <= |tail| && IsFrame(c, tail[i..j], r)
  {
    hide ReadFrame, IsFrame;
    var it := ReadFrame(c, tail, i);
    GoodFrame(c, tail, i);
    assert IsFrame(c, tail[i..it.next], it.rec);
  }

  lemma {:induction false} FrameIsValid(c: Codec, tail: Str, i: nat, j: nat, r: Record)
    requires i <= j <= |tail| && IsFrame(c, tail[i..j], r)
    ensures ValidAt(c, tail, i)
  {
    hide ReadFrame, IsFrame;
    ReadsFrame(c, tail, i, tail[i..j], r);
  }

  /** The search behind a rejected frame finds a record exactly if a later frame is there. */
  lemma {:induction false} LaterIffFound(c: Codec, rest: Str, from: nat)
    requires from <= |rest|
    ensures LaterFrame(c, rest, from) <==> from < |rest| && HasValid(c, rest[from..])
  {
    hide ReadFrame, OverlongAt, ValidAt;
    var tail := rest[from..];
    if LaterFrame(c, rest, from) {
      var i: nat, j: nat, r: Record :| from <= i <= j <= |rest| && IsFrame(c, rest[i..j], r) && NoOverlong(rest, from, i);
      SliceTail(rest, from, i - from, j - from);
      FrameIsValid(c, tail, i - from, j - from, r);
      forall p: nat | p < i - from ensures !OverlongAt(tail, p) { OverlongShifts(rest, from, p); }
    }
    if HasValid(c, tail) {
      var i: nat :| ValidAt(c, tail, i) && forall p: nat :: p < i ==> !OverlongAt(tail, p);
      ValidIsFrame(c, tail, i);
      var j: nat, r: Record :| i <= j <= |tail| && IsFrame(c, tail[i..j], r);
      SliceTail(rest, from, i, j);
      forall p: nat | from <= p < from + i ensures !OverlongAt(rest, p) { OverlongShifts(rest, from, p - from); }
      assert IsFrame(c, rest[from + i..from + j], r) && NoOverlong(rest, from, from + i);
    }
  }

  lemma {:induction false} ReplayRest(c: Codec, data: Str, off: nat)
    requires off <= |data| && !StartsWithFrame(c, data[off..])
    ensures ReplayFrom(c, data, off) ==
              Replayed([], off, Complete(data[off..]) && LaterFrame(c, data[off..], Skip(data[off..])))
  {
    hide ReadFrame, HasValid, Get32, StartsWithFrame, LaterFrame;
    var rest := data[off..];
    ReadsNoFrame(c, data, off);
    if Complete(rest) {
      var k := Skip(rest);
      LaterIffFound(c, rest, k);
      assert rest[k..] == data[off + k..];
    }
  }

  /** Recovery on arbitrary bytes behind a good header: the valid frames up to the first place
      that holds none are the records, and the rest is cut off silently, unless the frame there
      is complete and a valid frame follows it with no over-long candidate before that one:
      then, and only then, the file is reported corrupt. */
  lemma {:induction false} RecoveryExact(c: Codec, data: Str, fs: seq<Str>, rs: seq<Record>, rest: Str)
    requires HeaderOk(data) && AllFrames(c, fs, rs) && !StartsWithFrame(c, rest)
    requires data == data[..HEADER_SIZE] + Concat(fs) + rest
    ensures OpenSpec(c, data) ==
              if Complete(rest) && LaterFrame(c, rest, Skip(rest)) then Failed(Corrupt)
              else Opened(rs, data[..HEADER_SIZE] + Concat(fs))
  {
    hide HeaderOk, AllFrames, StartsWithFrame, ReplayFrom, LaterFrame, OpenSpec, Skip;
    HeaderLength(data);
    var off := HEADER_SIZE + |Concat(fs)|;
    assert data[HEADER_SIZE..off] == Concat(fs) && data[off..] == rest && data[..off] == data[..HEADER_SIZE] + Concat(fs);
    ReplaysConcat(c, data, HEADER_SIZE, fs, rs);
    ReplayRest(c, data, off);
    assert rs + [] == rs;
    OpensGood(c, data);
  }

  lemma {:induction false} HeaderLength(data: Str)
    requires HeaderOk(data)
    ensures |data| >= HEADER_SIZE
  {
  }

  /** Every file with a good header is of that form. */
  lemma {:induction false} Decomposes(c: Codec, data: Str) returns (fs: seq<Str>, rs: seq<Record>, rest: Str)
    requires HeaderOk(data)
    ensures AllFrames(c, fs, rs) && !StartsWithFrame(c, rest) && data == data[..HEADER_SIZE] + Concat(fs) + rest
  {
    hide ReadFrame, HasValid, IsFrame, ReplayFrom, Concat, Get32;
    var r := ReplayFrom(c, data, HEADER_SIZE);
    fs := ReplayIsFrames(c, data, HEADER_SIZE);
    rs, rest := r.recs, data[r.lastGood..];
    StopsAtNoFrame(c, data, HEADER_SIZE);
    assert data == data[..HEADER_SIZE] + data[HEADER_SIZE..r.lastGood] + rest;
  }

  lemma {:induction false} StopsAtNoFrame(c: Codec, data: Str, off: nat)
    requires off <= |data|
    ensures !StartsWithFrame(c, data[ReplayFrom(c, data, off).lastGood..])
    decreases |data| - off
  {
    hide ReadFrame, HasValid, IsFrame, ReplayFrom;
    var it := ReadFrame(c, data, off);
    if it.Good? {
      GoodFrame(c, data, off);
      ReplayGood(c, data, off, it.rec, it.next);
      StopsAtNoFrame(c, data, it.next);
    } else {
      ReplayStops(c, data, off);
      if StartsWithFrame(c, data[off..]) {
        var j: nat, r: Record :| j <= |data| - off && IsFrame(c, data[off..][..j], r);
        SliceTail(data, off, 0, j);
        ReadsFrame(c, data, off, data[off..off + j], r);
      }
    }
  }

  /** The other outcomes of opening a file. */
  lemma {:induction false} OpenVerdicts(c: Codec, data: Str)
    ensures data == [] ==> OpenSpec(c, data) == Opened([], Header())
    ensures OpenSpec(c, data) == Failed(BadMagic) <==> data != [] && !(|data| >= 16 && data[..4] == [82, 78, 68, 66])
    ensures OpenSpec(c, data) == Failed(BadVersion) <==> |data| >= 16 && data[..4] == [82, 78, 68, 66] && data[4..8] != [1, 0, 0, 0]
    ensures Header() == [82, 78, 68, 66, 1, 0, 0, 0, 0, 0, 0, 0, 0, 0, 0, 0]
  {
    hide ReplayFrom, HasValid, ReadFrame;
    assert Ascii("RNDB") == [82, 78, 68, 66];
    assert Put32(1) == [1, 0, 0, 0];
    if |data| >= 16 { VersionBytes(data[4..8]); }
  }

  lemma {:induction false} VersionBytes(b: Str)
    requires |b| == 4
    ensures Get32(b) == 1 <==> b == [1, 0, 0, 0]
  {
    Canonical32(b);
    assert Put32(1) == [1, 0, 0, 0];
    RoundTrip32(1);
  }

  function FrameList(c: Codec, recs: seq<Record>): seq<Str>
  {
    seq(|recs|, i requires 0 <= i < |recs| => EncodeRecord(c, recs[i]))
  }

  lemma {:induction false} FramesAreConcat(c: Codec, recs: seq<Record>)
    ensures Frames(c, recs) == Concat(FrameList(c, recs))
  {
    hide EncodeRecord;
    if recs != [] {
      FramesAreConcat(c, recs[1..]);
      assert FrameList(c, recs)[1..] == FrameList(c, recs[1..]);
    }
  }

  lemma {:induction false} StorableFrames(c: Codec, recs: seq<Record>)
    requires AllStorable(c, recs)
    ensures AllFrames(c, FrameList(c, recs), recs)
  {
    hide EncodeRecord, IsFrame, Storable;
    forall i | 0 <= i < |recs| ensures IsFrame(c, EncodeRecord(c, recs[i]), recs[i]) { EncodedIsFrame(c, recs[i]); }
  }

  /** A frame whose length field is intact and whose checksum is wrong. */
  predicate DamagedFrame(c: Codec, d: Str)
  {
    |d| > FRAME_HEADER && Get32(d[..4]) == |d| - FRAME_HEADER <= MAX_RECORD && c.crc(d[8..]) != Get32(d[4..8])
  }

  lemma {:induction false} DamagedStart(c: Codec, d: Str, more: Str)
    requires DamagedFrame(c, d)
    ensures !StartsWithFrame(c, d + more) && Complete(d + more) && Skip(d + more) == |d|
  {
    hide Get32;
    var rest := d + more;
    assert rest[..4] == d[..4];
    forall j: nat, r: Record | j <= |rest| ensures !IsFrame(c, rest[..j], r) { DamagedNoFrame(c, d, more, j, r); }
  }

  lemma {:induction false} DamagedNoFrame(c: Codec, d: Str, more: Str, j: nat, r: Record)
    requires DamagedFrame(c, d) && j <= |d + more|
    ensures !IsFrame(c, (d + more)[..j], r)
  {
    hide Get32;
    var f := (d + more)[..j];
    assert j >= 8 ==> f[..4] == d[..4];
    assert j == |d| ==> f == d;
  }

  /** A damaged record right before an intact one is reported, whatever precedes and follows
      the two: the intact one is never cut off silently. */
  lemma {:induction false} DamageIsReported(c: Codec, recs: seq<Record>, d: Str, r: Record, tail: Str)
    requires AllStorable(c, recs) && Storable(c, r) && DamagedFrame(c, d)
    ensures OpenSpec(c, Header() + Frames(c, recs) + d + EncodeRecord(c, r) + tail) == Failed(Corrupt)
  {
    hide AllStorable, Storable, DamagedFrame, Header, HeaderOk, Frames, EncodeRecord, OpenSpec, StartsWithFrame, IsFrame, Skip, AllFrames;
    var f, fs := EncodeRecord(c, r), FrameList(c, recs);
    var rest := d + (f + tail);
    var data := Header() + Frames(c, recs) + d + f + tail;
    assert data == Header() + (Frames(c, recs) + d + f + tail);
    HeaderIsOk(Frames(c, recs) + d + f + tail);
    FramesAreConcat(c, recs);
    StorableFrames(c, recs);
    DamagedStart(c, d, f + tail);
    assert data[..HEADER_SIZE] == Header() && data == data[..HEADER_SIZE] + Concat(fs) + rest;
    EncodedIsFrame(c, r);
    assert rest[|d|..|d| + |f|] == f;
    assert LaterFrame(c, rest, |d|);
    RecoveryExact(c, data, fs, recs, rest);
  }

  // -------------------------------------------------------- the size limit

  /** JSON reads a record back from its text and, if the text is too long for the 32-bit
      length field, not from the prefix that the wrapped length names. */
  predicate JsonReads(c: Codec, r: Record)
  {
    var p := c.marshal(r);
    p != [] && c.unmarshal(p) == Some(r) && (|p| >= TWO32 ==> c.unmarshal(p[..|p| % TWO32]).None?)
  }

  predicate AllJson(c: Codec, recs: seq<Record>)
  {
    forall i :: 0 <= i < |recs| ==> JsonReads(c, recs[i])
  }

  /** The limit that replay enforces and appending does not. */
  predicate WithinLimit(c: Codec, r: Record)
  {
    |c.marshal(r)| <= MAX_RECORD
  }

  predicate AllWithin(c: Codec, recs: seq<Record>)
  {
    forall i :: 0 <= i < |recs| ==> WithinLimit(c, recs[i])
  }

  /** Given that JSON round-trips, storable means within the limit. */
  lemma {:induction false} StorableIffWithin(c: Codec, recs: seq<Record>)
    requires AllJson(c, recs)
    ensures AllStorable(c, recs) <==> AllWithin(c, recs)
  {
    if AllWithin(c, recs) {
      forall i | 0 <= i < |recs| ensures Storable(c, recs[i]) {
        assert JsonReads(c, recs[i]) && WithinLimit(c, recs[i]);
      }
    }
    if AllStorable(c, recs) {
      forall i | 0 <= i < |recs| ensures WithinLimit(c, recs[i]) {
        assert Storable(c, recs[i]);
      }
    }
  }

  /** Replay rejects the frame of a record over the limit, whatever follows it. */
  lemma {:induction false} OversizedIsBad(c: Codec, data: Str, off: nat, r: Record)
    requires off <= |data| && HasPrefix(data[off..], EncodeRecord(c, r)) && JsonReads(c, r) && !WithinLimit(c, r)
    ensures ReadFrame(c, data, off).Bad?
  {
    hide Get32, Put32;
    var p, f := c.marshal(r), EncodeRecord(c, r);
    FrameFields(c, p);
    var size := |p| % TWO32;
    assert data[off..][..|f|] == f;
    assert data[off..off + 4] == f[..4];
    if 0 < size <= MAX_RECORD {
      assert size < |p|;
      var next := off + FRAME_HEADER + size;
      assert next <= |data|;
      SliceOfSlice(data, off, off + |f|, 8, 8 + size);
      assert data[off..off + |f|] == f;
      assert data[off + FRAME_HEADER..next] == f[8..8 + size] == f[8..][..size] == p[..size];
    }
  }

  lemma {:induction false} FramesConcat(c: Codec, a: seq<Record>, b: seq<Record>)
    ensures Frames(c, a + b) == Frames(c, a) + Frames(c, b)
  {
    hide EncodeRecord;
    if a == [] {
      assert a + b == b;
    } else {
      assert (a + b)[1..] == a[1..] + b;
      FramesConcat(c, a[1..], b);
    }
  }

  /** A record over the limit ends the recovery: it and everything behind it are gone, or
      the file is reported corrupt. */
  lemma {:induction false} OversizedIsLost(c: Codec, recs: seq<Record>, r: Record, tail: Str)
    requires AllStorable(c, recs) && JsonReads(c, r) && !WithinLimit(c, r)
    ensures OpenSpec(c, Header() + Frames(c, recs) + EncodeRecord(c, r) + tail)
              in {Opened(recs, Header() + Frames(c, recs)), Failed(Corrupt)}
  {
    hide Get32, IsFrame, HasValid, Header, HeaderOk, Frames, ReadFrame, EncodeRecord, JsonReads, WithinLimit, ReplayFrom;
    var f := EncodeRecord(c, r);
    var file, off := Header() + Frames(c, recs) + f + tail, HEADER_SIZE + |Frames(c, recs)|;
    assert file == Header() + (Frames(c, recs) + f + tail);
    HeaderIsOk(Frames(c, recs) + f + tail);
    assert file[HEADER_SIZE..off] == Frames(c, recs);
    ReplaysFrames(c, file, HEADER_SIZE, recs);
    assert file[off..] == f + tail && (f + tail)[..|f|] == f;
    OversizedIsBad(c, file, off, r);
    ReplayStops(c, file, off);
    assert file[..off] == Header() + Frames(c, recs) && recs + [] == recs;
    OpensGood(c, file);
  }

  /** The first record over the limit. */
  predicate FirstOver(c: Codec, recs: seq<Record>, i: nat)
  {
    i < |recs| && !WithinLimit(c, recs[i]) && AllWithin(c, recs[..i])
  }

  lemma {:induction false} SomeFirstOver(c: Codec, recs: seq<Record>) returns (i: nat)
    requires !AllWithin(c, recs)
    ensures FirstOver(c, recs, i)
  {
    hide WithinLimit;
    i := 0;
    while WithinLimit(c, recs[i])
      invariant i < |recs| && AllWithin(c, recs[..i])
      invariant exists k :: i <= k < |recs| && !WithinLimit(c, recs[k])
      decreases |recs| - i
    {
      assert recs[..i + 1] == recs[..i] + [recs[i]];
      i := i + 1;
    }
  }

  /** Opening the file of the records finds the first `i` of them only, or fails. */
  ghost predicate LostFrom(c: Codec, recs: seq<Record>, i: nat)
  {
    && i < |recs|
    && OpenSpec(c, Header() + Frames(c, recs)) in {Opened(recs[..i], Header() + Frames(c, recs[..i])), Failed(Corrupt)}
  }

  /** A file reopens to its own records exactly if all of them are within the limit;
      otherwise everything from the first one over it is gone, or opening fails. */
  lemma {:induction false} ReopensIffWithinLimit(c: Codec, recs: seq<Record>)
    requires AllJson(c, recs)
    ensures OpenSpec(c, Header() + Frames(c, recs)) == Opened(recs, Header() + Frames(c, recs)) <==> AllWithin(c, recs)
    ensures forall i: nat :: FirstOver(c, recs, i) ==> LostFrom(c, recs, i)
  {
    hide OpenSpec, Frames, Header, EncodeRecord, JsonReads, WithinLimit, Storable;
    if AllWithin(c, recs) {
      StorableIffWithin(c, recs);
      Reopens(c, recs);
    } else {
      var j := SomeFirstOver(c, recs);
      LostFromFirst(c, recs, j);
      assert |recs[..j]| != |recs|;
    }
    forall i: nat | FirstOver(c, recs, i) ensures LostFrom(c, recs, i) {
      LostFromFirst(c, recs, i);
    }
  }

  lemma {:induction false} LostFromFirst(c: Codec, recs: seq<Record>, i: nat)
    requires AllJson(c, recs) && FirstOver(c, recs, i)
    ensures LostFrom(c, recs, i)
  {
    hide OpenSpec, Frames, Header, EncodeRecord, JsonReads, WithinLimit, Storable;
    var kept, rest := recs[..i], recs[i..];
    StorableIffWithin(c, kept);
    assert recs == kept + rest && rest == [recs[i]] + rest[1..];
    FramesConcat(c, kept, rest);
    FramesFirst(c, rest);
    assert Header() + Frames(c, recs) == Header() + Frames(c, kept) + EncodeRecord(c, recs[i]) + Frames(c, rest[1..]);
    OversizedIsLost(c, kept, recs[i], Frames(c, rest[1..]));
  }

  lemma {:induction false} FramesFirst(c: Codec, recs: seq<Record>)
    requires recs != []
    ensures Frames(c, recs) == EncodeRecord(c, recs[0]) + Frames(c, recs[1..])
  {
  }
}
