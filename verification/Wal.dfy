/**
 The write-ahead log file: framing, replay with torn-tail repair, and the search for
 a valid record after damage, over arbitrary bytes.  CRC32 and JSON marshalling are
 parameters.
 */
module Wal {
  import opened Strings
  import opened LittleEndian
  import opened Mvcc

  const HEADER_SIZE := 16
  const MAX_RECORD := 67108864 // 64 << 20
  const FRAME_HEADER := 8

  /** `json.Marshal`, `json.Unmarshal` and `crc32.ChecksumIEEE`. */
  datatype Codec = Codec(marshal: Record -> Str, unmarshal: Str -> Option<Record>, crc: Str -> U32)

  /** What `encodeRecord` asks of a record to be readable again: JSON reads it back
      (its keys are UTF-8) and the payload is within the limit replay enforces. */
  predicate Storable(c: Codec, r: Record)
  {
    var p := c.marshal(r);
    0 < |p| <= MAX_RECORD && c.unmarshal(p) == Some(r)
  }

  /** A frame: payload length, checksum, payload. */
  function Frame(c: Codec, payload: Str): (f: Str)
    ensures |f| == FRAME_HEADER + |payload|
  {
    Put32(|payload|) + Put32(c.crc(payload)) + payload
  }

  /** `encodeRecord` */
  function EncodeRecord(c: Codec, r: Record): Str
  {
    Frame(c, c.marshal(r))
  }

  function Frames(c: Codec, recs: seq<Record>): Str
  {
    if recs == [] then [] else EncodeRecord(c, recs[0]) + Frames(c, recs[1..])
  }

  /** `writeWALHeader`: magic, format version, padding. */
  function Header(): (h: Str)
    ensures |h| == HEADER_SIZE
  {
    Ascii("RNDB") + Put32(1) + [0, 0, 0, 0, 0, 0, 0, 0]
  }

  /** A complete frame that passes every check of replay. */
  predicate IsFrame(c: Codec, f: Str, r: Record)
  {
    && |f| > FRAME_HEADER
    && Get32(f[..4]) == |f| - FRAME_HEADER <= MAX_RECORD
    && c.crc(f[8..]) == Get32(f[4..8])
    && c.unmarshal(f[8..]) == Some(r)
  }

  /** What the bytes at an offset turn out to be. */
  datatype Item =
    | End                            // nothing left
    | Torn                           // a header or payload that the file ends inside of
    | Bad(next: nat)                 // rejected; reading went on to `next`
    | Good(rec: Record, next: nat)

  /** One turn of the loop in `replay`. */
  function ReadFrame(c: Codec, data: Str, off: nat): (it: Item)
    requires off <= |data|
    ensures it.Good? ==> off + FRAME_HEADER < it.next <= |data| && IsFrame(c, data[off..it.next], it.rec)
    ensures it.Bad? ==> off + FRAME_HEADER <= it.next <= |data|
  {
    if off == |data| then End
    else if |data| < off + FRAME_HEADER then Torn
    else
      var size := Get32(data[off..off + 4]);
      var next := off + FRAME_HEADER + size;
      if size == 0 || size > MAX_RECORD then Bad(off + FRAME_HEADER)
      else if |data| < next then Torn
      else
        var payload := data[off + FRAME_HEADER..next];
        if c.crc(payload) != Get32(data[off + 4..off + 8]) then Bad(next)
        else
          var rec := c.unmarshal(payload);
          if rec.None? then Bad(next) else
            var f := data[off..next];
            assert f[..4] == data[off..off + 4] && f[4..8] == data[off + 4..off + 8] && f[8..] == payload;
            Good(rec.value, next)
  }

  /** A position of `data` holds a valid record, or one whose length runs past the end. */
  predicate ValidAt(c: Codec, data: Str, i: nat)
  {
    i <= |data| && ReadFrame(c, data, i).Good?
  }

  predicate OverlongAt(data: Str, i: nat)
  {
    && i + FRAME_HEADER <= |data|
    && var size := Get32(data[i..i + 4]);
       0 < size <= MAX_RECORD && i + FRAME_HEADER + size > |data|
  }

  /** `hasValidRecord` finds a record exactly if no over-long candidate comes before it. */
  ghost predicate HasValid(c: Codec, data: Str)
  {
    exists i: nat :: ValidAt(c, data, i) && forall j: nat :: j < i ==> !OverlongAt(data, j)
  }

  datatype Replayed = Replayed(recs: seq<Record>, lastGood: nat, corrupt: bool)

  /** `replay` with `recoverOrCorrupt`, from an offset. */
  ghost function ReplayFrom(c: Codec, data: Str, off: nat): (r: Replayed)
    requires off <= |data|
    ensures off <= r.lastGood <= |data|
    decreases |data| - off
  {
    match ReadFrame(c, data, off)
    case End => Replayed([], off, false)
    case Torn => Replayed([], off, false)
    case Bad(next) => Replayed([], off, next < |data| && HasValid(c, data[next..]))
    case Good(rec, next) =>
      var rest := ReplayFrom(c, data, next);
      rest.(recs := [rec] + rest.recs)
  }

  // --------------------------------------------------- methods of wal.go

  /** `hasValidRecord` */
  method HasValidRecord(c: Codec, data: Str) returns (found: bool)
    ensures found <==> HasValid(c, data)
  {
    var off := 0;
    while |data| - off >= FRAME_HEADER
      invariant off <= |data|
      invariant forall j: nat :: j < off ==> !ValidAt(c, data, j) && !OverlongAt(data, j)
    {
      var size := Get32(data[off..off + 4]);
      if size == 0 || size > MAX_RECORD {
        off := off + 1;
        continue;
      }
      if size + FRAME_HEADER > |data| - off {
        assert OverlongAt(data, off);
        return false;
      }
      var payload := data[off + FRAME_HEADER..off + FRAME_HEADER + size];
      if c.crc(payload) != Get32(data[off + 4..off + 8]) || c.unmarshal(payload).None? {
        off := off + 1;
        continue;
      }
      assert ValidAt(c, data, off);
      return true;
    }
    found := false;
  }

  /** `replay`: the loop over frames after the file header. */
  method Replay(c: Codec, data: Str) returns (recs: seq<Record>, lastGood: nat, corrupt: bool)
    requires HEADER_SIZE <= |data|
    ensures Replayed(recs, lastGood, corrupt) == ReplayFrom(c, data, HEADER_SIZE)
  {
    recs, lastGood, corrupt := [], HEADER_SIZE, false;
    ghost var whole := ReplayFrom(c, data, HEADER_SIZE);
    while true
      invariant lastGood <= |data| && !corrupt
      invariant var rest := ReplayFrom(c, data, lastGood);
                whole == rest.(recs := recs + rest.recs)
      decreases |data| - lastGood
    {
      match ReadFrame(c, data, lastGood) {
        case End => return;
        case Torn => return;
        case Bad(next) =>
          if next < |data| {
            corrupt := HasValidRecord(c, data[next..]);
          }
          return;
        case Good(rec, next) =>
          assert recs + ([rec] + ReplayFrom(c, data, next).recs) == (recs + [rec]) + ReplayFrom(c, data, next).recs;
          recs, lastGood := recs + [rec], next;
      }
    }
  }

  datatype OpenError = BadMagic | BadVersion | Corrupt

  datatype Opened = Opened(recs: seq<Record>, file: Str) | Failed(error: OpenError)

  /** `initWAL` and the truncation in `OpenWithOptions`. */
  method Open(c: Codec, data: Str) returns (r: Opened)
    ensures r == OpenSpec(c, data)
  {
    if |data| == 0 {
      return Opened([], Header());
    }
    if |data| < HEADER_SIZE {
      return Failed(BadMagic);
    }
    if data[..4] != Ascii("RNDB") {
      return Failed(BadMagic);
    }
    if Get32(data[4..8]) != 1 {
      return Failed(BadVersion);
    }
    var recs, lastGood, corrupt := Replay(c, data);
    if corrupt {
      return Failed(Corrupt);
    }
    return Opened(recs, data[..lastGood]);
  }

  predicate HeaderOk(data: Str)
  {
    |data| >= HEADER_SIZE && data[..4] == Ascii("RNDB") && Get32(data[4..8]) == 1
  }

  ghost function OpenSpec(c: Codec, data: Str): Opened
  {
    if data == [] then Opened([], Header())
    else if |data| < HEADER_SIZE || data[..4] != Ascii("RNDB") then Failed(BadMagic)
    else if Get32(data[4..8]) != 1 then Failed(BadVersion)
    else
      var r := ReplayFrom(c, data, HEADER_SIZE);
      if r.corrupt then Failed(Corrupt) else Opened(r.recs, data[..r.lastGood])
  }
}
