/**
 The slotted page of page.go: a 4096-byte buffer written in place.
 */
module Page {
  import opened Strings
  import opened LittleEndian

  const PAGE_SIZE := 4096

  type Image = b: seq<Byte> | |b| == PAGE_SIZE witness seq(PAGE_SIZE, _ => 0)

  // ------------------------------------------------ the page as a value

  /** The buffer with `s` written at `at`. */
  function Overwrite(b: Image, at: nat, s: Str): (r: Image)
    requires at + |s| <= PAGE_SIZE
  {
    b[..at] + s + b[at + |s|..]
  }

  function SlotCount(b: Image): nat
  {
    Get16(b[0..2])
  }

  function FreeOff(b: Image): nat
  {
    Get16(b[2..4])
  }

  /** Where the directory entry of slot `i` starts. */
  function Dir(i: nat): int
  {
    PAGE_SIZE - (i + 1) * 4
  }

  function SlotOff(b: Image, i: nat): nat
    requires Dir(i) >= 0
  {
    Get16(b[Dir(i)..Dir(i) + 2])
  }

  function SlotLen(b: Image, i: nat): nat
    requires Dir(i) >= 0
  {
    Get16(b[Dir(i) + 2..Dir(i) + 4])
  }

  /** The end of the payloads in the first `n` slots. */
  function End(b: Image, n: nat): int
    requires n > 0 ==> Dir(n - 1) >= 0
  {
    if n == 0 then 4 else SlotOff(b, n - 1) + SlotLen(b, n - 1)
  }

  /** Payloads lie back to back from byte 4 up to the free offset, which does not reach
      the slot directory. */
  predicate PageOk(b: Image)
  {
    var n := SlotCount(b);
    && FreeOff(b) <= PAGE_SIZE - 4 * n
    && FreeOff(b) == End(b, n)
    && forall i: nat :: i < n ==> SlotOk(b, i)
  }

  /** Slot `i` starts where the one before it ends, and ends within the used space. */
  predicate SlotOk(b: Image, i: nat)
  {
    && Dir(i) >= 0
    && SlotOff(b, i) == End(b, i) && 4 <= SlotOff(b, i)
    && SlotOff(b, i) + SlotLen(b, i) <= FreeOff(b)
  }

  function Slot(b: Image, i: nat): Str
    requires PageOk(b) && i < SlotCount(b)
  {
    assert SlotOk(b, i);
    b[SlotOff(b, i)..SlotOff(b, i) + SlotLen(b, i)]
  }

  /** The payloads of a page. */
  function Payloads(b: Image): seq<Str>
    requires PageOk(b)
  {
    seq(SlotCount(b), i requires 0 <= i < SlotCount(b) => Slot(b, i))
  }

  function EmptyPage(): Image
  {
    Overwrite(seq(PAGE_SIZE, _ => 0), 2, Put16(4))
  }

  predicate Fits(b: Image, payload: Str)
  {
    FreeOff(b) + |payload| <= Dir(SlotCount(b))
  }

  /** The bytes `Put` leaves when the payload fits. */
  function PutImage(b: Image, payload: Str): Image
    requires Fits(b, payload)
  {
    var n, free := SlotCount(b), FreeOff(b);
    var b1 := Overwrite(b, free, payload);
    var b2 := Overwrite(b1, Dir(n), Put16(free) + Put16(|payload|));
    Overwrite(b2, 0, Put16(n + 1) + Put16(free + |payload|))
  }

  // ------------------------------------------------------------- slices

  lemma {:induction false} OverwriteOutside(b: Image, at: nat, s: Str, i: nat, j: nat)
    requires at + |s| <= PAGE_SIZE && i <= j <= PAGE_SIZE && (j <= at || at + |s| <= i)
    ensures Overwrite(b, at, s)[i..j] == b[i..j]
  {
    var o := Overwrite(b, at, s);
    forall k | i <= k < j ensures o[k] == b[k] { }
  }

  lemma {:induction false} OverwriteInside(b: Image, at: nat, s: Str, i: nat, j: nat)
    requires at + |s| <= PAGE_SIZE && i <= j <= |s|
    ensures Overwrite(b, at, s)[at + i..at + j] == s[i..j]
  {
    var o := Overwrite(b, at, s);
    forall k | i <= k < j ensures o[at + k] == s[k] { }
  }

  /** A range below the free offset or within the directory entries in use. */
  predicate OldBytes(b: Image, i: int, j: int)
  {
    4 <= i <= j <= PAGE_SIZE && (j <= FreeOff(b) || Dir(SlotCount(b)) + 4 <= i)
  }

  /** Everything `Put` writes, read back: the new slot, the counters, and any old bytes
      outside the free space. */
  lemma {:induction false} PutImageBytes(b: Image, payload: Str)
    requires Fits(b, payload) && FreeOff(b) >= 4
    ensures var r, n, free := PutImage(b, payload), SlotCount(b), FreeOff(b);
            && SlotCount(r) == n + 1 && FreeOff(r) == free + |payload|
            && SlotOff(r, n) == free && SlotLen(r, n) == |payload|
            && r[free..free + |payload|] == payload
            && forall i, j :: OldBytes(b, i, j) ==> r[i..j] == b[i..j]
  {
    hide Get16, Put16, Overwrite;
    var n, free, m := SlotCount(b), FreeOff(b), |payload|;
    var entry, counters := Put16(free) + Put16(m), Put16(n + 1) + Put16(free + m);
    var b1 := Overwrite(b, free, payload);
    var b2 := Overwrite(b1, Dir(n), entry);
    var r := Overwrite(b2, 0, counters);
    OverwriteInside(b2, 0, counters, 0, 2);
    OverwriteInside(b2, 0, counters, 2, 4);
    assert counters[0..2] == Put16(n + 1) && counters[2..4] == Put16(free + m);
    RoundTrip16(n + 1);
    RoundTrip16(free + m);
    OverwriteOutside(b2, 0, counters, Dir(n), Dir(n) + 2);
    OverwriteOutside(b2, 0, counters, Dir(n) + 2, Dir(n) + 4);
    OverwriteInside(b1, Dir(n), entry, 0, 2);
    OverwriteInside(b1, Dir(n), entry, 2, 4);
    assert entry[0..2] == Put16(free) && entry[2..4] == Put16(m);
    RoundTrip16(free);
    RoundTrip16(m);
    OverwriteOutside(b2, 0, counters, free, free + m);
    OverwriteOutside(b1, Dir(n), entry, free, free + m);
    OverwriteInside(b, free, payload, 0, m);
    assert payload[0..m] == payload;
    forall i, j | OldBytes(b, i, j) ensures r[i..j] == b[i..j] {
      OverwriteOutside(b2, 0, counters, i, j);
      OverwriteOutside(b1, Dir(n), entry, i, j);
      OverwriteOutside(b, free, payload, i, j);
    }
  }

  /** A Put that fits adds its payload as the last slot and leaves the others alone. */
  lemma {:induction false} PutAppends(b: Image, payload: Str)
    requires PageOk(b) && Fits(b, payload)
    ensures PageOk(PutImage(b, payload))
    ensures Payloads(PutImage(b, payload)) == Payloads(b) + [payload]
  {
    hide Get16, Put16, Overwrite, PutImage;
    var r, n, free := PutImage(b, payload), SlotCount(b), FreeOff(b);
    FreeAtLeast4(b);
    PutImageBytes(b, payload);
    forall i: nat | i < n ensures SlotOff(r, i) == SlotOff(b, i) && SlotLen(r, i) == SlotLen(b, i) {
      assert OldBytes(b, Dir(i), Dir(i) + 2) && OldBytes(b, Dir(i) + 2, Dir(i) + 4);
    }
    forall i: nat | i <= n ensures End(r, i) == End(b, i) { }
    forall i: nat | i < n + 1 ensures SlotOk(r, i) {
      assert i < n ==> SlotOk(b, i);
    }
    forall i: nat | i < n ensures Slot(r, i) == Slot(b, i) {
      assert SlotOk(b, i);
      assert OldBytes(b, SlotOff(b, i), SlotOff(b, i) + SlotLen(b, i));
    }
  }

  lemma {:induction false} FreeAtLeast4(b: Image)
    requires PageOk(b)
    ensures FreeOff(b) >= 4
  {
    hide Get16;
    var n := SlotCount(b);
    if n > 0 { assert SlotOk(b, n - 1); }
  }

  lemma {:induction false} EmptyPageOk()
    ensures PageOk(EmptyPage()) && Payloads(EmptyPage()) == [] && FreeOff(EmptyPage()) == 4
  {
    hide Get16, Put16, Overwrite;
    var z: Image := seq(PAGE_SIZE, _ => 0);
    OverwriteOutside(z, 2, Put16(4), 0, 2);
    OverwriteInside(z, 2, Put16(4), 0, 2);
    assert Put16(4)[0..2] == Put16(4);
    RoundTrip16(4);
    ZeroIsZero();
    assert z[0..2] == [0, 0];
  }

  lemma {:induction false} ZeroIsZero()
    ensures Get16([0, 0]) == 0
  {
  }

  // ---------------------------------------------------------- the object

  /** What reading a slot of arbitrary bytes gives; a slot pointing outside the page is a run-time panic. */
  datatype Read = Payload(bytes: Str) | NoSlot | OutOfPage

  class Page {
    const buf: array<Byte>

    ghost predicate Valid()
      reads this, buf
    {
      buf.Length == PAGE_SIZE && PageOk(buf[..])
    }

    ghost function Image(): Image
      requires buf.Length == PAGE_SIZE
      reads buf
    {
      buf[..]
    }

    /** A page after `reset`. */
    constructor ()
      ensures Valid() && fresh(buf) && Image() == EmptyPage()
    {
      buf := new Byte[PAGE_SIZE];
      new;
      Reset();
    }

    /** `reset` */
    method Reset()
      requires buf.Length == PAGE_SIZE
      modifies buf
      ensures Valid() && Image() == EmptyPage() && Payloads(Image()) == []
    {
      var i := 0;
      while i < PAGE_SIZE
        invariant i <= PAGE_SIZE && forall j :: 0 <= j < i ==> buf[j] == 0
      {
        buf[i] := 0;
        i := i + 1;
      }
      assert buf[..] == seq(PAGE_SIZE, _ => 0);
      Write(2, Put16(4));
      EmptyPageOk();
    }

    /** `copy` into the buffer. */
    method Write(at: nat, s: Str)
      requires buf.Length == PAGE_SIZE && at + |s| <= PAGE_SIZE
      modifies buf
      ensures Image() == Overwrite(old(Image()), at, s)
    {
      var i := 0;
      while i < |s|
        invariant i <= |s|
        invariant forall j :: 0 <= j < PAGE_SIZE && !(at <= j < at + i) ==> buf[j] == old(buf[j])
        invariant forall j :: 0 <= j < i ==> buf[at + j] == s[j]
      {
        buf[at + i] := s[i];
        i := i + 1;
      }
      forall j | 0 <= j < PAGE_SIZE ensures buf[j] == Overwrite(old(buf[..]), at, s)[j] {
        if at <= j < at + |s| { assert buf[at + (j - at)] == s[j - at]; }
      }
    }

    /** `Put`: refused exactly when the payload and a directory entry do not fit;
        otherwise the payload becomes the last slot and nothing else changes. */
    method Put(payload: Str) returns (ok: bool)
      requires Valid()
      modifies buf
      ensures Valid() && ok == Fits(old(Image()), payload)
      ensures !ok ==> Image() == old(Image())
      ensures ok ==> Image() == PutImage(old(Image()), payload) && Payloads(Image()) == old(Payloads(Image())) + [payload]
    {
      hide Overwrite;
      var n, free := SlotCount(buf[..]), FreeOff(buf[..]);
      var dirStart := PAGE_SIZE - (n + 1) * 4;
      if free + |payload| > dirStart {
        return false;
      }
      PutAppends(buf[..], payload);
      Write(free, payload);
      Write(dirStart, Put16(free) + Put16(|payload|));
      Write(0, Put16(n + 1) + Put16(free + |payload|));
      ok := true;
    }

    /** `Get`, on any bytes: on a page that `reset` and `Put` made, the i-th payload; on others
        a slot may point outside the page. */
    method Get(i: int) returns (r: Read)
      requires buf.Length == PAGE_SIZE
      ensures r.NoSlot? <==> !(0 <= i < SlotCount(Image()))
      ensures r.OutOfPage? <==> 0 <= i < SlotCount(Image()) && !(Dir(i) >= 0 && SlotOff(Image(), i) + SlotLen(Image(), i) <= PAGE_SIZE)
      ensures r.Payload? ==> r.bytes == Image()[SlotOff(Image(), i)..SlotOff(Image(), i) + SlotLen(Image(), i)]
      ensures Valid() ==> r == if 0 <= i < |Payloads(Image())| then Payload(Payloads(Image())[i]) else NoSlot
    {
      r := ReadSlot(buf[..], i);
      if PageOk(buf[..]) && 0 <= i < SlotCount(buf[..]) { assert SlotOk(buf[..], i); }
    }
  }

  /** `Get` on the bytes of any page. */
  function ReadSlot(b: Image, i: int): Read
  {
    if i < 0 || i >= SlotCount(b) then NoSlot
    else if Dir(i) < 0 then OutOfPage
    else if SlotOff(b, i) + SlotLen(b, i) > PAGE_SIZE then OutOfPage
    else Payload(b[SlotOff(b, i)..SlotOff(b, i) + SlotLen(b, i)])
  }

  /** `EncodeRowPage` */
  method EncodeRowPage(payload: Str) returns (r: Option<Str>)
    ensures r == RowPage(payload)
  {
    var p := new Page();
    EmptyPageOk();
    var ok := p.Put(payload);
    r := if ok then Some(p.buf[..]) else None;
  }

  /** The page holding one payload, if it fits. */
  function RowPage(payload: Str): Option<Str>
  {
    if Fits(EmptyPage(), payload) then Some(PutImage(EmptyPage(), payload)) else None
  }

  /** `DecodeRowPage` */
  function FromRowPage(raw: Str): Read
  {
    if |raw| != PAGE_SIZE then NoSlot else ReadSlot(raw, 0)
  }

  /** A row page gives back its payload; exactly the payloads of at most 4088 bytes have one. */
  lemma {:induction false} RowPageRoundTrip(payload: Str)
    ensures RowPage(payload).Some? <==> |payload| <= PAGE_SIZE - 8
    ensures RowPage(payload).Some? ==> FromRowPage(RowPage(payload).value) == Payload(payload)
  {
    hide Get16, Put16, Overwrite, PutImage, EmptyPage;
    EmptyPageOk();
    var e := EmptyPage();
    assert SlotCount(e) == |Payloads(e)| == 0;
    if Fits(e, payload) {
      PutAppends(e, payload);
      var r := PutImage(e, payload);
      assert |Payloads(r)| == 1 && Payloads(r)[0] == payload;
      assert SlotOk(r, 0);
    }
  }

  // ------------------------------------------------------------- what fits

  function TotalLength(ps: seq<Str>): nat
  {
    if ps == [] then 0 else TotalLength(ps[..|ps| - 1]) + |ps[|ps| - 1]|
  }

  lemma {:induction false} EndIsTotal(b: Image, n: nat)
    requires PageOk(b) && n <= SlotCount(b)
    ensures n > 0 ==> Dir(n - 1) >= 0
    ensures End(b, n) == 4 + TotalLength(Payloads(b)[..n])
  {
    hide Get16;
    if n > 0 {
      assert SlotOk(b, n - 1);
      EndIsTotal(b, n - 1);
      assert Payloads(b)[..n][..n - 1] == Payloads(b)[..n - 1] && Payloads(b)[..n][n - 1] == Slot(b, n - 1);
    }
  }

  /** A payload fits exactly if header, all payloads and four bytes per slot stay within the page. */
  lemma {:induction false} FitsIff(b: Image, payload: Str)
    requires PageOk(b)
    ensures Fits(b, payload) <==> 4 + TotalLength(Payloads(b)) + |payload| + 4 * (|Payloads(b)| + 1) <= PAGE_SIZE
  {
    hide Get16, TotalLength, Slot;
    EndIsTotal(b, SlotCount(b));
    assert Payloads(b)[..SlotCount(b)] == Payloads(b);
  }
}
