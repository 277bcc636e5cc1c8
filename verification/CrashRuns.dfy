/**
 Runs of the kernel down to the bytes of the file: a commit appends a frame, a compaction
 writes a new file, and a crash leaves some prefix of an append, or the old or the new file,
 for the next opening to recover from.
 */
module CrashRuns {
  import opened Strings
  import opened Mvcc
  import opened Compaction
  import opened Transactions
  import opened TransactionRuns
  import opened Wal
  import opened WalRecovery
  import VersionRuns

  /** The machine with the bytes of its file. */
  datatype FileSys<T(==)> = FileSys(sys: Sys<T>, file: Str)

  /** A step without a crash, or a crash: at rest, `n` bytes into the append of a commit, or
      during a compaction with the new file in place or not. */
  datatype FileLabel<T> =
    | Calm(l: Label<T>)
    | Crash
    | CrashAppending(t: T, n: nat)
    | CrashCompacting(renamed: bool)

  /** The file that holds the records. */
  function FileOf(c: Codec, recs: seq<Record>): Str
  {
    Header() + Frames(c, recs)
  }

  /** What a commit appends. */
  ghost function Appended<T>(c: Codec, s: Sys<T>, t: T): Str
    requires t in s.txs
  {
    if Persists(s, t) then EncodeRecord(c, CommitRecord(s, t)) else []
  }

  /** The file after a compaction, if its new file took the place of the old one. */
  ghost function CompactedFile<T>(c: Codec, b: FileSys<T>, renamed: bool): Str
  {
    if renamed then FileOf(c, Compact(b.sys, true).disk) else b.file
  }

  /** Opening a file: a database with the records found, or an error. */
  ghost function OpenFile<T>(c: Codec, file: Str): Option<FileSys<T>>
  {
    match OpenSpec(c, file)
    case Failed(_) => None
    case Opened(recs, cut) => Some(FileSys(Sys(Mvcc.Replay(recs), MaxVersion(recs), map[], recs, recs, 0, []), cut))
  }

  ghost predicate CanStep<T>(c: Codec, b: FileSys<T>, l: FileLabel<T>)
  {
    match l
    case Calm(a) => !a.LCrash? && !a.LCrashInCommit? && !a.LCrashInCompact? && Enabled(b.sys, a)
    case Crash => true
    case CrashAppending(t, n) => t in b.sys.txs && n <= |Appended(c, b.sys, t)|
    case CrashCompacting(_) => true
  }

  /** One step; none if the file cannot be opened any more. */
  ghost function FileStep<T>(c: Codec, b: FileSys<T>, l: FileLabel<T>): Option<FileSys<T>>
    requires CanStep(c, b, l)
  {
    match l
    case Calm(a) =>
      var file :=
        match a
        case LCommit(t) => b.file + Appended(c, b.sys, t)
        case LCompact(renamed) => CompactedFile(c, b, renamed)
        case _ => b.file;
      Some(FileSys(Step(b.sys, a), file))
    case Crash => OpenFile(c, b.file)
    case CrashAppending(t, n) => OpenFile(c, b.file + Appended(c, b.sys, t)[..n])
    case CrashCompacting(renamed) => OpenFile(c, CompactedFile(c, b, renamed))
  }

  /** The step of the machine that this one amounts to. */
  ghost function Abstract<T>(c: Codec, b: FileSys<T>, l: FileLabel<T>): Label<T>
    requires CanStep(c, b, l)
  {
    match l
    case Calm(a) => a
    case Crash => LCrash
    case CrashAppending(t, n) => LCrashInCommit(t, n == |Appended(c, b.sys, t)|)
    case CrashCompacting(renamed) => LCrashInCompact(renamed)
  }

  ghost predicate FileInv<T>(c: Codec, b: FileSys<T>)
  {
    Inv(b.sys) && b.file == FileOf(c, b.sys.disk)
  }

  /** What a crash must find for the next opening to succeed: records JSON reads back and
      within the size limit, in the file as the crash leaves it. */
  ghost predicate Readable<T>(c: Codec, b: FileSys<T>, l: FileLabel<T>)
    requires CanStep(c, b, l)
  {
    match l
    case Calm(_) => true
    case Crash => AllStorable(c, b.sys.disk)
    case CrashAppending(t, _) => AllStorable(c, b.sys.disk) && (Persists(b.sys, t) ==> Storable(c, CommitRecord(b.sys, t)))
    case CrashCompacting(renamed) => AllStorable(c, Compact(b.sys, renamed).disk)
  }

  // ------------------------------------------------------------- refinement

  lemma {:induction false} OpensTo<T>(c: Codec, s: Sys<T>)
    requires AllStorable(c, s.disk)
    ensures OpenFile<T>(c, FileOf(c, s.disk)) == Some(FileSys(Reopen(s), FileOf(c, s.disk)))
  {
    hide OpenSpec, Frames, Header, Storable;
    Reopens(c, s.disk);
  }

  lemma {:induction false} CompactDisk<T>(s: Sys<T>)
    ensures Compact(s, false).disk == s.disk
  {
  }

  lemma {:induction false} CrashRefines<T>(c: Codec, b: FileSys<T>, l: FileLabel<T>)
    requires FileInv(c, b) && CanStep(c, b, l) && !l.Calm? && Readable(c, b, l)
    ensures FileStep(c, b, l).Some?
    ensures FileStep(c, b, l).value.sys == Step(b.sys, Abstract(c, b, l))
    ensures FileStep(c, b, l).value.file == FileOf(c, FileStep(c, b, l).value.sys.disk)
  {
    hide Inv, OpenFile, Compact, Frames, Header, EncodeRecord, Storable, CommitRecord, Persists;
    match l {
      case Crash =>
        OpensTo(c, b.sys);
      case CrashAppending(t, n) =>
        if Persists(b.sys, t) {
          TornRefines(c, b, t, n);
        } else {
          assert b.file + [] == b.file;
          OpensTo(c, b.sys);
        }
      case CrashCompacting(renamed) =>
        if renamed {
          OpensTo(c, Compact(b.sys, true));
        } else {
          CompactDisk(b.sys);
          OpensTo(c, Compact(b.sys, false));
        }
    }
  }

  lemma {:induction false} TornRefines<T>(c: Codec, b: FileSys<T>, t: T, n: nat)
    requires b.file == FileOf(c, b.sys.disk) && t in b.sys.txs && Persists(b.sys, t)
    requires AllStorable(c, b.sys.disk) && Storable(c, CommitRecord(b.sys, t)) && n <= |Appended(c, b.sys, t)|
    ensures var r := CommitRecord(b.sys, t);
            var s' := if n == |Appended(c, b.sys, t)| then b.sys.(disk := b.sys.disk + [r]) else b.sys;
            OpenFile<T>(c, b.file + Appended(c, b.sys, t)[..n]) == Some(FileSys(Reopen(s'), FileOf(c, s'.disk)))
  {
    hide OpenSpec, Frames, Header, Storable, EncodeRecord, CommitRecord, Persists;
    CrashInAppend(c, b.sys.disk, CommitRecord(b.sys, t), n);
  }

  /** While the records a crash leaves are readable, the bytes follow the machine. */
  lemma {:induction false} FileStepRefines<T>(c: Codec, b: FileSys<T>, l: FileLabel<T>)
    requires FileInv(c, b) && CanStep(c, b, l) && Readable(c, b, l)
    ensures FileStep(c, b, l).Some? && FileInv(c, FileStep(c, b, l).value)
    ensures Enabled(b.sys, Abstract(c, b, l)) && FileStep(c, b, l).value.sys == Step(b.sys, Abstract(c, b, l))
  {
    hide Inv, Frames, Header, EncodeRecord, CommitRecord, Storable, OpenSpec;
    if l.Calm? {
      StepInv(b.sys, l.l);
      CalmFile(c, b, l.l);
    } else {
      CrashRefines(c, b, l);
      StepInv(b.sys, Abstract(c, b, l));
    }
  }

  lemma {:induction false} CalmFile<T>(c: Codec, b: FileSys<T>, a: Label<T>)
    requires b.file == FileOf(c, b.sys.disk) && CanStep(c, b, Calm(a))
    ensures FileStep(c, b, Calm(a)).value.file == FileOf(c, Step(b.sys, a).disk)
  {
    hide Frames, Header, EncodeRecord, CommitRecord, CompactRecords, PruneHistory, Oldest, Persists;
    match a {
      case LCommit(t) =>
        if Persists(b.sys, t) {
          FramesSnoc(c, b.sys.disk, CommitRecord(b.sys, t));
          assert Header() + (Frames(c, b.sys.disk) + EncodeRecord(c, CommitRecord(b.sys, t)))
              == b.file + EncodeRecord(c, CommitRecord(b.sys, t));
        } else {
          assert b.file + [] == b.file;
        }
      case _ =>
    }
  }

  // ------------------------------------------------------------------- runs

  /** Every step can be taken, and every crash finds readable records. */
  ghost predicate SafeRun<T>(c: Codec, b: FileSys<T>, ls: seq<FileLabel<T>>)
    decreases |ls|
  {
    ls == [] ||
    (CanStep(c, b, ls[0]) && Readable(c, b, ls[0]) &&
     match FileStep(c, b, ls[0]) case None => false case Some(b') => SafeRun(c, b', ls[1..]))
  }

  ghost function FileRun<T>(c: Codec, b: FileSys<T>, ls: seq<FileLabel<T>>): FileSys<T>
    requires SafeRun(c, b, ls)
    decreases |ls|
  {
    if ls == [] then b else FileRun(c, FileStep(c, b, ls[0]).value, ls[1..])
  }

  ghost function AbstractRun<T>(c: Codec, b: FileSys<T>, ls: seq<FileLabel<T>>): seq<Label<T>>
    requires SafeRun(c, b, ls)
    decreases |ls|
  {
    if ls == [] then [] else
      [Abstract(c, b, ls[0])] + AbstractRun(c, FileStep(c, b, ls[0]).value, ls[1..])
  }

  /** A safe run on bytes is a run of the machine. */
  lemma {:induction false} FileRunRefines<T>(c: Codec, b: FileSys<T>, ls: seq<FileLabel<T>>)
    requires FileInv(c, b) && SafeRun(c, b, ls)
    ensures FileInv(c, FileRun(c, b, ls))
    ensures Legal(b.sys, AbstractRun(c, b, ls)) && FileRun(c, b, ls).sys == Run(b.sys, AbstractRun(c, b, ls))
    decreases |ls|
  {
    hide FileInv, CanStep, Readable, FileStep, Step, Abstract;
    if ls != [] {
      FileStepRefines(c, b, ls[0]);
      var b' := FileStep(c, b, ls[0]).value;
      FileRunRefines(c, b', ls[1..]);
      VersionRuns.RunCons(b.sys, Abstract(c, b, ls[0]), AbstractRun(c, b', ls[1..]));
    }
  }

  /** Durability on bytes: after any run with crashes at any byte, if every crash found
      records that JSON reads back and that are within the size limit, the database shows
      exactly the committed write sets applied in order. */
  lemma {:induction false} DurableOnBytes<T>(c: Codec, ls: seq<FileLabel<T>>)
    requires SafeRun(c, FileSys(Fresh<T>(), FileOf(c, [])), ls)
    ensures var b := FileSys(Fresh<T>(), FileOf(c, []));
            var end := FileRun(c, b, ls);
            && end.file == FileOf(c, end.sys.disk)
            && Legal(b.sys, AbstractRun(c, b, ls))
            && Shows(end.sys, RunEffect(b.sys, AbstractRun(c, b, ls), map[]))
  {
    hide Inv, SafeRun, FileRun, AbstractRun, Legal, Run, RunEffect, Shows, FileOf;
    var b := FileSys(Fresh<T>(), FileOf(c, []));
    FreshInv<T>();
    FreshShows<T>();
    FileRunRefines(c, b, ls);
    Durable(b.sys, AbstractRun(c, b, ls), map[]);
  }

  // ------------------------------------------------- exactly when it reopens

  /** A crash at rest reopens to the same records exactly if all of them are within the limit. */
  lemma {:induction false} CrashKeepsIff<T>(c: Codec, s: Sys<T>)
    requires AllJson(c, s.disk)
    ensures OpenFile<T>(c, FileOf(c, s.disk)) == Some(FileSys(Reopen(s), FileOf(c, s.disk))) <==> AllWithin(c, s.disk)
  {
    hide OpenSpec, Frames, Header, JsonReads, WithinLimit;
    ReopensIffWithinLimit(c, s.disk);
  }

  /** A crash after a compaction replaced the file reopens to the compacted records exactly
      if every record the compaction wrote is within the limit. */
  lemma {:induction false} CompactionKeepsIff<T>(c: Codec, b: FileSys<T>)
    requires AllJson(c, Compact(b.sys, true).disk)
    ensures FileStep(c, b, CrashCompacting(true)) ==
              Some(FileSys(Reopen(Compact(b.sys, true)), FileOf(c, Compact(b.sys, true).disk)))
            <==> AllWithin(c, Compact(b.sys, true).disk)
  {
    hide OpenFile, FileOf, AllJson, AllWithin, Compact, Reopen;
    CrashKeepsIff(c, Compact(b.sys, true));
  }

  /** With no older reader a compaction writes one record for all live keys.  If that one is
      over the limit, a restart finds an empty database or none, whatever was committed. */
  lemma {:induction false} SnapshotLost<T>(c: Codec, b: FileSys<T>)
    requires Oldest(b.sys) == b.sys.version && AllJson(c, Compact(b.sys, true).disk)
    requires !AllWithin(c, Compact(b.sys, true).disk)
    ensures FileStep(c, b, CrashCompacting(true)) in {None, Some(FileSys(Fresh<T>(), Header()))}
  {
    hide OpenSpec, Frames, Header, JsonReads, WithinLimit, LiveOps, PruneHistory, Oldest;
    var recs := Compact(b.sys, true).disk;
    assert |recs| <= 1;
    var i := SomeFirstOver(c, recs);
    ReopensIffWithinLimit(c, recs);
    assert LostFrom(c, recs, i) && recs[..i] == [];
    NoFrames(c);
  }

  lemma {:induction false} NoFrames(c: Codec)
    ensures Header() + Frames(c, []) == Header()
  {
  }

  // --------------------------------------------------------- a run that loses all

  /** Bytes of a text one longer than the limit. */
  function LongText(): Str
  {
    seq(MAX_RECORD + 1, _ => 3)
  }

  /** An encoding in which two records are short and a third is over the limit. */
  function SizedCodec(a: Record, b: Record, both: Record): Codec
  {
    Codec(
      (r: Record) => if r == a then [1] else if r == b then [2] else LongText(),
      (p: Str) => if p == [1] then Some(a) else if p == [2] then Some(b) else if |p| == MAX_RECORD + 1 then Some(both) else None,
      (p: Str) => 0)
  }

  lemma {:induction false} SizedCodecFacts(a: Record, b: Record, both: Record)
    requires a != b && a != both && b != both
    ensures var c := SizedCodec(a, b, both);
            && Storable(c, a) && Storable(c, b) && JsonReads(c, both) && !WithinLimit(c, both)
  {
    assert |LongText()| == MAX_RECORD + 1;
    assert |[1]| == 1 && |[2]| == 1 && [1][0] != [2][0];
  }

  /** Two commits of different keys, each within the limit, a compaction and a restart: both
      values were there, and a restart before the compaction would have kept them, but after
      it the database is empty or does not open. */
  lemma {:induction false} CompactionLosesCommits<T>(t: T, k: Key, v: Str, q: Key, w: Str)
    requires k != q
    ensures Legal(Fresh<T>(), TwoPuts(t, k, v, q, w))
    ensures exists c: Codec ::
              var s := Run(Fresh<T>(), TwoPuts(t, k, v, q, w));
              && AllStorable(c, s.disk) && AllJson(c, Compact(s, true).disk)
              && OpenFile<T>(c, FileOf(c, s.disk)) == Some(FileSys(Reopen(s), FileOf(c, s.disk)))
              && Shows(s, map[k := v, q := w])
              && FileStep(c, FileSys(s, FileOf(c, s.disk)), CrashCompacting(true)) in {None, Some(FileSys(Fresh<T>(), Header()))}
  {
    hide Inv, View, Run, Legal, Compact, Oldest, SizedCodec, Storable, JsonReads, WithinLimit, OpenFile, FileOf, Reopen, Header;
    TwoPutsRun(t, k, v, q, w);
    var s := Run(Fresh<T>(), TwoPuts(t, k, v, q, w));
    var a, b := Record(1, [Op(k, v, false)]), Record(2, [Op(q, w, false)]);
    var both := OneSnapshot(s, k, v, q, w);
    var c := SizedCodec(a, b, both);
    SizedCodecFacts(a, b, both);
    assert !WithinLimit(c, Compact(s, true).disk[0]);
    OpensTo(c, s);
    VersionRuns.NoReaders(s);
    SnapshotLost(c, FileSys(s, FileOf(c, s.disk)));
  }

  function TwoPuts<T>(t: T, k: Key, v: Str, q: Key, w: Str): seq<Label<T>>
  {
    VersionRuns.Alone(t, Op(k, v, false)) + VersionRuns.Alone(t, Op(q, w, false))
  }

  lemma {:induction false} TwoPutsRun<T>(t: T, k: Key, v: Str, q: Key, w: Str)
    ensures Legal(Fresh<T>(), TwoPuts(t, k, v, q, w))
    ensures var s := Run(Fresh<T>(), TwoPuts(t, k, v, q, w));
            && Inv(s) && VersionRuns.Counted(s) && s.txs == map[] && s.version == 2
            && Shows(s, map[k := v][q := w])
            && s.disk == [Record(1, [Op(k, v, false)]), Record(2, [Op(q, w, false)])]
  {
    hide Inv, View, Step;
    var f, a, b := Fresh<T>(), Op(k, v, false), Op(q, w, false);
    FreshInv<T>();
    FreshShows<T>();
    VersionRuns.FreshCounted<T>();
    VersionRuns.AloneRuns(f, t, a, map[]);
    var s := Run(f, VersionRuns.Alone(t, a));
    VersionRuns.AloneRuns(s, t, b, map[k := v]);
    VersionRuns.RunConcat(f, VersionRuns.Alone(t, a), VersionRuns.Alone(t, b));
    VersionRuns.RunCounted(f, VersionRuns.Alone(t, a) + VersionRuns.Alone(t, b));
  }

  /** The one record a compaction of both keys writes. */
  lemma {:induction false} OneSnapshot<T>(s: Sys<T>, k: Key, v: Str, q: Key, w: Str) returns (both: Record)
    requires k != q && Inv(s) && VersionRuns.Counted(s) && s.txs == map[] && s.version == 2 && Shows(s, map[k := v, q := w])
    ensures Compact(s, true).disk == [both]
    ensures both != Record(1, [Op(k, v, false)]) && both != Record(2, [Op(q, w, false)])
  {
    hide HistoryAgrees, CommitsOk, LogOk, View, LiveOps, PruneHistory, Oldest, LastWrite, VersionRuns.Counted;
    VersionRuns.NoReaders(s);
    assert View(s.log, s.version, k) == Lookup(map[k := v, q := w], k) == Some(v);
    VersionRuns.LiveIsWritten(s, k);
    var s' := Compact(s, true);
    var recs := s'.disk;
    both := recs[0];
    CompactInv(s, true);
    assert DiskAgrees(s'.disk, s'.log, s'.low);
    assert View(recs, 2, k) == View(s.log, 2, k);
    SeesOnly(recs, Record(2, [Op(q, w, false)]), k);
  }

  lemma {:induction false} SeesOnly(recs: seq<Record>, r: Record, k: Key)
    requires r.ops != [] && |r.ops| == 1 && r.ops[0].key != k
    ensures recs == [r] ==> forall v: nat :: View(recs, v, k) == None
  {
    if recs == [r] {
      forall v: nat ensures View(recs, v, k) == None {
        assert recs[..0] == [] && r.ops[..0] == [];
        assert LastOp(r.ops, k) == None;
      }
    }
  }
}
