/**
 Whole runs of flash_write_long_val and flash_read_long_val of firmware/drivers/8258/flash.c:
 calls in any order, each of which power loss may cut off between two device operations; when a
 record is torn, when an overflowed sector recovers, and when records are lost for good.
 */
module RecordRuns {
  import opened Arith
  import opened Bits
  import opened NorFlash
  import opened SectorLog
  import opened FlashWords
  import opened ValueStore
  import opened RecordStore

  // ----- specification -----

  /** A call that is cut off by power loss after at most upto of its device operations. */
  datatype Call =
    | Put(rec: seq<Byte>, upto: nat)
    | Get(upto: nat)

  /** How many records are used up before the one that is held, and what is held. */
  datatype Log = Log(used: nat, cell: Found)

  /** A record of which only the first room bytes were programmed. */
  function Torn(rec: seq<Byte>, room: nat): (r: seq<Byte>)
    ensures |r| == |rec|
    ensures room >= |rec| ==> r == rec
  {
    if room < |rec| then rec[..room] + seq(|rec| - room, _ => 0xff) else rec
  }

  /** Bytes from record slot n to the end of its page. */
  function SlotRoom(d: nat, n: nat): (r: nat)
    ensures 1 <= r <= PAGE
  {
    PAGE - 4 * (n * d) % PAGE
  }

  /**
   Programming rec into slot n: one operation, or two when the slot crosses the end of a page,
   of which k were done. Past the capacity nothing is ever found again.
   */
  function Filled(n: nat, rec: seq<Byte>, k: nat, d: nat): (st: Log) {
    if n >= Capacity(d) then Log(Capacity(d), Nothing)
    else if k == 0 then Log(n, Nothing)
    else if k == 1 then Log(n, Record(Torn(rec, SlotRoom(d, n))))
    else Log(n, Record(rec))
  }

  function NextLog(st: Log, c: Call, d: nat): (r: Log) {
    match c
    case Put(rec, upto) =>
      if upto == 0 then st
      else if st.cell == Nothing then Filled(st.used, rec, upto, d)
      else Filled(st.used + 1, rec, upto - 1, d)
    case Get(upto) =>
      if upto > 0 && st.cell == Nothing && st.used * d >= READ_ERASE_LIMIT then Log(0, Nothing) else st
  }

  function After(st: Log, cs: seq<Call>, d: nat): (r: Log) {
    if cs == [] then st else NextLog(After(st, cs[..|cs| - 1], d), cs[|cs| - 1], d)
  }

  const BLANK := Log(0, Nothing)

  predicate Fits(c: Call, flag: Word, d: nat) {
    c.Put? ==> StorableRecord(c.rec, flag, d)
  }

  predicate AllFit(cs: seq<Call>, flag: Word, d: nat) {
    forall k :: 0 <= k < |cs| ==> Fits(cs[k], flag, d)
  }

  // ----- calls on the device -----

  function CutPut(m: seq<Byte>, adr: nat, flag: Word, rec: seq<Byte>, upto: nat): (r: seq<Byte>)
    requires |m| == SIZE && IsSector(adr) && |rec| < 0x100
    ensures |r| == SIZE
  {
    Replay(m, CutAfter(RecordOps(m, adr, flag, rec), upto))
  }

  function CallStep(m: seq<Byte>, adr: nat, flag: Word, d: nat, c: Call): (r: seq<Byte>)
    requires |m| == SIZE && IsSector(adr) && 1 <= d < 64 && Fits(c, flag, d)
    ensures |r| == SIZE
  {
    match c
    case Put(rec, upto) => CutPut(m, adr, flag, rec, upto)
    case Get(upto) => if upto > 0 && ReadErases(m, adr, flag, 4 * d) then EraseAt(m, adr) else m
  }

  function CallRun(m: seq<Byte>, adr: nat, flag: Word, d: nat, cs: seq<Call>): (r: seq<Byte>)
    requires |m| == SIZE && IsSector(adr) && 1 <= d < 64 && AllFit(cs, flag, d)
    ensures |r| == SIZE
  {
    if cs == [] then m
    else
      assert Fits(cs[|cs| - 1], flag, d);
      CallStep(CallRun(m, adr, flag, d, cs[..|cs| - 1]), adr, flag, d, cs[|cs| - 1])
  }

  /** A write that is not cut off is the whole of flash_write_long_val. */
  lemma WholePut(m: seq<Byte>, adr: nat, flag: Word, rec: seq<Byte>, upto: nat)
    requires |m| == SIZE && IsSector(adr) && |rec| < 0x100 && upto >= |RecordOps(m, adr, flag, rec)|
    ensures CutPut(m, adr, flag, rec, upto) == RecordWritten(m, adr, flag, rec)
  {
    OpsDoWrite(m, adr, flag, rec);
  }

  // ----- what the sector looks like -----

  /** n invalid records, erased after them: a blank sector, or one between the mark and the record. */
  ghost predicate Ready(m: seq<Byte>, adr: nat, flag: Word, d: nat, n: nat)
    requires |m| == SIZE && IsSector(adr) && 1 <= d < 64
  {
    && n < Capacity(d)
    && (forall k :: 0 <= k < n ==> Heads(m, adr, d)[k] == flag)
    && BlankFrom(m, adr, 4 * (n * d))
  }

  ghost predicate Shows(m: seq<Byte>, adr: nat, flag: Word, d: nat, st: Log)
    requires |m| == SIZE && IsSector(adr) && 1 <= d < 64
  {
    match st.cell
    case Record(rec) => Shelf(m, adr, flag, d, st.used + 1, rec)
    case Nothing =>
      if st.used < Capacity(d) then Ready(m, adr, flag, d, st.used)
      else st.used == Capacity(d) && Spent(m, adr, flag, d)
  }

  lemma ReadyScan(m: seq<Byte>, adr: nat, flag: Word, d: nat, n: nat)
    requires |m| == SIZE && IsSector(adr) && 1 <= d < 64 && flag != ERASED && Ready(m, adr, flag, d, n)
    ensures var hs := Heads(m, adr, d); Scan(hs, flag) == n && CellOf(hs, flag) == Empty
  {
    var hs := Heads(m, adr, d);
    forall j | n <= j < Capacity(d)
      ensures hs[j] == ERASED
    {
      SlotFits(d, j);
      SlotOrder(d, n, j);
    }
    LayoutMeans(hs, flag, n, ERASED);
  }

  /** What a call finds. */
  lemma ShowsScan(m: seq<Byte>, adr: nat, flag: Word, d: nat, st: Log)
    requires |m| == SIZE && IsSector(adr) && 1 <= d < 64 && flag != ERASED && Shows(m, adr, flag, d, st)
    ensures var hs := Heads(m, adr, d);
            && Scan(hs, flag) == st.used <= Capacity(d)
            && (CellOf(hs, flag).Live? <==> st.cell != Nothing)
  {
    match st.cell {
      case Record(rec) => ShelfScan(m, adr, flag, d, st.used + 1, rec);
      case Nothing =>
        if st.used < Capacity(d) {
          ReadyScan(m, adr, flag, d, st.used);
        } else {
          ScanIs(Heads(m, adr, d), flag, Capacity(d));
        }
    }
  }

  lemma ShowsMeans(m: seq<Byte>, adr: nat, flag: Word, d: nat, st: Log)
    requires |m| == SIZE && IsSector(adr) && 1 <= d < 64 && flag != ERASED && Shows(m, adr, flag, d, st)
    ensures Reading(m, adr, flag, 4 * d) == st.cell
    ensures ReadErases(m, adr, flag, 4 * d) <==> st.cell == Nothing && st.used * d >= READ_ERASE_LIMIT
  {
    hide Heads, Capacity, ReadErases, Shelf, Ready, Spent;
    ShowsScan(m, adr, flag, d, st);
    ReadCases(m, adr, flag, d);
    if st.cell != Nothing {
      ReadShelf(m, adr, flag, d, st.used + 1, st.cell.bytes);
    }
  }

  // ----- one write -----

  /** Programming part of a record onto any cells is programming the torn record. */
  lemma PartIsTorn(m: seq<Byte>, a: nat, rec: seq<Byte>, room: nat)
    requires |m| == SIZE && a + |rec| <= SIZE && room <= |rec|
    ensures FlatProgram(m, a, rec[..room]) == FlatProgram(m, a, Torn(rec, room))
  {
    hide FlatProgram;
    FlatProgramEffect(m, a, rec[..room]);
    FlatProgramEffect(m, a, Torn(rec, room));
    forall x | 0 <= x < SIZE
      ensures FlatProgram(m, a, rec[..room])[x] == FlatProgram(m, a, Torn(rec, room))[x]
    {
      ErasedKeepsByte(m[x]);
    }
  }

  /** The device operations of a record: one, or two when it crosses the end of a page. */
  lemma RecordChunks(a: nat, rec: seq<Byte>)
    requires 1 <= |rec| < PAGE
    ensures Chunks(a, rec) == if |rec| <= Room(a) then [Program(a, rec)]
                              else [Program(a, rec[..Room(a)]),
                                    Program(Advance(a, Room(a)), rec[Room(a)..])]
  {
  }

  /** The bytes of a record that are programmed when it is cut after k operations. */
  function Part(a: nat, rec: seq<Byte>, k: nat): (r: seq<Byte>)
    ensures |r| <= |rec|
  {
    if k == 0 then [] else if k == 1 && Room(a) < |rec| then rec[..Room(a)] else rec
  }

  lemma CutChunks(m: seq<Byte>, a: nat, rec: seq<Byte>, k: nat)
    requires |m| == SIZE && 1 <= |rec| < PAGE
    ensures Replay(m, CutAfter(Chunks(a, rec), k)) == FlatProgram(m, a, Part(a, rec, k))
  {
    hide FlatProgram, PageProgram, Replay, Chunks;
    RecordChunks(a, rec);
    if k == 0 {
      CutNothing(m, Chunks(a, rec));
      NothingLeft(m, a);
    } else if k == 1 && Room(a) < |rec| {
      assert CutAfter(Chunks(a, rec), 1) == [Program(a, rec[..Room(a)])];
      ReplayOne(m, Program(a, rec[..Room(a)]));
      PageProgramIsFlat(m, a, rec[..Room(a)]);
    } else {
      ChunksRefineFlat(m, a, rec);
    }
  }

  lemma RoomOfSlot(adr: nat, d: nat, n: nat)
    requires IsSector(adr)
    ensures Room(RecordSlot(adr, d, n)) == SlotRoom(d, n) >= 4
  {
    var x := 4 * (n * d);
    assert adr == adr / SECTOR * 16 * PAGE;
    ModuloPlusMultiple(x, adr / SECTOR * 16, PAGE);
  }

  /** The first word of a record never crosses a page, so a torn record still looks valid. */
  lemma TornFits(rec: seq<Byte>, room: nat, flag: Word, d: nat)
    requires StorableRecord(rec, flag, d) && room >= 4
    ensures StorableRecord(Torn(rec, room), flag, d)
  {
    hide And, AndByte, Storable;
    assert Torn(rec, room)[..4] == rec[..4];
  }

  lemma FillReady(m: seq<Byte>, adr: nat, flag: Word, d: nat, n: nat, rec: seq<Byte>)
    requires |m| == SIZE && IsSector(adr) && 1 <= d < 64 && Ready(m, adr, flag, d, n)
    requires StorableRecord(rec, flag, d)
    ensures var r := FlatProgram(m, RecordSlot(adr, d, n), rec);
            Shelf(r, adr, flag, d, n + 1, rec) && SameOutside(m, r, adr, SECTOR)
  {
    hide FlatProgram, AndByte, Capacity;
    AppendRecord(m, adr, d, n, rec);
    var hs, hr := Heads(m, adr, d), Heads(FlatProgram(m, RecordSlot(adr, d, n), rec), adr, d);
    forall k | 0 <= k < n
      ensures hr[k] == flag
    {
      assert hr[k] == hr[..n][k] == hs[..n][k];
    }
  }

  lemma ReadyFits(m: seq<Byte>, adr: nat, flag: Word, d: nat, n: nat)
    requires |m| == SIZE && IsSector(adr) && 1 <= d < 64 && Ready(m, adr, flag, d, n)
    ensures n < Capacity(d) && RecordSlot(adr, d, n) + 4 * d <= SIZE
  {
    SlotFits(d, n);
  }

  /** Programming the next record, cut anywhere. */
  lemma FillStep(m: seq<Byte>, adr: nat, flag: Word, d: nat, n: nat, rec: seq<Byte>, k: nat)
    requires |m| == SIZE && IsSector(adr) && 1 <= d < 64 && Ready(m, adr, flag, d, n)
    requires StorableRecord(rec, flag, d)
    ensures var r := Replay(m, CutAfter(Chunks(RecordSlot(adr, d, n), rec), k));
            Shows(r, adr, flag, d, Filled(n, rec, k, d)) && SameOutside(m, r, adr, SECTOR)
  {
    hide FlatProgram, Replay, Chunks, Shelf, Ready, Spent, AndByte, Storable;
    var a, room := RecordSlot(adr, d, n), SlotRoom(d, n);
    ReadyFits(m, adr, flag, d, n);
    RoomOfSlot(adr, d, n);
    CutChunks(m, a, rec, k);
    if k == 0 {
      NothingLeft(m, a);
    } else if k == 1 {
      if room < |rec| {
        PartIsTorn(m, a, rec, room);
      }
      TornFits(rec, room, flag, d);
      FillReady(m, adr, flag, d, n, Torn(rec, room));
    } else {
      FillReady(m, adr, flag, d, n, rec);
    }
  }

  /** How many bytes from the start of the sector on the store may ever touch. */
  function Extent(d: nat): (n: nat) {
    4 * ((Capacity(d) + 1) * d)
  }

  /** All of the sector, and no more exactly when d divides 1024. */
  lemma ExtentExactly(d: nat)
    requires 1 <= d < 64
    ensures Extent(d) >= SECTOR
    ensures Extent(d) == SECTOR <==> SLOTS % d == 0
  {
    OverflowSlotFits(d);
    assert (Capacity(d) + 1) * d == Capacity(d) * d + d;
  }

  lemma WiderSame(m: seq<Byte>, r: seq<Byte>, adr: nat, d: nat)
    requires |m| == |r| == SIZE && 1 <= d < 64 && SameOutside(m, r, adr, SECTOR)
    ensures SameOutside(m, r, adr, Extent(d))
  {
    ExtentExactly(d);
  }

  /** The heads do not change when anything is programmed past them. */
  lemma SpentStep(m: seq<Byte>, adr: nat, flag: Word, d: nat, rec: seq<Byte>, k: nat)
    requires |m| == SIZE && IsSector(adr) && 1 <= d < 64 && Spent(m, adr, flag, d) && |rec| == 4 * d
    ensures var r := Replay(m, CutAfter(Chunks(RecordSlot(adr, d, Capacity(d)), rec), k));
            && Spent(r, adr, flag, d)
            && (adr + Extent(d) <= SIZE ==> SameOutside(m, r, adr, Extent(d)))
  {
    hide FlatProgram, Replay, Chunks, Part, Extent, CutAfter, SameOutside, Heads;
    var a := RecordSlot(adr, d, Capacity(d));
    var part := Part(a, rec, k);
    CutChunks(m, a, rec, k);
    HeadsBeforeLastSlot(m, adr, d, part);
    if adr + Extent(d) <= SIZE {
      StaysInExtent(m, adr, d, part);
    }
  }

  lemma StaysInExtent(m: seq<Byte>, adr: nat, d: nat, part: seq<Byte>)
    requires |m| == SIZE && |part| <= 4 * d && adr + Extent(d) <= SIZE
    ensures SameOutside(m, FlatProgram(m, RecordSlot(adr, d, Capacity(d)), part), adr, Extent(d))
  {
    hide FlatProgram, AndByte, Capacity;
    assert (Capacity(d) + 1) * d == Capacity(d) * d + d;
    FlatProgramEffect(m, RecordSlot(adr, d, Capacity(d)), part);
  }

  /** The operations of a write: the mark of the live record if there is one, then the new one. */
  lemma OpsShown(m: seq<Byte>, adr: nat, flag: Word, d: nat, st: Log, rec: seq<Byte>)
    requires |m| == SIZE && IsSector(adr) && 1 <= d < 64 && flag != ERASED && Shows(m, adr, flag, d, st)
    requires StorableRecord(rec, flag, d)
    ensures RecordOps(m, adr, flag, rec)
         == if st.cell == Nothing then Chunks(RecordSlot(adr, d, st.used), rec)
            else [Program(RecordSlot(adr, d, st.used), BytesOf(flag))] + Chunks(RecordSlot(adr, d, st.used + 1), rec)
  {
    hide Chunks, FlatProgram, AndByte, Scan, Capacity, Shows, Heads;
    ShowsScan(m, adr, flag, d, st);
    WriteCases(m, adr, flag, rec);
    AlignedInSector(adr, st.used * d);
    AlignedFits(RecordSlot(adr, d, st.used));
    WordIsOneChunk(RecordSlot(adr, d, st.used), flag);
  }

  /** Invalidating the live record in slot n - 1. */
  lemma MarkStep(m: seq<Byte>, adr: nat, flag: Word, d: nat, n: nat, old': seq<Byte>, rec: seq<Byte>)
    requires |m| == SIZE && IsSector(adr) && 1 <= d < 64 && flag != ERASED && 0 < n
    requires Shelf(m, adr, flag, d, n, old') && |rec| == 4 * d
    ensures var r := Apply(m, Program(RecordSlot(adr, d, n - 1), BytesOf(flag)));
            && n <= Capacity(d)
            && (if n < Capacity(d) then Ready(r, adr, flag, d, n) else Spent(r, adr, flag, d))
            && SameOutside(m, r, adr, SECTOR)
  {
    hide FlatProgram, PageProgram, AndByte, Heads, RecordWritten, IsSector;
    MarkShelf(m, adr, flag, d, n, old', rec);
    AlignedInSector(adr, (n - 1) * d);
    AlignedFits(RecordSlot(adr, d, n - 1));
    ProgramWhole(m, RecordSlot(adr, d, n - 1), flag);
  }

  /** After the mark, or without one: programming the record into slot n, cut anywhere. */
  lemma PlaceStep(m: seq<Byte>, adr: nat, flag: Word, d: nat, n: nat, rec: seq<Byte>, k: nat)
    requires |m| == SIZE && IsSector(adr) && 1 <= d < 64 && flag != ERASED
    requires Shows(m, adr, flag, d, Log(n, Nothing)) && StorableRecord(rec, flag, d)
    ensures var r, st := Replay(m, CutAfter(Chunks(RecordSlot(adr, d, n), rec), k)), Filled(n, rec, k, d);
            && Shows(r, adr, flag, d, st)
            && (st.used < Capacity(d) ==> SameOutside(m, r, adr, SECTOR))
            && (adr + Extent(d) <= SIZE ==> SameOutside(m, r, adr, Extent(d)))
  {
    hide Replay, Chunks, Shelf, Ready, Spent, StorableRecord, CutAfter, Torn, Capacity, Extent;
    if n < Capacity(d) {
      FillStep(m, adr, flag, d, n, rec, k);
      WiderSame(m, Replay(m, CutAfter(Chunks(RecordSlot(adr, d, n), rec), k)), adr, d);
    } else {
      RecordLength(rec, flag, d);
      SpentStep(m, adr, flag, d, rec, k);
    }
  }

  lemma RecordLength(rec: seq<Byte>, flag: Word, d: nat)
    requires StorableRecord(rec, flag, d)
    ensures |rec| == 4 * d
  {
  }

  /** A write cut off anywhere does to the sector what the specification does to its log. */
  lemma PutStep(m: seq<Byte>, adr: nat, flag: Word, d: nat, st: Log, rec: seq<Byte>, upto: nat)
    requires |m| == SIZE && IsSector(adr) && 1 <= d < 64 && flag != ERASED && Shows(m, adr, flag, d, st)
    requires StorableRecord(rec, flag, d)
    ensures var r, st' := CutPut(m, adr, flag, rec, upto), NextLog(st, Put(rec, upto), d);
            && Shows(r, adr, flag, d, st')
            && (st'.used < Capacity(d) ==> SameOutside(m, r, adr, SECTOR))
            && (adr + Extent(d) <= SIZE ==> SameOutside(m, r, adr, Extent(d)))
  {
    hide Replay, Chunks, Shelf, Ready, Spent, StorableRecord, CutAfter, Filled, RecordOps, Extent, Apply;
    RecordLength(rec, flag, d);
    OpsShown(m, adr, flag, d, st, rec);
    if upto == 0 {
      CutNothing(m, RecordOps(m, adr, flag, rec));
    } else if st.cell == Nothing {
      PlaceStep(m, adr, flag, d, st.used, rec, upto);
    } else {
      var n := st.used + 1;
      var mark := Program(RecordSlot(adr, d, st.used), BytesOf(flag));
      var m' := Apply(m, mark);
      var r := Replay(m', CutAfter(Chunks(RecordSlot(adr, d, n), rec), upto - 1));
      MarkStep(m, adr, flag, d, n, st.cell.bytes, rec);
      CutCons(m, mark, Chunks(RecordSlot(adr, d, n), rec), upto);
      PlaceStep(m', adr, flag, d, n, rec, upto - 1);
      WiderSame(m, m', adr, d);
      if SameOutside(m', r, adr, SECTOR) {
        SameOutsideTransitive(m, m', r, adr, SECTOR);
      }
      if SameOutside(m', r, adr, Extent(d)) {
        SameOutsideTransitive(m, m', r, adr, Extent(d));
      }
    }
  }

  // ----- one read -----

  lemma ErasedIsReady(m: seq<Byte>, adr: nat, flag: Word, d: nat)
    requires |m| == SIZE && IsSector(adr) && 1 <= d < 64
    ensures Shows(EraseAt(m, adr), adr, flag, d, BLANK) && SameOutside(m, EraseAt(m, adr), adr, SECTOR)
  {
    assert SectorBase(adr) == adr;
    assert 0 * d == 0;
  }

  lemma GetStep(m: seq<Byte>, adr: nat, flag: Word, d: nat, st: Log, upto: nat)
    requires |m| == SIZE && IsSector(adr) && 1 <= d < 64 && flag != ERASED && Shows(m, adr, flag, d, st)
    ensures var r := CallStep(m, adr, flag, d, Get(upto));
            Shows(r, adr, flag, d, NextLog(st, Get(upto), d)) && SameOutside(m, r, adr, SECTOR)
  {
    hide Shows, ReadErases, EraseAt;
    ShowsMeans(m, adr, flag, d, st);
    ErasedIsReady(m, adr, flag, d);
  }

  // ----- runs -----

  /** The store never got past its capacity. */
  predicate NeverFull(st: Log, cs: seq<Call>, d: nat) {
    cs == [] || (NeverFull(st, cs[..|cs| - 1], d) && After(st, cs, d).used < Capacity(d))
  }

  lemma CallStepRefines(m: seq<Byte>, adr: nat, flag: Word, d: nat, st: Log, c: Call)
    requires |m| == SIZE && IsSector(adr) && 1 <= d < 64 && flag != ERASED && Shows(m, adr, flag, d, st)
    requires Fits(c, flag, d)
    ensures var r, st' := CallStep(m, adr, flag, d, c), NextLog(st, c, d);
            && Shows(r, adr, flag, d, st')
            && (st'.used < Capacity(d) ==> SameOutside(m, r, adr, SECTOR))
            && (adr + Extent(d) <= SIZE ==> SameOutside(m, r, adr, Extent(d)))
  {
    hide Shows, StorableRecord, NextLog, CutPut, Extent, Capacity, ReadErases, EraseAt;
    match c {
      case Put(rec, upto) => PutStep(m, adr, flag, d, st, rec, upto);
      case Get(upto) =>
        GetStep(m, adr, flag, d, st, upto);
        WiderSame(m, CallStep(m, adr, flag, d, c), adr, d);
    }
  }

  /**
   Power loss in the record store. Whatever calls are made and wherever each is cut off, the
   sector follows the specification, and a read finds what that holds. As long as the capacity is
   not passed no byte outside the sector changes, and none outside the slots ever does.
   */
  lemma {:induction false} RunRefinesLog(m: seq<Byte>, adr: nat, flag: Word, d: nat, st: Log, cs: seq<Call>)
    requires |m| == SIZE && IsSector(adr) && 1 <= d < 64 && flag != ERASED && Shows(m, adr, flag, d, st)
    requires AllFit(cs, flag, d)
    ensures var r := CallRun(m, adr, flag, d, cs);
            && Shows(r, adr, flag, d, After(st, cs, d))
            && Reading(r, adr, flag, 4 * d) == After(st, cs, d).cell
            && (NeverFull(st, cs, d) ==> SameOutside(m, r, adr, SECTOR))
            && (adr + Extent(d) <= SIZE ==> SameOutside(m, r, adr, Extent(d)))
  {
    hide Shows, StorableRecord, NextLog, CallStep, Extent, Capacity, Reading;
    if cs != [] {
      var front, c := cs[..|cs| - 1], cs[|cs| - 1];
      var before := CallRun(m, adr, flag, d, front);
      var r := CallStep(before, adr, flag, d, c);
      RunRefinesLog(m, adr, flag, d, st, front);
      CallStepRefines(before, adr, flag, d, After(st, front, d), c);
      if NeverFull(st, cs, d) {
        SameOutsideTransitive(m, before, r, adr, SECTOR);
      }
      if adr + Extent(d) <= SIZE {
        SameOutsideTransitive(m, before, r, adr, Extent(d));
      }
    }
    ShowsMeans(CallRun(m, adr, flag, d, cs), adr, flag, d, After(st, cs, d));
  }

  lemma BlankShows(m: seq<Byte>, adr: nat, flag: Word, d: nat)
    requires |m| == SIZE && IsSector(adr) && 1 <= d < 64 && BlankFrom(m, adr, 0)
    ensures Shows(m, adr, flag, d, BLANK)
  {
    assert 0 * d == 0;
  }

  /**
   One write in full, cut after any upto device operations. The record read back is the old one,
   none, or the new one, except in exactly one case: when the new record crosses the end of a
   page, a cut just before its last operation leaves it torn, and it is read as valid.
   */
  lemma CutRecordWrite(m: seq<Byte>, adr: nat, flag: Word, d: nat, n: nat, rec: seq<Byte>, dat: seq<Byte>, upto: nat)
    requires |m| == SIZE && IsSector(adr) && 1 <= d < 64 && flag != ERASED && n < Capacity(d)
    requires Shelf(m, adr, flag, d, n, rec) && StorableRecord(dat, flag, d)
    ensures var a, all := RecordSlot(adr, d, n), |RecordOps(m, adr, flag, dat)|;
            var got := Reading(CutPut(m, adr, flag, dat, upto), adr, flag, 4 * d);
            if upto >= all then got == Record(dat)
            else if upto == all - 1 && 4 * d > Room(a) then got == Record(Torn(dat, Room(a)))
            else got == if upto == 0 then Reading(m, adr, flag, 4 * d) else Nothing
  {
    hide Shelf, Shows, CutPut, RecordOps, Reading, StorableRecord, RecordSlot, SlotRoom;
    var st := ShelfLog(n, rec);
    ShelfShows(m, adr, flag, d, n, rec);
    ShowsMeans(m, adr, flag, d, st);
    RecordLength(dat, flag, d);
    OpsOnShelf(m, adr, flag, d, n, rec, dat);
    RoomOfSlot(adr, d, n);
    PutReads(m, adr, flag, d, st, dat, upto);
  }

  /** A write to a shelf has one operation for the record or two, after the mark if there is one. */
  lemma OpsOnShelf(m: seq<Byte>, adr: nat, flag: Word, d: nat, n: nat, rec: seq<Byte>, dat: seq<Byte>)
    requires |m| == SIZE && IsSector(adr) && 1 <= d < 64 && flag != ERASED
    requires Shelf(m, adr, flag, d, n, rec) && StorableRecord(dat, flag, d)
    ensures |dat| == 4 * d
         && |RecordOps(m, adr, flag, dat)|
            == (if n == 0 then 0 else 1) + if 4 * d > Room(RecordSlot(adr, d, n)) then 2 else 1
  {
    hide Shelf, Shows, RecordOps, Chunks, StorableRecord, RecordSlot;
    var st := ShelfLog(n, rec);
    RecordLength(dat, flag, d);
    ShelfShows(m, adr, flag, d, n, rec);
    OpsShown(m, adr, flag, d, st, dat);
    RecordChunks(RecordSlot(adr, d, n), dat);
  }

  lemma PutReads(m: seq<Byte>, adr: nat, flag: Word, d: nat, st: Log, rec: seq<Byte>, upto: nat)
    requires |m| == SIZE && IsSector(adr) && 1 <= d < 64 && flag != ERASED && Shows(m, adr, flag, d, st)
    requires StorableRecord(rec, flag, d)
    ensures Reading(CutPut(m, adr, flag, rec, upto), adr, flag, 4 * d) == NextLog(st, Put(rec, upto), d).cell
  {
    hide Shows, CutPut, Reading, NextLog;
    PutStep(m, adr, flag, d, st, rec, upto);
    ShowsMeans(CutPut(m, adr, flag, rec, upto), adr, flag, d, NextLog(st, Put(rec, upto), d));
  }

  /** The log of a shelf of n records. */
  function ShelfLog(n: nat, rec: seq<Byte>): (st: Log) {
    if n == 0 then BLANK else Log(n - 1, Record(rec))
  }

  lemma ShelfShows(m: seq<Byte>, adr: nat, flag: Word, d: nat, n: nat, rec: seq<Byte>)
    requires |m| == SIZE && IsSector(adr) && 1 <= d < 64 && Shelf(m, adr, flag, d, n, rec)
    ensures Shows(m, adr, flag, d, ShelfLog(n, rec))
  {
    if n == 0 {
      assert 0 * d == 0;
      BlankShows(m, adr, flag, d);
    }
  }

  // ----- torn records -----

  /** A torn record is the record itself exactly when only erased bytes were lost. */
  lemma TornExactly(rec: seq<Byte>, room: nat)
    ensures Torn(rec, room) == rec <==> forall x :: room <= x < |rec| ==> rec[x] == 0xff
  {
    if room < |rec| {
      var t := Torn(rec, room);
      forall x | room <= x < |rec|
        ensures t[x] == 0xff
      {
      }
      if forall x :: room <= x < |rec| ==> rec[x] == 0xff {
        assert t == rec;
      }
    }
  }

  /** Slot n of the records of d words crosses the end of a page. */
  predicate Crosses(d: nat, n: nat) {
    4 * d > SlotRoom(d, n)
  }

  lemma NoCrossing(d: nat, n: nat)
    requires 1 <= d < 64 && 64 % d == 0
    ensures !Crosses(d, n)
  {
    var q := 64 / d;
    WholeSlots(d);
    PlaceInPage(d, q, n);
    var rest := n % q * d;
    ModuloPlusMultiple(4 * rest, n / q, PAGE);
    assert 4 * (n * d) == 4 * rest + n / q * PAGE;
    assert 4 * rest % PAGE == 4 * rest;
  }

  lemma WholeSlots(d: nat)
    requires 1 <= d < 64 && 64 % d == 0
    ensures 64 / d >= 1 && 64 / d * d == 64
  {
    assert 64 == 64 / d * d + 64 % d;
  }

  /** With q slots to a page, slot n starts in page n / q and ends in it. */
  lemma PlaceInPage(d: nat, q: nat, n: nat)
    requires q >= 1 && q * d == 64
    ensures n * d == n / q * 64 + n % q * d && n % q * d + d <= 64
  {
    var h, l := n / q, n % q;
    DivStep(n, q);
    assert n == h * q + l;
    Distribute(h * q, l, d);
    assert h * q * d == h * (q * d);
    MulMono(l + 1, q, d);
    Distribute(l, 1, d);
  }

  lemma FirstCrossing(d: nat)
    requires 1 <= d < 64 && 64 % d != 0
    ensures 1 <= 64 / d < Capacity(d) && Crosses(d, 64 / d)
  {
    var q, c := 64 / d, Capacity(d);
    DivStep(64, d);
    DivStep(SLOTS - 1, d);
    assert 64 == q * d + 64 % d;
    if c <= q {
      MulMono(c, q, d);
    }
  }

  /** Some slot that records are written to crosses a page exactly when d does not divide 64. */
  lemma CrossingExactly(d: nat)
    requires 1 <= d < 64
    ensures (exists n: nat :: n < Capacity(d) && Crosses(d, n)) <==> 64 % d != 0
  {
    if 64 % d == 0 {
      forall n: nat
        ensures !Crosses(d, n)
      {
        NoCrossing(d, n);
      }
    } else {
      FirstCrossing(d);
    }
  }

  /** Wherever a write is cut, a read finds the old record, none, or the new one. */
  ghost predicate AtomicPuts(adr: nat, flag: Word, d: nat)
    requires IsSector(adr) && 1 <= d < 64
  {
    forall m: seq<Byte>, st: Log, rec: seq<Byte>, upto: nat ::
      |m| == SIZE && Shows(m, adr, flag, d, st) && StorableRecord(rec, flag, d) ==>
        var got := Reading(CutPut(m, adr, flag, rec, upto), adr, flag, 4 * d);
        got == st.cell || got == Nothing || got == Record(rec)
  }

  lemma AtomicPut(m: seq<Byte>, adr: nat, flag: Word, d: nat, st: Log, rec: seq<Byte>, upto: nat)
    requires |m| == SIZE && IsSector(adr) && 1 <= d < 64 && flag != ERASED && Shows(m, adr, flag, d, st)
    requires StorableRecord(rec, flag, d) && 64 % d == 0
    ensures var got := Reading(CutPut(m, adr, flag, rec, upto), adr, flag, 4 * d);
            got == st.cell || got == Nothing || got == Record(rec)
  {
    hide Shows, Storable, CutPut, Capacity, Reading, SlotRoom;
    PutReads(m, adr, flag, d, st, rec, upto);
    NoCrossing(d, st.used);
    NoCrossing(d, st.used + 1);
  }

  function RepeatedCalls(c: Call, n: nat): (cs: seq<Call>)
    ensures |cs| == n && forall k :: 0 <= k < n ==> cs[k] == c
  {
    seq(n, _ => c)
  }

  /** Writing the same record n times over. */
  lemma {:induction false} RepeatedPuts(rec: seq<Byte>, n: nat, d: nat)
    requires 1 <= d < 64 && n <= Capacity(d)
    ensures After(BLANK, RepeatedCalls(Put(rec, 3), n), d) == ShelfLog(n, rec)
  {
    if n > 0 {
      var cs := RepeatedCalls(Put(rec, 3), n);
      assert cs[..|cs| - 1] == RepeatedCalls(Put(rec, 3), n - 1);
      RepeatedPuts(rec, n - 1, d);
    }
  }

  const ERASED_CHIP: seq<Byte> := seq(SIZE, _ => 0xff)

  /** A record is rewritten once too often before a page ends: the cut one is read back torn. */
  lemma TornWitness(adr: nat, flag: Word, d: nat, rec: seq<Byte>)
    requires IsSector(adr) && 1 <= d < 64 && flag != ERASED && StorableRecord(rec, flag, d) && 64 % d != 0
    ensures var n := 64 / d;
            var m := CallRun(ERASED_CHIP, adr, flag, d, RepeatedCalls(Put(rec, 3), n));
            && 1 <= n && SlotRoom(d, n) < 4 * d
            && Shows(m, adr, flag, d, Log(n - 1, Record(rec)))
            && Reading(CutPut(m, adr, flag, rec, 2), adr, flag, 4 * d) == Record(Torn(rec, SlotRoom(d, n)))
  {
    hide Shows, Storable, CutPut, CallRun, Reading, SlotRoom, Torn;
    var n := 64 / d;
    var cs := RepeatedCalls(Put(rec, 3), n);
    FirstCrossing(d);
    RepeatedPuts(rec, n, d);
    BlankShows(ERASED_CHIP, adr, flag, d);
    RunRefinesLog(ERASED_CHIP, adr, flag, d, BLANK, cs);
    var m := CallRun(ERASED_CHIP, adr, flag, d, cs);
    PutReads(m, adr, flag, d, Log(n - 1, Record(rec)), rec, 2);
  }

  /**
   Which record lengths are safe against power loss: writes of d words are atomic at every cut
   in every state exactly when d divides 64, as long as anything can be stored at all.
   */
  lemma AtomicExactly(adr: nat, flag: Word, d: nat, w: Word)
    requires IsSector(adr) && 1 <= d < 64 && flag != ERASED && Storable(w, flag)
    ensures AtomicPuts(adr, flag, d) <==> 64 % d == 0
  {
    if 64 % d == 0 {
      hide Shows, StorableRecord, CutPut, Reading;
      forall m: seq<Byte>, st: Log, rec: seq<Byte>, upto: nat
        | |m| == SIZE && Shows(m, adr, flag, d, st) && StorableRecord(rec, flag, d)
        ensures var got := Reading(CutPut(m, adr, flag, rec, upto), adr, flag, 4 * d);
                got == st.cell || got == Nothing || got == Record(rec)
      {
        AtomicPut(m, adr, flag, d, st, rec, upto);
      }
    } else {
      NotAtomic(adr, flag, d, w);
    }
  }

  lemma NotAtomic(adr: nat, flag: Word, d: nat, w: Word)
    requires IsSector(adr) && 1 <= d < 64 && flag != ERASED && Storable(w, flag) && 64 % d != 0
    ensures !AtomicPuts(adr, flag, d)
  {
    hide Shows, StorableRecord, CutPut, CallRun, Reading, SlotRoom, Torn;
    var rec := ZeroTail(w, flag, d);
    TornWitness(adr, flag, d, rec);
    TornExactly(rec, SlotRoom(d, 64 / d));
  }

  /** A storable record whose last byte is not erased. */
  lemma ZeroTail(w: Word, flag: Word, d: nat) returns (rec: seq<Byte>)
    requires 1 <= d < 64 && Storable(w, flag) && 64 % d != 0
    ensures StorableRecord(rec, flag, d) && |rec| == 4 * d && rec[4 * d - 1] == 0
  {
    hide Storable;
    rec := BytesOf(w) + seq(4 * d - 4, _ => 0);
    assert rec[..4] == BytesOf(w);
    assert FirstWord(rec) == w;
    assert d >= 2;
  }

  /** The 22nd record of 12 bytes, cut after its first page, comes back with eight bytes of 0xff. */
  lemma TornExample(adr: nat)
    requires IsSector(adr)
    ensures var flag, rec := ZERO, [1, 0, 0, 0, 2, 0, 0, 0, 3, 0, 0, 0];
            && StorableRecord(rec, flag, 3)
            && (var m := CallRun(ERASED_CHIP, adr, flag, 3, RepeatedCalls(Put(rec, 3), 21));
                Reading(CutPut(m, adr, flag, rec, 2), adr, flag, 12)
                == Record([1, 0, 0, 0, 0xff, 0xff, 0xff, 0xff, 0xff, 0xff, 0xff, 0xff]))
  {
    hide Shows, CutPut, CallRun, Reading;
    var flag, rec := ZERO, [1, 0, 0, 0, 2, 0, 0, 0, 3, 0, 0, 0];
    assert FirstWord(rec) == Word(1, 0, 0, 0);
    TornWitness(adr, flag, 3, rec);
    assert SlotRoom(3, 21) == 4;
    assert Torn(rec, 4) == [1, 0, 0, 0, 0xff, 0xff, 0xff, 0xff, 0xff, 0xff, 0xff, 0xff];
  }

  // ----- complete calls -----

  /** A call has at most three operations: the mark, and two for a record that crosses a page. */
  predicate Complete(cs: seq<Call>) {
    forall k :: 0 <= k < |cs| ==> cs[k].upto >= 3
  }

  /** Records since the sector was last erased, and the last of them. */
  datatype Tally = Tally(n: nat, last: seq<Byte>)

  function Count(cs: seq<Call>, d: nat): (t: Tally)
    requires d >= 1
  {
    if cs == [] then Tally(0, [])
    else
      var was := Count(cs[..|cs| - 1], d);
      match cs[|cs| - 1]
      case Put(rec, _) => Tally(was.n + 1, rec)
      case Get(_) => if was.n > Capacity(d) && Recovers(d) then Tally(0, []) else was
  }

  /** A read of an overflowed sector gets as far as word 1000, and erases it. */
  predicate Recovers(d: nat)
    requires d >= 1
  {
    1023 / d * d >= 1000
  }

  /** Up to the capacity the last record is held; an overflowed store holds nothing. */
  function Held(t: Tally, d: nat): (st: Log) {
    if t.n <= Capacity(d) then ShelfLog(t.n, t.last) else Log(Capacity(d), Nothing)
  }

  lemma {:induction false} CountIsLog(cs: seq<Call>, d: nat)
    requires 1 <= d < 64 && Complete(cs)
    ensures After(BLANK, cs, d) == Held(Count(cs, d), d)
  {
    if cs != [] {
      CountIsLog(cs[..|cs| - 1], d);
      CapacityAtLeastOne(d);
    }
  }

  lemma CapacityAtLeastOne(d: nat)
    requires 1 <= d < 64
    ensures 16 <= Capacity(d) && (Recovers(d) <==> Capacity(d) * d >= READ_ERASE_LIMIT)
    ensures 0 * d == 0
  {
  }

  /**
   Round trip over every interleaving of complete writes and reads: a read gives back all bytes
   of the last record if and only if between 1 and 1023 / d were written since the sector was last
   erased, which a read does only after an overflow and only if the length allows it.
   */
  lemma RunReadsExactly(m: seq<Byte>, adr: nat, flag: Word, d: nat, cs: seq<Call>)
    requires |m| == SIZE && IsSector(adr) && 1 <= d < 64 && flag != ERASED && BlankFrom(m, adr, 0)
    requires AllFit(cs, flag, d) && Complete(cs)
    ensures var t := Count(cs, d);
            Reading(CallRun(m, adr, flag, d, cs), adr, flag, 4 * d)
            == if 1 <= t.n <= 1023 / d then Record(t.last) else Nothing
  {
    hide CallRun, Reading, Shows;
    BlankShows(m, adr, flag, d);
    RunRefinesLog(m, adr, flag, d, BLANK, cs);
    CountIsLog(cs, d);
  }

  // ----- recovery -----

  lemma {:induction false} StaysSpent(cs: seq<Call>, d: nat)
    requires 1 <= d < 64 && !Recovers(d)
    ensures After(Log(Capacity(d), Nothing), cs, d) == Log(Capacity(d), Nothing)
  {
    if cs != [] {
      StaysSpent(cs[..|cs| - 1], d);
      CapacityAtLeastOne(d);
    }
  }

  lemma ReadThenWrite(rec: seq<Byte>, d: nat)
    requires 1 <= d < 64 && Recovers(d)
    ensures After(Log(Capacity(d), Nothing), [Get(1), Put(rec, 3)], d) == Log(0, Record(rec))
  {
    var cs := [Get(1), Put(rec, 3)];
    assert cs[..1] == [Get(1)] && [Get(1)][..0] == [];
    CapacityAtLeastOne(d);
    assert After(Log(Capacity(d), Nothing), [Get(1)], d) == BLANK;
  }

  /**
   Recovery: an overflowed store can ever hold a record again if and only if the scan of a read
   gets to word 1000. Otherwise every further record is lost, whatever is called.
   */
  lemma RecoversExactly(m: seq<Byte>, adr: nat, flag: Word, d: nat, rec: seq<Byte>)
    requires |m| == SIZE && IsSector(adr) && 1 <= d < 64 && flag != ERASED
    requires Spent(m, adr, flag, d) && StorableRecord(rec, flag, d)
    ensures (exists cs :: AllFit(cs, flag, d) && Reading(CallRun(m, adr, flag, d, cs), adr, flag, 4 * d) != Nothing)
            <==> 1023 / d * d >= 1000
  {
    hide CallRun, Reading, After, Shelf, Ready, Spent, Storable;
    var st := Log(Capacity(d), Nothing);
    assert Shows(m, adr, flag, d, st);
    if Recovers(d) {
      var cs := [Get(1), Put(rec, 3)];
      assert AllFit(cs, flag, d);
      ReadThenWrite(rec, d);
      RunRefinesLog(m, adr, flag, d, st, cs);
    } else {
      forall cs | AllFit(cs, flag, d)
        ensures Reading(CallRun(m, adr, flag, d, cs), adr, flag, 4 * d) == Nothing
      {
        StaysSpent(cs, d);
        RunRefinesLog(m, adr, flag, d, st, cs);
      }
    }
  }

  /** The lengths, in words, of which the store takes its fill once and is then dead. */
  lemma DeadLengths(d: nat)
    requires 1 <= d < 64
    ensures !Recovers(d)
            <==> d in {27, 32, 37, 38, 41, 43, 45, 47, 49, 52, 54, 55, 57, 58, 61, 62}
  {
  }

  function Puts(cs: seq<Call>): (n: nat) {
    if cs == [] then 0 else Puts(cs[..|cs| - 1]) + if cs[|cs| - 1].Put? then 1 else 0
  }

  lemma {:induction false} NeverErased(cs: seq<Call>, d: nat)
    requires 1 <= d < 64 && !Recovers(d)
    ensures Count(cs, d).n == Puts(cs)
  {
    if cs != [] {
      NeverErased(cs[..|cs| - 1], d);
    }
  }

  /** Records of 128 bytes: 31 are kept in turn, and from the 32nd write on there is nothing to read. */
  lemma LostFrom32(m: seq<Byte>, adr: nat, flag: Word, cs: seq<Call>)
    requires |m| == SIZE && IsSector(adr) && flag != ERASED && BlankFrom(m, adr, 0)
    requires AllFit(cs, flag, 32) && Complete(cs)
    ensures Reading(CallRun(m, adr, flag, 32, cs), adr, flag, 128) == Nothing
            <==> Puts(cs) == 0 || Puts(cs) >= 32
  {
    hide CallRun, Reading;
    DeadLengths(32);
    NeverErased(cs, 32);
    RunReadsExactly(m, adr, flag, 32, cs);
  }

  // ----- lengths that are not multiples of 4 -----

  /** Two records of len bytes, written one after the other to a blank sector: the second reads back. */
  ghost predicate TwoReadBack(m: seq<Byte>, adr: nat, len: nat)
    requires |m| == SIZE && IsSector(adr) && 4 <= len < 0x100
  {
    forall flag: Word, x: seq<Byte>, y: seq<Byte> ::
      flag != ERASED && StorableBytes(x, flag, len) && StorableBytes(y, flag, len) ==>
        Reading(TwoWritten(m, adr, flag, x, y), adr, flag, len) == Record(y)
  }

  predicate StorableBytes(rec: seq<Byte>, flag: Word, len: nat) {
    |rec| == len >= 4 && Storable(FirstWord(rec), flag)
  }

  function TwoWritten(m: seq<Byte>, adr: nat, flag: Word, x: seq<Byte>, y: seq<Byte>): (r: seq<Byte>)
    requires |m| == SIZE && IsSector(adr) && |x| < 0x100 && |y| < 0x100
    ensures |r| == SIZE
  {
    RecordWritten(RecordWritten(m, adr, flag, x), adr, flag, y)
  }

  lemma WholeWordsReadBack(m: seq<Byte>, adr: nat, len: nat)
    requires |m| == SIZE && IsSector(adr) && 4 <= len < 0x100 && len % 4 == 0 && BlankFrom(m, adr, 0)
    ensures TwoReadBack(m, adr, len)
  {
    hide RecordWritten, Reading, Storable;
    var d := len / 4;
    CapacityAtLeastOne(d);
    forall flag: Word, x: seq<Byte>, y: seq<Byte>
      | flag != ERASED && StorableBytes(x, flag, len) && StorableBytes(y, flag, len)
      ensures Reading(TwoWritten(m, adr, flag, x, y), adr, flag, len) == Record(y)
    {
      NextRecord(m, adr, flag, d, 0, x, x);
      NextRecord(RecordWritten(m, adr, flag, x), adr, flag, d, 1, x, y);
      ReadShelf(TwoWritten(m, adr, flag, x, y), adr, flag, d, 2, y);
    }
  }

  /** The cells of a blank sector after x and then y, with flag 0 and len / 4 words between their starts. */
  lemma TwoWrittenCells(m: seq<Byte>, adr: nat, x: seq<Byte>, y: seq<Byte>, z: nat)
    requires |m| == SIZE && IsSector(adr) && BlankFrom(m, adr, 0)
    requires 4 <= |x| == |y| < 0x100 && FirstWord(x) != ZERO && FirstWord(x) != ERASED
    requires z < |y| && 4 * (|x| / 4) + z >= |x|
    ensures var r := TwoWritten(m, adr, ZERO, x, y);
            && WordAt(r, adr) == ZERO
            && r[adr + 4 * (|x| / 4) + z] == y[z]
  {
    hide FlatProgram, Heads, AndByte;
    var d := |x| / 4;
    var a := adr + 4 * d;
    FirstOnBlank(m, adr, x);
    var m1 := FlatProgram(m, adr, x);
    FlatProgramEffect(m, adr, x);
    FirstCells(m, adr, x);
    SecondOverFirst(m1, adr, d, x, y);
    var m2 := FlatProgram(m1, adr, BytesOf(ZERO));
    ProgramWordEffect(m1, adr, ZERO);
    FlatProgramEffect(m2, a, y);
    ErasedKeepsByte(y[z]);
    AndZero(m1[adr]);
    AndZero(m1[adr + 1]);
    AndZero(m1[adr + 2]);
    AndZero(m1[adr + 3]);
  }

  lemma AndZero(b: Byte)
    ensures AndByte(b, 0) == 0
  {
  }

  lemma FirstOnBlank(m: seq<Byte>, adr: nat, x: seq<Byte>)
    requires |m| == SIZE && IsSector(adr) && BlankFrom(m, adr, 0) && 4 <= |x| < 0x100
    ensures RecordWritten(m, adr, ZERO, x) == FlatProgram(m, adr, x)
  {
    hide FlatProgram;
    var d := |x| / 4;
    assert 0 * d == 0;
    CapacityAtLeastOne(d);
    assert Heads(m, adr, d)[0] == ERASED;
    ScanIs(Heads(m, adr, d), ZERO, 0);
  }

  lemma FirstCells(m: seq<Byte>, adr: nat, x: seq<Byte>)
    requires |m| == SIZE && IsSector(adr) && BlankFrom(m, adr, 0) && 4 <= |x| < 0x100
    ensures WordAt(FlatProgram(m, adr, x), adr) == FirstWord(x)
  {
    hide FlatProgram, AndByte;
    FlatProgramEffect(m, adr, x);
    ErasedKeepsByte(x[0]);
    ErasedKeepsByte(x[1]);
    ErasedKeepsByte(x[2]);
    ErasedKeepsByte(x[3]);
  }

  lemma SecondOverFirst(m: seq<Byte>, adr: nat, d: nat, x: seq<Byte>, y: seq<Byte>)
    requires |m| == SIZE && IsSector(adr) && 4 <= |x| == |y| < 0x100 && d == |x| / 4
    requires WordAt(m, adr) == FirstWord(x) != ZERO && FirstWord(x) != ERASED
    ensures RecordWritten(m, adr, ZERO, y)
         == FlatProgram(FlatProgram(m, adr, BytesOf(ZERO)), adr + 4 * d, y)
  {
    hide FlatProgram;
    assert 0 * d == 0 && 1 * d == d;
    CapacityAtLeastOne(d);
    assert Heads(m, adr, d)[0] == FirstWord(x);
    ScanIs(Heads(m, adr, d), ZERO, 0);
  }

  /** A record of len bytes that starts 1, 0, 0, 0 and goes on with 2. */
  function OneTwo(len: nat): (rec: seq<Byte>)
    requires len >= 5
    ensures |rec| == len
  {
    [1, 0, 0, 0] + seq(len - 4, _ => 2)
  }

  /**
   A length that is no multiple of 4: the second record overlaps the first, and the read, which
   steps over one word more than the write, finds its second word in place of its first.
   */
  lemma OddLengthLost(m: seq<Byte>, adr: nat, len: nat)
    requires |m| == SIZE && IsSector(adr) && BlankFrom(m, adr, 0) && 5 <= len < 0x100 && len % 4 != 0
    ensures StorableBytes(OneTwo(len), ZERO, len)
    ensures var got := Reading(TwoWritten(m, adr, ZERO, OneTwo(len), OneTwo(len)), adr, ZERO, len);
            got.Record? && |got.bytes| == len && got.bytes[0] == 2
  {
    hide RecordWritten, FlatProgram;
    var rec := OneTwo(len);
    assert FirstWord(rec) == Word(1, 0, 0, 0);
    var r := TwoWritten(m, adr, ZERO, rec, rec);
    TwoWrittenCells(m, adr, rec, rec, 4);
    ReadSecondSlot(r, adr, len);
  }

  /** The read steps over one word more than the write, and looks at two records at least. */
  lemma OneWordMore(len: nat)
    requires 5 <= len < 0x100 && len % 4 != 0
    ensures var d := (len + 3) / 4; d == len / 4 + 1 && Capacity(d) >= 2 && 0 * d == 0 && 1 * d == d
  {
  }

  lemma ReadSecondSlot(r: seq<Byte>, adr: nat, len: nat)
    requires |r| == SIZE && IsSector(adr) && 5 <= len < 0x100 && len % 4 != 0
    requires WordAt(r, adr) == ZERO && r[adr + 4 * (len / 4) + 4] == 2
    ensures var got := Reading(r, adr, ZERO, len);
            got.Record? && |got.bytes| == len && got.bytes[0] == 2
  {
    hide Capacity;
    var d := (len + 3) / 4;
    OneWordMore(len);
    var hs := Heads(r, adr, d);
    assert hs[0] == ZERO && hs[1].b0 == 2;
    ScanIs(hs, ZERO, 1);
  }

  /** The lengths the store is good for, of those that have a first word: the multiples of 4. */
  lemma LengthExactly(m: seq<Byte>, adr: nat, len: nat)
    requires |m| == SIZE && IsSector(adr) && BlankFrom(m, adr, 0) && 4 <= len < 0x100
    ensures TwoReadBack(m, adr, len) <==> len % 4 == 0
  {
    hide TwoWritten, Reading, StorableBytes;
    if len % 4 == 0 {
      WholeWordsReadBack(m, adr, len);
    } else {
      OddLengthLost(m, adr, len);
      assert OneTwo(len)[0] == 1;
    }
  }
}
