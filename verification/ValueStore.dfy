/**
 flash_write_val and flash_read_val of firmware/drivers/8258/flash.c on the flash device.
 */
module ValueStore {
  import opened Arith
  import opened Bits
  import opened NorFlash
  import opened SectorLog
  import opened FlashWords

  predicate IsSector(adr: nat) {
    adr % SECTOR == 0 && adr + SECTOR <= SIZE
  }

  /** The device operations of a write, case by case. */
  lemma LowerWrite(adr: nat, ws: seq<Word>, flag: Word, dat: Word)
    ensures var n, all := Scan(ws, flag), LowerAll(adr, WriteOps(ws, flag, dat));
            if n == |ws| || ws[n] == ERASED then all == [Program(adr + 4 * n, BytesOf(dat))]
            else if n == SLOTS - 1 then all == [Erase(adr), Program(adr, BytesOf(dat))]
            else all == [Program(adr + 4 * n, BytesOf(flag)), Program(adr + 4 * (n + 1), BytesOf(dat))]
  {
  }

  /** A write makes at most two operations, so it is whole when it is cut after two. */
  lemma WholeWrite(m: seq<Byte>, adr: nat, flag: Word, dat: Word)
    requires |m| == SIZE && IsSector(adr)
    ensures FlashStep(m, adr, flag, Write(dat, 2))
         == Replay(m, LowerAll(adr, WriteOps(Words(m, adr, SLOTS), flag, dat)))
  {
  }

  lemma SlotAligned(adr: nat, i: nat)
    requires IsSector(adr) && i <= SLOTS
    ensures InOnePage(adr + 4 * i) && adr + 4 * i < U32 && (i < SLOTS ==> adr + 4 * i + 4 <= SIZE)
  {
    AlignedFits(adr + 4 * i);
  }

  lemma SectorFits(adr: nat)
    requires IsSector(adr)
    ensures adr + SECTOR <= SIZE
  {
  }

  /** What the device is asked to do before the new word. */
  function Preparation(ws: seq<Word>, adr: nat, flag: Word): (ops: seq<Op>) {
    var n := Scan(ws, flag);
    if n == |ws| || ws[n] == ERASED then []
    else if n == SLOTS - 1 then [Erase(adr)]
    else [Program(adr + 4 * n, BytesOf(flag))]
  }

  /** The slot that the new word goes to. */
  function FreeSlot(ws: seq<Word>, flag: Word): (i: nat)
    requires |ws| == SLOTS
    ensures i <= SLOTS
  {
    var n := Scan(ws, flag);
    if n == SLOTS || ws[n] == ERASED then n else if n == SLOTS - 1 then 0 else n + 1
  }

  lemma PreparedWrite(adr: nat, ws: seq<Word>, flag: Word, dat: Word)
    requires |ws| == SLOTS
    ensures LowerAll(adr, WriteOps(ws, flag, dat))
         == Preparation(ws, adr, flag) + [Program(adr + 4 * FreeSlot(ws, flag), BytesOf(dat))]
  {
    hide LowerAll, WriteOps;
    LowerWrite(adr, ws, flag, dat);
  }

  /** The loop of flash_write_val: the slot for the new word, after the mark or the erase before it. */
  method MakeSlot(f: Flash, adr: nat, flag: Word) returns (i: nat)
    requires f.Valid() && IsSector(adr)
    modifies f`log, f.mem
    ensures i <= SLOTS
    ensures var ws := old(Words(f.mem[..], adr, SLOTS));
            var n, before := Scan(ws, flag), Preparation(ws, adr, flag);
            && f.log == old(f.log) + before && f.mem[..] == Replay(old(f.mem[..]), before)
            && i == FreeSlot(ws, flag)
  {
    hide PageProgram, EraseAt, Replay, IsSector, InOnePage;
    SectorFits(adr);
    ghost var m, ws := f.mem[..], Words(f.mem[..], adr, SLOTS);
    i := 0;
    while i < SLOTS
      invariant 0 <= i <= SLOTS
      invariant forall j :: 0 <= j < i ==> !Stops(ws[j], flag)
      invariant f.mem[..] == m && f.log == old(f.log)
    {
      SlotAligned(adr, i);
      var p := ReadWord(f, adr + 4 * i);
      assert p == ws[i];
      if p == ERASED {
        break;
      } else if p != flag {
        ScanIs(ws, flag, i);
        if i == SLOTS - 1 {
          f.EraseSector(adr);
          ReplayOne(m, Erase(adr));
          return 0;
        } else {
          WriteWord(f, adr + 4 * i, flag);
          ReplayOne(m, Program(adr + 4 * i, BytesOf(flag)));
          return i + 1;
        }
      }
      i := i + 1;
    }
    ScanIs(ws, flag, i);
    NoOperations(m);
  }

  lemma NoOperations(m: seq<Byte>)
    requires |m| == SIZE
    ensures Replay(m, []) == m
  {
  }

  /** flash_write_val: exactly the operations of WriteOps, in that order. */
  method WriteVal(f: Flash, adr: nat, flag: Word, dat: Word)
    requires f.Valid() && IsSector(adr)
    modifies f`log, f.mem
    ensures var ops := LowerAll(adr, WriteOps(old(Words(f.mem[..], adr, SLOTS)), flag, dat));
            f.log == old(f.log) + ops && f.mem[..] == Replay(old(f.mem[..]), ops)
    ensures f.mem[..] == FlashStep(old(f.mem[..]), adr, flag, Write(dat, 2))
  {
    hide Apply, Replay, LowerAll, WriteOps, FlashStep, Words, IsSector, Preparation, FreeSlot, InOnePage;
    SectorFits(adr);
    ghost var m, ws := f.mem[..], Words(f.mem[..], adr, SLOTS);
    WholeWrite(m, adr, flag, dat);
    PreparedWrite(adr, ws, flag, dat);
    var i := MakeSlot(f, adr, flag);
    SlotAligned(adr, i);
    ghost var before, last := Preparation(ws, adr, flag), Program(adr + 4 * i, BytesOf(dat));
    ReplayConcat(m, before, [last]);
    ReplayOne(Replay(m, before), last);
    WriteWord(f, adr + 4 * i, dat);
    assert f.log == old(f.log) + (before + [last]);
  }

  /** flash_read_val: exactly the operations of ReadOps, and the value found. */
  method ReadVal(f: Flash, adr: nat, flag: Word) returns (r: Word)
    requires f.Valid() && IsSector(adr)
    modifies f`log, f.mem
    ensures var ws := old(Words(f.mem[..], adr, SLOTS));
            var ops := LowerAll(adr, ReadOps(ws, flag));
            && f.log == old(f.log) + ops && f.mem[..] == Replay(old(f.mem[..]), ops)
            && r == ReadResult(CellOf(ws, flag), flag)
    ensures f.mem[..] == FlashStep(old(f.mem[..]), adr, flag, Read(2))
  {
    ghost var m, ws := f.mem[..], Words(f.mem[..], adr, SLOTS);
    var i := 0;
    while i < SLOTS
      invariant 0 <= i <= SLOTS
      invariant forall j :: 0 <= j < i ==> !Stops(ws[j], flag)
      invariant f.mem[..] == m && f.log == old(f.log)
    {
      var p := ReadWord(f, adr + 4 * i);
      assert p == ws[i];
      if p == ERASED {
        break;
      } else if p != flag {
        ScanIs(ws, flag, i);
        assert LowerAll(adr, ReadOps(ws, flag)) == [];
        return p;
      }
      i := i + 1;
    }
    ScanIs(ws, flag, i);
    if i > READ_ERASE_LIMIT {
      f.EraseSector(adr);
      ReplayOne(m, Erase(adr));
      assert LowerAll(adr, ReadOps(ws, flag)) == [Erase(adr)];
    } else {
      assert LowerAll(adr, ReadOps(ws, flag)) == [];
    }
    return flag;
  }

  // ----- runs on the device -----

  /** The chip after a call on the sector at adr that is cut off by power loss. */
  function FlashStep(m: seq<Byte>, adr: nat, flag: Word, e: Event): (r: seq<Byte>)
    requires |m| == SIZE && IsSector(adr)
    ensures |r| == SIZE
  {
    var all := LowerAll(adr, OpsOf(Words(m, adr, SLOTS), flag, e));
    Replay(m, CutAfter(all, e.upto))
  }

  function FlashRun(m: seq<Byte>, adr: nat, flag: Word, es: seq<Event>): (r: seq<Byte>)
    requires |m| == SIZE && IsSector(adr)
    ensures |r| == SIZE
  {
    if es == [] then m else FlashStep(FlashRun(m, adr, flag, es[..|es| - 1]), adr, flag, es[|es| - 1])
  }

  lemma FlashStepRefines(m: seq<Byte>, adr: nat, flag: Word, e: Event, c: Chip)
    requires |m| == SIZE && IsSector(adr) && c.ws == Words(m, adr, SLOTS)
    requires Scan(c.ws, flag) < SLOTS
    ensures Words(FlashStep(m, adr, flag, e), adr, SLOTS) == Step(c, flag, e).ws
    ensures SameOutside(m, FlashStep(m, adr, flag, e), adr, SECTOR)
  {
    var ops := OpsOf(c.ws, flag, e);
    var all, done := LowerAll(adr, ops), Done(ops, e.upto);
    assert LowerAll(adr, done) == CutAfter(all, e.upto);
    LowerAllRefines(m, adr, done, c.erases);
  }

  /**
   Crash safety on the device. Start with an erased sector anywhere on the chip and make any
   calls, each cut off anywhere: the bytes of the sector follow the word model, so it holds what
   the torn-write register holds, and no byte outside the sector ever changes.
   */
  lemma {:induction false} FlashRunRefinesRegister(m: seq<Byte>, adr: nat, flag: Word, es: seq<Event>)
    requires |m| == SIZE && IsSector(adr) && Words(m, adr, SLOTS) == FRESH.ws
    requires flag != ERASED && AllStorable(es, flag)
    ensures var r := FlashRun(m, adr, flag, es);
            && Words(r, adr, SLOTS) == Run(FRESH, flag, es).ws
            && CellOf(Words(r, adr, SLOTS), flag) == Register(es)
            && SameOutside(m, r, adr, SECTOR)
  {
    RunIsShaped(flag, es);
    if es != [] {
      var front, e := es[..|es| - 1], es[|es| - 1];
      assert AllStorable(front, flag);
      FlashRunRefinesRegister(m, adr, flag, front);
      RunIsShaped(flag, front);
      FlashStepRefines(FlashRun(m, adr, flag, front), adr, flag, e, Run(FRESH, flag, front));
    }
  }
}
