/**
 flash_write_long_val and flash_read_long_val of firmware/drivers/8258/flash.c: one sector as a
 log of records of len bytes, of which only the first word is inspected and invalidated.
 */
module RecordStore {
  import opened Arith
  import opened Bits
  import opened NorFlash
  import opened SectorLog
  import opened FlashWords
  import opened ValueStore

  datatype Found = Nothing | Record(bytes: seq<Byte>)

  /**
   How many records of d words the scan loops look at: those that start below 1024 - d. With
   d = 0 they do not get past the first word.
   */
  function Capacity(d: nat): (k: nat) {
    if d == 0 then 1 else (SLOTS - 1) / d
  }

  lemma CapacityIsLoopBound(d: nat, k: nat)
    requires 1 <= d < SLOTS
    ensures k < Capacity(d) <==> k * d < SLOTS - d
    ensures k <= Capacity(d) ==> k * d < SLOTS
  {
    var c := Capacity(d);
    assert c * d <= SLOTS - 1 < c * d + d;
    if k < c {
      assert (k + 1) * d <= c * d;
      assert (k + 1) * d == k * d + d;
    } else {
      assert c * d <= k * d;
    }
  }

  lemma SlotInSector(d: nat, k: nat)
    requires d < SLOTS && k <= Capacity(d)
    ensures k * d < SLOTS
  {
    if d > 0 {
      CapacityIsLoopBound(d, k);
    }
  }

  /** The loop guard, and where the loop goes on from a record of at least one word. */
  lemma LoopGuard(d: nat, k: nat)
    requires d < SLOTS && k <= Capacity(d) && (d == 0 ==> k == 0)
    ensures k < Capacity(d) <==> k * d < SLOTS - d
    ensures 0 < d && k < Capacity(d) ==> (k + 1) * d == k * d + d < SLOTS
  {
    if d > 0 {
      CapacityIsLoopBound(d, k);
      CapacityIsLoopBound(d, k + 1);
    }
  }

  /** The address of slot k for records of d words. */
  function RecordSlot(adr: nat, d: nat, k: nat): (a: nat)
    ensures a >= adr
  {
    adr + 4 * (k * d)
  }

  lemma FirstSlot(adr: nat, d: nat)
    ensures RecordSlot(adr, d, 0) == adr
  {
    assert 0 * d == 0;
  }

  /** The first words of the records the scan loops look at. */
  function Heads(m: seq<Byte>, adr: nat, d: nat): (hs: seq<Word>)
    requires |m| == SIZE && IsSector(adr) && d < SLOTS
    ensures |hs| == Capacity(d)
  {
    seq(Capacity(d), k requires 0 <= k < Capacity(d) =>
      SlotInSector(d, k);
      WordAt(m, RecordSlot(adr, d, k)))
  }

  /** The loop guard by the word index i of slot k. */
  lemma GuardAt(adr: nat, d: nat, k: nat, i: nat)
    requires d < SLOTS && k <= Capacity(d) && (d == 0 ==> k == 0) && adr + 4 * i == RecordSlot(adr, d, k)
    ensures i < SLOTS && (k < Capacity(d) <==> i < SLOTS - d)
    ensures RecordSlot(adr, d, k + 1) == adr + 4 * (i + d)
  {
    SlotInSector(d, k);
    LoopGuard(d, k);
    assert (k + 1) * d == k * d + d;
  }

  lemma HeadAt(m: seq<Byte>, adr: nat, d: nat, k: nat)
    requires |m| == SIZE && IsSector(adr) && d < SLOTS && k < Capacity(d)
    ensures RecordSlot(adr, d, k) + 4 <= SIZE && Heads(m, adr, d)[k] == WordAt(m, RecordSlot(adr, d, k))
  {
    SlotInSector(d, k);
  }

  /** The flash after writing a record of len = |dat| bytes. */
  function RecordWritten(m: seq<Byte>, adr: nat, flag: Word, dat: seq<Byte>): (r: seq<Byte>)
    requires |m| == SIZE && IsSector(adr) && |dat| < 0x100
    ensures |r| == SIZE
  {
    var d := |dat| / 4;
    var hs := Heads(m, adr, d);
    var n := Scan(hs, flag);
    if CellOf(hs, flag).Live? then
      FlatProgram(FlatProgram(m, RecordSlot(adr, d, n), BytesOf(flag)), RecordSlot(adr, d, n + 1), dat)
    else FlatProgram(m, RecordSlot(adr, d, n), dat)
  }

  /** The device operations that do it: the mark, then the record, split where pages end. */
  function RecordOps(m: seq<Byte>, adr: nat, flag: Word, dat: seq<Byte>): (ops: seq<Op>)
    requires |m| == SIZE && IsSector(adr) && |dat| < 0x100
  {
    var d := |dat| / 4;
    var hs := Heads(m, adr, d);
    var n := Scan(hs, flag);
    if CellOf(hs, flag).Live? then
      Chunks(RecordSlot(adr, d, n), BytesOf(flag)) + Chunks(RecordSlot(adr, d, n + 1), dat)
    else Chunks(RecordSlot(adr, d, n), dat)
  }

  /** Both, by whether the scan found a live record. */
  lemma WriteCases(m: seq<Byte>, adr: nat, flag: Word, dat: seq<Byte>)
    requires |m| == SIZE && IsSector(adr) && |dat| < 0x100
    ensures var d := |dat| / 4;
            var hs := Heads(m, adr, d);
            var a, b := RecordSlot(adr, d, Scan(hs, flag)), RecordSlot(adr, d, Scan(hs, flag) + 1);
            if CellOf(hs, flag).Live? then
              && RecordOps(m, adr, flag, dat) == Chunks(a, BytesOf(flag)) + Chunks(b, dat)
              && RecordWritten(m, adr, flag, dat) == FlatProgram(FlatProgram(m, a, BytesOf(flag)), b, dat)
            else
              && RecordOps(m, adr, flag, dat) == Chunks(a, dat)
              && RecordWritten(m, adr, flag, dat) == FlatProgram(m, a, dat)
  {
    hide Chunks, FlatProgram, Scan, Heads;
  }

  lemma OpsDoWrite(m: seq<Byte>, adr: nat, flag: Word, dat: seq<Byte>)
    requires |m| == SIZE && IsSector(adr) && |dat| < 0x100
    ensures Replay(m, RecordOps(m, adr, flag, dat)) == RecordWritten(m, adr, flag, dat)
  {
    var d := |dat| / 4;
    var hs := Heads(m, adr, d);
    var n := Scan(hs, flag);
    var a, b := RecordSlot(adr, d, n), RecordSlot(adr, d, n + 1);
    WriteCases(m, adr, flag, dat);
    hide *;
    TwoWrites(m, a, BytesOf(flag), b, dat);
    ChunksRefineFlat(m, a, dat);
  }

  lemma AlignedInSector(adr: nat, x: nat)
    requires IsSector(adr)
    ensures (adr + 4 * x) % 4 == 0
  {
  }

  /** What reading a record of len bytes finds. */
  function Reading(m: seq<Byte>, adr: nat, flag: Word, len: nat): (r: Found)
    requires |m| == SIZE && IsSector(adr) && len < 0x100
  {
    var d := (len + 3) / 4;
    var hs := Heads(m, adr, d);
    if CellOf(hs, flag).Live? then Record(ReadAt(m, adr + 4 * (Scan(hs, flag) * d), len)) else Nothing
  }

  /** flash_read_long_val erases the sector when it finds nothing and gets this far. */
  predicate ReadErases(m: seq<Byte>, adr: nat, flag: Word, len: nat)
    requires |m| == SIZE && IsSector(adr) && len < 0x100
  {
    var d := (len + 3) / 4;
    var hs := Heads(m, adr, d);
    CellOf(hs, flag) == Empty && Scan(hs, flag) * d >= READ_ERASE_LIMIT
  }

  /** The scan comes to an end: with records of no words it stays at the first word for ever if that is invalid. */
  predicate ScanEnds(m: seq<Byte>, adr: nat, flag: Word, d: nat)
    requires |m| == SIZE && IsSector(adr)
  {
    d == 0 ==> Stops(WordAt(m, adr), flag)
  }

  /**
   The loop of flash_write_long_val: finds the word index for a new record and invalidates the
   live one.
   */
  method MakeRoom(f: Flash, adr: nat, flag: Word, dataLen: nat) returns (i: nat)
    requires f.Valid() && IsSector(adr) && dataLen < 64 && ScanEnds(f.mem[..], adr, flag, dataLen)
    modifies f`log, f.mem
    ensures i < 2 * SLOTS
    ensures var hs := old(Heads(f.mem[..], adr, dataLen));
            var n := Scan(hs, flag);
            var a := RecordSlot(adr, dataLen, n);
            if CellOf(hs, flag).Live? then
              && adr + 4 * i == RecordSlot(adr, dataLen, n + 1)
              && f.mem[..] == FlatProgram(old(f.mem[..]), a, BytesOf(flag))
              && f.log == old(f.log) + Chunks(a, BytesOf(flag))
            else adr + 4 * i == a && f.mem[..] == old(f.mem[..]) && f.log == old(f.log)
  {
    hide FlatProgram, Chunks, Capacity, Heads, IsSector, RecordSlot;
    SectorFits(adr);
    ghost var m, hs := f.mem[..], Heads(f.mem[..], adr, dataLen);
    ghost var k := 0;
    i := 0;
    FirstSlot(adr, dataLen);
    while i < SLOTS - dataLen
      invariant f.mem[..] == m && f.log == old(f.log)
      invariant adr + 4 * i == RecordSlot(adr, dataLen, k) && k <= |hs| && (dataLen == 0 ==> k == 0)
      invariant forall j :: 0 <= j < k ==> !Stops(hs[j], flag)
      decreases SLOTS - i
    {
      GuardAt(adr, dataLen, k, i);
      HeadAt(m, adr, dataLen, k);
      var p := ReadWord(f, adr + 4 * i);
      assert p == hs[k];
      if p == ERASED {
        break;
      } else if p != flag {
        if i >= SLOTS - dataLen {
          // The erase of flash.c:349-354: the loop guard rules it out.
          assert false;
        } else {
          ScanIs(hs, flag, k);
          f.WriteData(adr + 4 * i, 4, BytesOf(flag));
          i := i + dataLen;
          return;
        }
      }
      i := i + dataLen;
      k := k + 1;
    }
    GuardAt(adr, dataLen, k, i);
    ScanIs(hs, flag, k);
  }

  /** flash_write_long_val */
  method WriteLongVal(f: Flash, adr: nat, flag: Word, dat: seq<Byte>, len: nat)
    requires f.Valid() && IsSector(adr) && |dat| == len < 0x100 && ScanEnds(f.mem[..], adr, flag, len / 4)
    modifies f`log, f.mem
    ensures f.mem[..] == RecordWritten(old(f.mem[..]), adr, flag, dat)
    ensures f.log == old(f.log) + RecordOps(old(f.mem[..]), adr, flag, dat)
  {
    hide FlatProgram, Chunks, Heads, Scan, RecordSlot;
    var dataLen := len / 4;
    var i := MakeRoom(f, adr, flag, dataLen);
    f.WriteData(adr + 4 * i, len, dat);
  }

  /** flash_read_long_val: dat is what was copied to the caller's buffer. */
  method ReadLongVal(f: Flash, adr: nat, flag: Word, len: nat) returns (p: Word, dat: Found)
    requires f.Valid() && IsSector(adr) && len < 0x100 && ScanEnds(f.mem[..], adr, flag, (len + 3) / 4)
    modifies f`log, f.mem
    ensures dat == old(Reading(f.mem[..], adr, flag, len))
    ensures p == old(ReadResult(CellOf(Heads(f.mem[..], adr, (len + 3) / 4), flag), flag))
    ensures f.mem[..] == if old(ReadErases(f.mem[..], adr, flag, len)) then EraseAt(old(f.mem[..]), adr)
                         else old(f.mem[..])
  {
    hide Capacity, Heads, IsSector;
    var dataLen := (len + 3) / 4;
    ghost var m, hs := f.mem[..], Heads(f.mem[..], adr, dataLen);
    ghost var k := 0;
    var i := 0;
    SlotInSector(dataLen, 0);
    while i < SLOTS - dataLen
      invariant f.mem[..] == m
      invariant i == k * dataLen && k <= |hs| && i < SLOTS && (dataLen == 0 ==> k == 0)
      invariant forall j :: 0 <= j < k ==> !Stops(hs[j], flag)
      decreases SLOTS - i
    {
      LoopGuard(dataLen, k);
      HeadAt(m, adr, dataLen, k);
      p := ReadWord(f, adr + 4 * i);
      assert p == hs[k];
      if p == ERASED {
        break;
      } else if p != flag {
        ScanIs(hs, flag, k);
        var bytes := f.ReadPage(adr + 4 * i, len);
        return p, Record(bytes);
      }
      i := i + dataLen;
      k := k + 1;
    }
    LoopGuard(dataLen, k);
    ScanIs(hs, flag, k);
    if i >= READ_ERASE_LIMIT {
      f.EraseSector(adr);
    }
    return flag, Nothing;
  }

  // ----- any sector content -----

  /** Slot n is the first that the scans stop at: all before it hold the flag. */
  ghost predicate SlotStopsAt(m: seq<Byte>, adr: nat, flag: Word, d: nat, n: nat)
    requires |m| == SIZE && IsSector(adr) && d < SLOTS
  {
    && n <= Capacity(d)
    && (forall k :: 0 <= k < n ==> Heads(m, adr, d)[k] == flag)
    && (n < Capacity(d) ==> Heads(m, adr, d)[n] != flag)
  }

  /** A slot whose first word is neither erased nor the flag. */
  ghost predicate LiveAt(m: seq<Byte>, adr: nat, flag: Word, d: nat, n: nat)
    requires |m| == SIZE && IsSector(adr) && d < SLOTS
  {
    n < Capacity(d) && Heads(m, adr, d)[n] != ERASED && Heads(m, adr, d)[n] != flag
  }

  lemma StopIsScan(m: seq<Byte>, adr: nat, flag: Word, d: nat, n: nat)
    requires |m| == SIZE && IsSector(adr) && d < SLOTS && flag != ERASED && SlotStopsAt(m, adr, flag, d, n)
    ensures Scan(Heads(m, adr, d), flag) == n
    ensures CellOf(Heads(m, adr, d), flag).Live? <==> LiveAt(m, adr, flag, d, n)
  {
    ScanIs(Heads(m, adr, d), flag, n);
  }

  /**
   A write cell by cell, whatever the sector holds: the flag is put onto the first word of a live
   slot n, the record onto the slot after it, or onto slot n if that is not live.
   */
  lemma WriteCells(m: seq<Byte>, adr: nat, flag: Word, dat: seq<Byte>, n: nat, x: nat)
    requires |m| == SIZE && IsSector(adr) && adr + 2 * SECTOR <= SIZE && |dat| < 0x100 && flag != ERASED
    requires SlotStopsAt(m, adr, flag, |dat| / 4, n) && x < SIZE
    ensures var d := |dat| / 4;
            var live := LiveAt(m, adr, flag, d, n);
            var mark, a := adr + 4 * (n * d), adr + 4 * ((if live then n + 1 else n) * d);
            var c := if live && mark <= x < mark + 4 then AndByte(m[x], BytesOf(flag)[x - mark]) else m[x];
            RecordWritten(m, adr, flag, dat)[x] == if a <= x < a + |dat| then AndByte(c, dat[x - a]) else c
  {
    hide FlatProgram, Heads, AndByte, Capacity;
    var d := |dat| / 4;
    StopIsScan(m, adr, flag, d, n);
    WriteCases(m, adr, flag, dat);
    SlotInSector(d, n);
    assert (n + 1) * d == n * d + d;
    var marked := FlatProgram(m, RecordSlot(adr, d, n), BytesOf(flag));
    if LiveAt(m, adr, flag, d, n) {
      FlatProgramCells(m, RecordSlot(adr, d, n), BytesOf(flag), x);
      FlatProgramCells(marked, RecordSlot(adr, d, n + 1), dat, x);
    } else {
      FlatProgramCells(m, RecordSlot(adr, d, n), dat, x);
    }
  }

  /** A read, whatever the sector holds: the bytes of a live slot n, or an erase from word 1000 on. */
  lemma ReadCells(m: seq<Byte>, adr: nat, flag: Word, len: nat, n: nat)
    requires |m| == SIZE && IsSector(adr) && adr + 2 * SECTOR <= SIZE && len < 0x100 && flag != ERASED
    requires SlotStopsAt(m, adr, flag, (len + 3) / 4, n)
    ensures var d := (len + 3) / 4;
            var a, live := adr + 4 * (n * d), LiveAt(m, adr, flag, d, n);
            var got := Reading(m, adr, flag, len);
            && (if live then got.Record? && |got.bytes| == len && HoldsRecord(m, a, got.bytes) else got == Nothing)
            && (ReadErases(m, adr, flag, len) <==> !live && n * d >= 1000)
  {
    hide Heads, Capacity;
    var d := (len + 3) / 4;
    StopIsScan(m, adr, flag, d, n);
    SlotInSector(d, n);
    WholeRead(m, adr + 4 * (n * d), len);
  }

  lemma WholeRead(m: seq<Byte>, a: nat, len: nat)
    requires |m| == SIZE && a + len <= SIZE
    ensures HoldsRecord(m, a, ReadAt(m, a, len))
  {
  }

  // ----- records up to the capacity -----

  function FirstWord(rec: seq<Byte>): (w: Word)
    requires |rec| >= 4
  {
    FromBytes(rec[..4])
  }

  predicate StorableRecord(rec: seq<Byte>, flag: Word, d: nat) {
    |rec| == 4 * d && |rec| >= 4 && Storable(FirstWord(rec), flag)
  }

  /** n records were written: all but the last invalid, the last one intact, erased after it. */
  ghost predicate Shelf(m: seq<Byte>, adr: nat, flag: Word, d: nat, n: nat, rec: seq<Byte>)
    requires |m| == SIZE && IsSector(adr) && 1 <= d < 64
  {
    && n <= Capacity(d)
    && (forall k :: 0 <= k < n - 1 ==> Heads(m, adr, d)[k] == flag)
    && (n >= 1 ==> HoldsRecord(m, RecordSlot(adr, d, n - 1), rec) && StorableRecord(rec, flag, d))
    && BlankFrom(m, adr, 4 * (n * d))
  }

  ghost predicate HoldsRecord(m: seq<Byte>, a: nat, rec: seq<Byte>) {
    a + |rec| <= |m| && forall x :: a <= x < a + |rec| ==> m[x] == rec[x - a]
  }

  ghost predicate BlankFrom(m: seq<Byte>, adr: nat, off: nat)
    requires |m| == SIZE && IsSector(adr)
  {
    forall x :: adr + off <= x < adr + SECTOR ==> m[x] == 0xff
  }

  /** Slots of d words: slot k ends where slot k + 1 starts, and those in capacity fit. */
  lemma SlotFits(d: nat, k: nat)
    requires 1 <= d < 64 && k < Capacity(d)
    ensures 4 * (k * d) + 4 * d == 4 * ((k + 1) * d) && 4 * ((k + 1) * d) < SECTOR
  {
    CapacityIsLoopBound(d, k);
    assert (k + 1) * d == k * d + d;
  }

  lemma SlotOrder(d: nat, j: nat, k: nat)
    requires j <= k
    ensures j * d <= k * d
    ensures j < k ==> j * d + d <= k * d
  {
    MulMono(j, k, d);
    if j < k {
      MulMono(j + 1, k, d);
      Distribute(j, 1, d);
    }
  }

  /** What the scans see on a shelf. */
  lemma ShelfScan(m: seq<Byte>, adr: nat, flag: Word, d: nat, n: nat, rec: seq<Byte>)
    requires |m| == SIZE && IsSector(adr) && 1 <= d < 64 && flag != ERASED
    requires Shelf(m, adr, flag, d, n, rec)
    ensures var hs := Heads(m, adr, d);
            if n == 0 then Scan(hs, flag) == 0 && CellOf(hs, flag) == Empty
            else Scan(hs, flag) == n - 1 && CellOf(hs, flag) == Live(FirstWord(rec))
    ensures n >= 1 ==> Heads(m, adr, d)[n - 1] == FirstWord(rec)
  {
    var hs := Heads(m, adr, d);
    forall j | n <= j < Capacity(d)
      ensures hs[j] == ERASED
    {
      SlotFits(d, j);
      SlotOrder(d, n, j);
    }
    if n == 0 {
      LayoutMeans(hs, flag, 0, ERASED);
    } else {
      SlotFits(d, n - 1);
      assert hs[n - 1] == FirstWord(rec);
      LayoutMeans(hs, flag, n - 1, FirstWord(rec));
    }
  }

  /** Programming onto erased cells stores exactly the bytes. */
  lemma ProgramBlank(m: seq<Byte>, a: nat, dat: seq<Byte>)
    requires |m| == SIZE && a + |dat| <= SIZE
    requires forall x :: a <= x < a + |dat| ==> m[x] == 0xff
    ensures var r := FlatProgram(m, a, dat);
            && HoldsRecord(r, a, dat)
            && (forall x :: 0 <= x < SIZE && !(a <= x < a + |dat|) ==> r[x] == m[x])
  {
    FlatProgramEffect(m, a, dat);
    forall x | a <= x < a + |dat|
      ensures FlatProgram(m, a, dat)[x] == dat[x - a]
    {
      ErasedKeepsByte(dat[x - a]);
    }
  }

  /** Heads depend only on the cells before the slot after them. */
  lemma SameHeads(m: seq<Byte>, r: seq<Byte>, adr: nat, d: nat, n: nat)
    requires |m| == |r| == SIZE && IsSector(adr) && 1 <= d < 64 && n <= Capacity(d)
    requires forall x :: adr <= x < RecordSlot(adr, d, n) && x < SIZE ==> r[x] == m[x]
    ensures Heads(r, adr, d)[..n] == Heads(m, adr, d)[..n]
  {
    forall k | 0 <= k < n
      ensures Heads(r, adr, d)[k] == Heads(m, adr, d)[k]
    {
      SlotFits(d, k);
      SlotOrder(d, k, n);
    }
  }

  /** Programming a record into the blank slot n: it is stored exactly and nothing else moves. */
  lemma AppendRecord(m: seq<Byte>, adr: nat, d: nat, n: nat, dat: seq<Byte>)
    requires |m| == SIZE && IsSector(adr) && 1 <= d < 64 && n < Capacity(d) && |dat| == 4 * d
    requires BlankFrom(m, adr, 4 * (n * d))
    ensures var r := FlatProgram(m, RecordSlot(adr, d, n), dat);
            && HoldsRecord(r, RecordSlot(adr, d, n), dat)
            && BlankFrom(r, adr, 4 * ((n + 1) * d))
            && Heads(r, adr, d)[..n] == Heads(m, adr, d)[..n]
            && SameOutside(m, r, adr, SECTOR)
  {
    hide FlatProgram;
    var a := RecordSlot(adr, d, n);
    SlotFits(d, n);
    ProgramBlank(m, a, dat);
    SameHeads(m, FlatProgram(m, a, dat), adr, d, n);
  }

  /** Invalidating the record in slot n: only its first word changes. */
  lemma MarkRecord(m: seq<Byte>, adr: nat, flag: Word, d: nat, n: nat)
    requires |m| == SIZE && IsSector(adr) && 1 <= d < 64 && n < Capacity(d)
    requires AndWord(Heads(m, adr, d)[n], flag) == flag
    ensures var r := Marked(m, adr, flag, d, n);
            && Heads(r, adr, d)[..n] == Heads(m, adr, d)[..n]
            && Heads(r, adr, d)[n] == flag
            && (BlankFrom(m, adr, 4 * ((n + 1) * d)) ==> BlankFrom(r, adr, 4 * ((n + 1) * d)))
            && SameOutside(m, r, adr, SECTOR)
  {
    hide FlatProgram;
    var a := RecordSlot(adr, d, n);
    SlotFits(d, n);
    ProgramWordEffect(m, a, flag);
    SameHeads(m, FlatProgram(m, a, BytesOf(flag)), adr, d, n);
  }

  lemma NextOnBlank(m: seq<Byte>, adr: nat, flag: Word, d: nat, rec: seq<Byte>, dat: seq<Byte>)
    requires |m| == SIZE && IsSector(adr) && 1 <= d < 64 && flag != ERASED
    requires Shelf(m, adr, flag, d, 0, rec) && StorableRecord(dat, flag, d) && 0 < Capacity(d)
    ensures var r := RecordWritten(m, adr, flag, dat);
            Shelf(r, adr, flag, d, 1, dat) && SameOutside(m, r, adr, SECTOR)
  {
    hide FlatProgram;
    ShelfScan(m, adr, flag, d, 0, rec);
    AppendRecord(m, adr, d, 0, dat);
    assert RecordWritten(m, adr, flag, dat) == FlatProgram(m, RecordSlot(adr, d, 0), dat);
  }

  /** The flash after the first word of slot n is invalidated. */
  function Marked(m: seq<Byte>, adr: nat, flag: Word, d: nat, n: nat): (r: seq<Byte>)
    requires |m| == SIZE
    ensures |r| == SIZE
  {
    FlatProgram(m, RecordSlot(adr, d, n), BytesOf(flag))
  }

  /** The mark of the last record on a shelf, and where the next record then goes. */
  lemma MarkShelf(m: seq<Byte>, adr: nat, flag: Word, d: nat, n: nat, rec: seq<Byte>, dat: seq<Byte>)
    requires |m| == SIZE && IsSector(adr) && 1 <= d < 64 && flag != ERASED && 0 < n
    requires Shelf(m, adr, flag, d, n, rec) && |dat| == 4 * d
    ensures var m' := Marked(m, adr, flag, d, n - 1);
            && RecordWritten(m, adr, flag, dat) == FlatProgram(m', RecordSlot(adr, d, n), dat)
            && (var hs := Heads(m', adr, d); forall k :: 0 <= k < n ==> hs[k] == flag)
            && BlankFrom(m', adr, 4 * (n * d))
            && SameOutside(m, m', adr, SECTOR)
  {
    hide FlatProgram, Capacity, AndByte;
    ShelfScan(m, adr, flag, d, n, rec);
    MarkRecord(m, adr, flag, d, n - 1);
    var hs, hs' := Heads(m, adr, d), Heads(Marked(m, adr, flag, d, n - 1), adr, d);
    forall k | 0 <= k < n - 1
      ensures hs'[k] == flag
    {
      assert hs'[k] == hs'[..n - 1][k] == hs[..n - 1][k];
    }
  }

  lemma NextOnShelf(m: seq<Byte>, adr: nat, flag: Word, d: nat, n: nat, rec: seq<Byte>, dat: seq<Byte>)
    requires |m| == SIZE && IsSector(adr) && 1 <= d < 64 && flag != ERASED && 0 < n < Capacity(d)
    requires Shelf(m, adr, flag, d, n, rec) && StorableRecord(dat, flag, d)
    ensures var r := RecordWritten(m, adr, flag, dat);
            Shelf(r, adr, flag, d, n + 1, dat) && SameOutside(m, r, adr, SECTOR)
  {
    hide FlatProgram;
    var m' := Marked(m, adr, flag, d, n - 1);
    MarkShelf(m, adr, flag, d, n, rec, dat);
    AppendRecord(m', adr, d, n, dat);
    var hs', hr := Heads(m', adr, d), Heads(FlatProgram(m', RecordSlot(adr, d, n), dat), adr, d);
    forall k | 0 <= k < n
      ensures hr[k] == flag
    {
      assert hr[k] == hr[..n][k] == hs'[..n][k];
    }
  }

  /** Below the capacity one more write turns a shelf of n records into one of n + 1. */
  lemma NextRecord(m: seq<Byte>, adr: nat, flag: Word, d: nat, n: nat, rec: seq<Byte>, dat: seq<Byte>)
    requires |m| == SIZE && IsSector(adr) && 1 <= d < 64 && flag != ERASED && n < Capacity(d)
    requires Shelf(m, adr, flag, d, n, rec) && StorableRecord(dat, flag, d)
    ensures var r := RecordWritten(m, adr, flag, dat);
            Shelf(r, adr, flag, d, n + 1, dat) && SameOutside(m, r, adr, SECTOR)
  {
    if n == 0 {
      NextOnBlank(m, adr, flag, d, rec, dat);
    } else {
      NextOnShelf(m, adr, flag, d, n, rec, dat);
    }
  }

  /** A record on the shelf is read back byte for byte. */
  lemma ReadShelf(m: seq<Byte>, adr: nat, flag: Word, d: nat, n: nat, rec: seq<Byte>)
    requires |m| == SIZE && IsSector(adr) && 1 <= d < 64 && flag != ERASED
    requires Shelf(m, adr, flag, d, n, rec)
    ensures Reading(m, adr, flag, 4 * d) == if n == 0 then Nothing else Record(rec)
    ensures !ReadErases(m, adr, flag, 4 * d)
  {
    hide Shelf, Capacity, Heads;
    ShelfScan(m, adr, flag, d, n, rec);
    ReadCases(m, adr, flag, d);
    if n > 0 {
      ShelfHolds(m, adr, flag, d, n, rec);
      ReadHeld(m, RecordSlot(adr, d, n - 1), rec);
    }
  }

  /** Reading records of d whole words, by what the scan found. */
  lemma ReadCases(m: seq<Byte>, adr: nat, flag: Word, d: nat)
    requires |m| == SIZE && IsSector(adr) && 1 <= d < 64
    ensures var hs := Heads(m, adr, d);
            var n := Scan(hs, flag);
            && Reading(m, adr, flag, 4 * d)
               == (if CellOf(hs, flag).Live? then Record(ReadAt(m, RecordSlot(adr, d, n), 4 * d)) else Nothing)
            && (ReadErases(m, adr, flag, 4 * d)
                <==> CellOf(hs, flag) == Empty && n * d >= READ_ERASE_LIMIT)
            && 0 * d == 0
  {
    assert (4 * d + 3) / 4 == d;
  }

  lemma ShelfHolds(m: seq<Byte>, adr: nat, flag: Word, d: nat, n: nat, rec: seq<Byte>)
    requires |m| == SIZE && IsSector(adr) && 1 <= d < 64 && n >= 1 && Shelf(m, adr, flag, d, n, rec)
    ensures HoldsRecord(m, RecordSlot(adr, d, n - 1), rec) && |rec| == 4 * d
  {
  }

  lemma ReadHeld(m: seq<Byte>, a: nat, rec: seq<Byte>)
    requires |m| == SIZE && HoldsRecord(m, a, rec)
    ensures ReadAt(m, a, |rec|) == rec
  {
    var got := ReadAt(m, a, |rec|);
    forall k | 0 <= k < |rec|
      ensures got[k] == rec[k]
    {
      assert (a + k) % SIZE == a + k;
      assert m[a + k] == rec[a + k - a];
    }
  }

  // ----- beyond the capacity -----

  /** Every record that the scans look at is invalid. */
  ghost predicate Spent(m: seq<Byte>, adr: nat, flag: Word, d: nat)
    requires |m| == SIZE && IsSector(adr) && 1 <= d < 64
  {
    forall k :: 0 <= k < Capacity(d) ==> Heads(m, adr, d)[k] == flag
  }

  /** A record that starts in the sector misses the cells before it, even if it wraps the chip. */
  lemma CellAhead(adr: nat, off: nat, k: nat, x: nat)
    requires IsSector(adr) && off < SECTOR && k < 0x100 && adr <= x < adr + off
    ensures FlatCell(adr + off, k) != x
  {
  }

  lemma RecordMissesBefore(m: seq<Byte>, adr: nat, off: nat, dat: seq<Byte>)
    requires |m| == SIZE && IsSector(adr) && off < SECTOR && |dat| <= 0x100
    ensures forall x :: adr <= x < adr + off ==> FlatProgram(m, adr + off, dat)[x] == m[x]
  {
    hide FlatCell, FlatProgram;
    var a := adr + off;
    forall x | adr <= x < a
      ensures FlatProgram(m, a, dat)[x] == m[x]
    {
      forall k | 0 <= k < |dat|
        ensures FlatCell(a, k) != x
      {
        CellAhead(adr, off, k, x);
      }
      FlatProgramMisses(m, a, dat, x);
    }
  }

  /** Past the capacity the record goes to slot Capacity(d), which no scan looks at. */
  lemma HeadsBeforeLastSlot(m: seq<Byte>, adr: nat, d: nat, dat: seq<Byte>)
    requires |m| == SIZE && IsSector(adr) && 1 <= d < 64 && |dat| <= 4 * d
    ensures Heads(FlatProgram(m, RecordSlot(adr, d, Capacity(d)), dat), adr, d) == Heads(m, adr, d)
  {
    hide FlatProgram;
    var c := Capacity(d);
    CapacityIsLoopBound(d, c);
    RecordMissesBefore(m, adr, 4 * (c * d), dat);
    SameHeads(m, FlatProgram(m, RecordSlot(adr, d, c), dat), adr, d, c);
  }

  /** One write more than the capacity, or any later one, leaves nothing to be found. */
  lemma WriteBeyond(m: seq<Byte>, adr: nat, flag: Word, d: nat, rec: seq<Byte>, dat: seq<Byte>)
    requires |m| == SIZE && IsSector(adr) && 1 <= d < 64 && flag != ERASED
    requires Shelf(m, adr, flag, d, Capacity(d), rec) || Spent(m, adr, flag, d)
    requires StorableRecord(dat, flag, d)
    ensures Spent(RecordWritten(m, adr, flag, dat), adr, flag, d)
  {
    hide FlatProgram, Capacity, AndByte;
    var c := Capacity(d);
    if Spent(m, adr, flag, d) {
      ScanIs(Heads(m, adr, d), flag, c);
      HeadsBeforeLastSlot(m, adr, d, dat);
    } else {
      MarkShelf(m, adr, flag, d, c, rec, dat);
      HeadsBeforeLastSlot(Marked(m, adr, flag, d, c - 1), adr, d, dat);
    }
  }

  lemma ReadSpent(m: seq<Byte>, adr: nat, flag: Word, d: nat)
    requires |m| == SIZE && IsSector(adr) && 1 <= d < 64 && flag != ERASED && Spent(m, adr, flag, d)
    ensures Reading(m, adr, flag, 4 * d) == Nothing
    ensures ReadErases(m, adr, flag, 4 * d) <==> Capacity(d) * d >= READ_ERASE_LIMIT
  {
    ScanIs(Heads(m, adr, d), flag, Capacity(d));
  }

  // ----- runs -----

  function WriteRecords(m: seq<Byte>, adr: nat, flag: Word, d: nat, recs: seq<seq<Byte>>): (r: seq<Byte>)
    requires |m| == SIZE && IsSector(adr) && 1 <= d < 64
    requires forall k :: 0 <= k < |recs| ==> StorableRecord(recs[k], flag, d)
    ensures |r| == SIZE
  {
    if recs == [] then m
    else
      assert StorableRecord(recs[|recs| - 1], flag, d);
      RecordWritten(WriteRecords(m, adr, flag, d, recs[..|recs| - 1]), adr, flag, recs[|recs| - 1])
  }

  ghost predicate AfterWrites(m: seq<Byte>, r: seq<Byte>, adr: nat, flag: Word, d: nat, n: nat, last: seq<Byte>)
    requires |m| == |r| == SIZE && IsSector(adr) && 1 <= d < 64
  {
    if n <= Capacity(d) then Shelf(r, adr, flag, d, n, last) && SameOutside(m, r, adr, SECTOR)
    else Spent(r, adr, flag, d)
  }

  lemma {:induction false} WriteRecordsShelves(m: seq<Byte>, adr: nat, flag: Word, d: nat, recs: seq<seq<Byte>>)
    requires |m| == SIZE && IsSector(adr) && 1 <= d < 64 && flag != ERASED
    requires BlankFrom(m, adr, 0)
    requires forall k :: 0 <= k < |recs| ==> StorableRecord(recs[k], flag, d)
    ensures AfterWrites(m, WriteRecords(m, adr, flag, d, recs), adr, flag, d, |recs|,
                        if recs == [] then [] else recs[|recs| - 1])
  {
    if recs != [] {
      var front, dat := recs[..|recs| - 1], recs[|recs| - 1];
      var before := WriteRecords(m, adr, flag, d, front);
      var last := if front == [] then [] else front[|front| - 1];
      WriteRecordsShelves(m, adr, flag, d, front);
      if |recs| <= Capacity(d) {
        NextRecord(before, adr, flag, d, |front|, last, dat);
      } else {
        WriteBeyond(before, adr, flag, d, last, dat);
      }
    }
  }

  /**
   Record round trip and exact capacity: after n records are written to an erased sector, a read
   gives back all bytes of the last one if and only if 1 <= n <= 1023 / d, and up to there no
   byte outside the sector has changed. Beyond that a read finds nothing.
   */
  lemma RoundTripExactly(m: seq<Byte>, adr: nat, flag: Word, d: nat, recs: seq<seq<Byte>>)
    requires |m| == SIZE && IsSector(adr) && 1 <= d < 64 && flag != ERASED
    requires BlankFrom(m, adr, 0)
    requires forall k :: 0 <= k < |recs| ==> StorableRecord(recs[k], flag, d)
    ensures var r, n := WriteRecords(m, adr, flag, d, recs), |recs|;
            && Reading(r, adr, flag, 4 * d)
               == (if 1 <= n <= 1023 / d then Record(recs[n - 1]) else Nothing)
            && (n <= 1023 / d ==> SameOutside(m, r, adr, SECTOR) && !ReadErases(r, adr, flag, 4 * d))
  {
    var r := WriteRecords(m, adr, flag, d, recs);
    WriteRecordsShelves(m, adr, flag, d, recs);
    if |recs| <= Capacity(d) {
      ReadShelf(r, adr, flag, d, |recs|, if recs == [] then [] else recs[|recs| - 1]);
    } else {
      ReadSpent(r, adr, flag, d);
    }
  }

  /** The slot after the last one in capacity fits in the sector exactly when d divides 1024. */
  lemma OverflowSlotFits(d: nat)
    requires 1 <= d < 64
    ensures (Capacity(d) + 1) * d <= SLOTS <==> SLOTS % d == 0
  {
    var c, q, t := Capacity(d), SLOTS / d, SLOTS % d;
    assert c * d <= SLOTS - 1 < c * d + d;
    assert (c + 1) * d == c * d + d;
    assert SLOTS == q * d + t;
    if q <= c {
      SlotOrder(d, q, c);
    } else {
      SlotOrder(d, c + 1, q);
    }
  }

  /**
   The first write past the capacity programs slot Capacity(d). It stays inside the sector
   exactly when d divides 1024; otherwise it clears bits of the next sector.
   */
  lemma OverflowWrite(m: seq<Byte>, adr: nat, flag: Word, d: nat, rec: seq<Byte>, dat: seq<Byte>)
    requires |m| == SIZE && IsSector(adr) && adr + 2 * SECTOR <= SIZE && 1 <= d < 64 && flag != ERASED
    requires Shelf(m, adr, flag, d, Capacity(d), rec) && StorableRecord(dat, flag, d)
    ensures var r := RecordWritten(m, adr, flag, dat);
            if SLOTS % d == 0 then SameOutside(m, r, adr, SECTOR)
            else var k := SECTOR - 4 * (Capacity(d) * d);
                 0 <= k < |dat| && r[adr + SECTOR] == AndByte(m[adr + SECTOR], dat[k])
  {
    hide FlatProgram, AndByte;
    var c := Capacity(d);
    var a := RecordSlot(adr, d, c);
    CapacityIsLoopBound(d, c);
    OverflowSlotFits(d);
    assert (c + 1) * d == c * d + d;
    MarkShelf(m, adr, flag, d, c, rec, dat);
    FlatProgramEffect(Marked(m, adr, flag, d, c - 1), a, dat);
  }
}
