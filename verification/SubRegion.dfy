/**
 flash_subregion_write_val and flash_subregion_read_val of firmware/drivers/8258/flash.c: a value
 log in num words anywhere in flash, which is never erased and so accepts only num values.
 */
module SubRegion {
  import opened Arith
  import opened Bits
  import opened NorFlash
  import opened SectorLog
  import opened FlashWords

  /** The 1 that an accepted write returns. */
  const ONE := Word(1, 0, 0, 0)

  predicate IsRegion(adr: nat, num: nat) {
    adr + 4 * num <= SIZE
  }

  /** flash_subregion_write_val refuses: the last word of the region is the live one. */
  predicate Full(ws: seq<Word>, flag: Word) {
    var n := Scan(ws, flag);
    n < |ws| && ws[n] != ERASED && n >= |ws| - 1
  }

  /** The flash after a write to the region. */
  function RegionWritten(m: seq<Byte>, adr: nat, flag: Word, dat: Word, num: nat): (r: seq<Byte>)
    requires |m| == SIZE && IsRegion(adr, num)
    ensures |r| == SIZE
  {
    var ws := Words(m, adr, num);
    var n := Scan(ws, flag);
    if Full(ws, flag) then m
    else if n == num || ws[n] == ERASED then FlatProgram(m, adr + 4 * n, BytesOf(dat))
    else FlatProgram(FlatProgram(m, adr + 4 * n, BytesOf(flag)), adr + 4 * (n + 1), BytesOf(dat))
  }

  /** The device operations that do it. */
  function RegionOps(m: seq<Byte>, adr: nat, flag: Word, dat: Word, num: nat): (ops: seq<Op>)
    requires |m| == SIZE && IsRegion(adr, num)
  {
    var ws := Words(m, adr, num);
    var n := Scan(ws, flag);
    if Full(ws, flag) then []
    else if n == num || ws[n] == ERASED then Chunks(adr + 4 * n, BytesOf(dat))
    else Chunks(adr + 4 * n, BytesOf(flag)) + Chunks(adr + 4 * (n + 1), BytesOf(dat))
  }

  /** What a write returns. */
  function WriteResult(ws: seq<Word>, flag: Word): (r: Word) {
    if Full(ws, flag) then flag else ONE
  }

  /** An accepted write returns 1, a refused one the flag. */
  lemma ResultMeans(ws: seq<Word>, flag: Word)
    ensures !Full(ws, flag) ==> ValueOf(WriteResult(ws, flag)) == 1
    ensures Full(ws, flag) ==> WriteResult(ws, flag) == flag
  {
  }

  /** The returned word tells acceptance from refusal in every region exactly when the flag is not 1. */
  lemma ResultTellsExactly(flag: Word)
    ensures (forall ws: seq<Word> :: WriteResult(ws, flag) == ONE <==> !Full(ws, flag)) <==> flag != ONE
  {
    if flag == ONE {
      var ws := [Word(0, 0, 0, 0)];
      ScanIs(ws, flag, 0);
      assert Full(ws, flag) && WriteResult(ws, flag) == ONE;
    }
  }

  /** A write word by word, whatever the region holds, when its first word that is no flag is word n. */
  lemma RegionWriteAnywhere(m: seq<Byte>, adr: nat, flag: Word, dat: Word, num: nat, n: nat)
    requires |m| == SIZE && IsRegion(adr, num) && flag != ERASED && n < num
    requires StopsAt(Words(m, adr, num), flag, n)
    ensures var ws, r := Words(m, adr, num), RegionWritten(m, adr, flag, dat, num);
            && (if ws[n] == ERASED then Words(r, adr, num) == ws[n := dat]
                else if n == num - 1 then r == m
                else Words(r, adr, num) == ws[n := AndWord(ws[n], flag)][n + 1 := AndWord(ws[n + 1], dat)])
            && SameOutside(m, r, adr, 4 * num)
            && (Full(ws, flag) <==> ws[n] != ERASED && n == num - 1)
  {
    hide FlatProgram, AndByte;
    var ws := Words(m, adr, num);
    ScanIs(ws, flag, n);
    ErasedKeepsWord(dat);
    if ws[n] == ERASED {
      WordsAfterProgram(m, adr, num, n, dat);
    } else if n < num - 1 {
      WordsAfterProgram(m, adr, num, n, flag);
      WordsAfterProgram(FlatProgram(m, adr + 4 * n, BytesOf(flag)), adr, num, n + 1, dat);
    }
  }

  /** A region full of flags takes no more: the word goes to the first one after the region. */
  lemma FullRegionSpills(m: seq<Byte>, adr: nat, flag: Word, dat: Word, num: nat)
    requires |m| == SIZE && IsRegion(adr, num) && adr + 4 * num + 4 <= SIZE && flag != ERASED
    requires forall j :: 0 <= j < num ==> Words(m, adr, num)[j] == flag
    ensures var r, a := RegionWritten(m, adr, flag, dat, num), adr + 4 * num;
            WordAt(r, a) == AndWord(WordAt(m, a), dat) && SameOutside(m, r, a, 4)
  {
    hide FlatProgram;
    ScanIs(Words(m, adr, num), flag, num);
    ProgramWordEffect(m, adr + 4 * num, dat);
  }

  function OfferAll(m: seq<Byte>, adr: nat, flag: Word, dats: seq<Word>, num: nat): (r: seq<Byte>)
    requires |m| == SIZE && IsRegion(adr, num)
    ensures |r| == SIZE
  {
    if dats == [] then m
    else RegionWritten(OfferAll(m, adr, flag, dats[..|dats| - 1], num), adr, flag, dats[|dats| - 1], num)
  }

  /** flash_subregion_write_val */
  method WriteVal(f: Flash, adr: nat, flag: Word, dat: Word, num: nat) returns (r: Word)
    requires f.Valid() && IsRegion(adr, num)
    modifies f`log, f.mem
    ensures f.mem[..] == RegionWritten(old(f.mem[..]), adr, flag, dat, num)
    ensures f.log == old(f.log) + RegionOps(old(f.mem[..]), adr, flag, dat, num)
    ensures r == old(WriteResult(Words(f.mem[..], adr, num), flag))
  {
    hide FlatProgram, Chunks;
    ghost var m, ws := f.mem[..], Words(f.mem[..], adr, num);
    ghost var marked := false;
    var i := 0;
    while i < num
      invariant 0 <= i <= num
      invariant forall j :: 0 <= j < i ==> !Stops(ws[j], flag)
      invariant f.mem[..] == m && f.log == old(f.log) && !marked
    {
      var p := ReadWord(f, adr + 4 * i);
      assert p == ws[i];
      if p == ERASED {
        break;
      } else if p != flag {
        ScanIs(ws, flag, i);
        if i >= num - 1 {
          return flag;
        } else {
          marked := true;
          f.WriteData(adr + 4 * i, 4, BytesOf(flag));
          i := i + 1;
        }
        break;
      }
      i := i + 1;
    }
    if !marked {
      ScanIs(ws, flag, i);
    }
    f.WriteData(adr + 4 * i, 4, BytesOf(dat));
    return ONE;
  }

  /** flash_subregion_read_val */
  method ReadVal(f: Flash, adr: nat, flag: Word, num: nat) returns (r: Word)
    requires f.Valid() && IsRegion(adr, num)
    ensures r == ReadResult(CellOf(Words(f.mem[..], adr, num), flag), flag)
  {
    ghost var ws := Words(f.mem[..], adr, num);
    var i := 0;
    while i < num
      invariant 0 <= i <= num
      invariant forall j :: 0 <= j < i ==> !Stops(ws[j], flag)
    {
      var p := ReadWord(f, adr + 4 * i);
      assert p == ws[i];
      if p == ERASED {
        break;
      } else if p != flag {
        ScanIs(ws, flag, i);
        return p;
      }
      i := i + 1;
    }
    ScanIs(ws, flag, i);
    return flag;
  }

  // ----- capacity -----

  function Min(a: nat, b: nat): (r: nat) {
    if a < b then a else b
  }

  /** The region after the values dats were offered to it: invalid words, the live one, erased. */
  predicate Holds(ws: seq<Word>, flag: Word, dats: seq<Word>) {
    var k := Min(|dats|, |ws|);
    if k == 0 then Layout(ws, flag, 0, ERASED) else Layout(ws, flag, k - 1, dats[k - 1])
  }

  predicate Acceptable(dats: seq<Word>, flag: Word) {
    forall k :: 0 <= k < |dats| ==> Storable(dats[k], flag)
  }

  lemma OfferFirst(m: seq<Byte>, adr: nat, flag: Word, dat: Word, num: nat)
    requires |m| == SIZE && IsRegion(adr, num) && flag != ERASED && Storable(dat, flag)
    requires Layout(Words(m, adr, num), flag, 0, ERASED)
    ensures var r := RegionWritten(m, adr, flag, dat, num);
            Layout(Words(r, adr, num), flag, 0, dat) && SameOutside(m, r, adr, 4 * num)
  {
    var ws := Words(m, adr, num);
    LayoutMeans(ws, flag, 0, ERASED);
    FillSlot(ws, flag, 0, dat);
    WordsAfterProgram(m, adr, num, 0, dat);
  }

  lemma OfferNext(m: seq<Byte>, adr: nat, flag: Word, k: nat, dat: Word, num: nat)
    requires |m| == SIZE && IsRegion(adr, num) && flag != ERASED && Storable(dat, flag)
    requires k + 1 < num && Layout(Words(m, adr, num), flag, k, Words(m, adr, num)[k])
    requires Storable(Words(m, adr, num)[k], flag)
    ensures var r := RegionWritten(m, adr, flag, dat, num);
            Layout(Words(r, adr, num), flag, k + 1, dat) && SameOutside(m, r, adr, 4 * num)
  {
    hide FlatProgram, AndByte;
    var ws := Words(m, adr, num);
    LayoutMeans(ws, flag, k, ws[k]);
    MarkSlot(ws, flag, k);
    FillSlot(ws[k := flag], flag, k + 1, dat);
    WordsAfterProgram(m, adr, num, k, flag);
    WordsAfterProgram(FlatProgram(m, adr + 4 * k, BytesOf(flag)), adr, num, k + 1, dat);
  }

  /** Full means exactly that at least as many values were offered as there are words. */
  lemma FullExactly(ws: seq<Word>, flag: Word, dats: seq<Word>)
    requires |ws| >= 1 && flag != ERASED && Acceptable(dats, flag) && Holds(ws, flag, dats)
    ensures Full(ws, flag) <==> |dats| >= |ws|
    ensures CellOf(ws, flag) == if dats == [] then Empty else Live(dats[Min(|dats|, |ws|) - 1])
  {
    var k := Min(|dats|, |ws|);
    LayoutMeans(ws, flag, if k == 0 then 0 else k - 1, if k == 0 then ERASED else dats[k - 1]);
  }

  /** Offering one more value: accepted exactly while fewer than num were offered before. */
  lemma OfferOne(m: seq<Byte>, adr: nat, flag: Word, dats: seq<Word>, dat: Word, num: nat)
    requires |m| == SIZE && IsRegion(adr, num) && num >= 1 && flag != ERASED
    requires Acceptable(dats, flag) && Storable(dat, flag) && Holds(Words(m, adr, num), flag, dats)
    ensures var r := RegionWritten(m, adr, flag, dat, num);
            && (|dats| >= num ==> r == m)
            && Holds(Words(r, adr, num), flag, dats + [dat])
            && SameOutside(m, r, adr, 4 * num)
  {
    hide FlatProgram;
    FullExactly(Words(m, adr, num), flag, dats);
    if dats == [] {
      OfferFirst(m, adr, flag, dat, num);
    } else if |dats| < num {
      OfferNext(m, adr, flag, |dats| - 1, dat, num);
    }
  }

  lemma {:induction false} OfferAllHolds(m: seq<Byte>, adr: nat, flag: Word, dats: seq<Word>, num: nat)
    requires |m| == SIZE && IsRegion(adr, num) && num >= 1 && flag != ERASED
    requires Words(m, adr, num) == Erased(num) && Acceptable(dats, flag)
    ensures var r := OfferAll(m, adr, flag, dats, num);
            Holds(Words(r, adr, num), flag, dats) && SameOutside(m, r, adr, 4 * num)
  {
    hide FlatProgram, Words, Holds, RegionWritten, Full;
    if dats == [] {
      BlankHoldsNone(flag, num);
    } else {
      var front, dat := dats[..|dats| - 1], dats[|dats| - 1];
      var before := OfferAll(m, adr, flag, front, num);
      OfferAllHolds(m, adr, flag, front, num);
      OfferOne(before, adr, flag, front, dat, num);
      assert front + [dat] == dats;
      SameOutsideTransitive(m, before, RegionWritten(before, adr, flag, dat, num), adr, 4 * num);
    }
  }

  lemma BlankHoldsNone(flag: Word, num: nat)
    requires num >= 1
    ensures Holds(Erased(num), flag, [])
  {
  }

  lemma {:induction false} LaterWritesChangeNothing(m: seq<Byte>, adr: nat, flag: Word, dats: seq<Word>, num: nat)
    requires |m| == SIZE && IsRegion(adr, num) && num >= 1 && flag != ERASED
    requires Words(m, adr, num) == Erased(num) && Acceptable(dats, flag) && |dats| >= num
    ensures OfferAll(m, adr, flag, dats, num) == OfferAll(m, adr, flag, dats[..num], num)
  {
    if |dats| == num {
      assert dats[..num] == dats;
    } else {
      var front, dat := dats[..|dats| - 1], dats[|dats| - 1];
      OfferAllHolds(m, adr, flag, front, num);
      OfferOne(OfferAll(m, adr, flag, front, num), adr, flag, front, dat, num);
      LaterWritesChangeNothing(m, adr, flag, front, num);
      assert front[..num] == dats[..num];
    }
  }

  /**
   Exact capacity: from an erased region, exactly the first num values are accepted; later ones
   are refused and change nothing; a read gives the last accepted value, or the flag when there
   is none; nothing outside the region changes.
   */
  lemma ExactCapacity(m: seq<Byte>, adr: nat, flag: Word, dats: seq<Word>, num: nat)
    requires |m| == SIZE && IsRegion(adr, num) && num >= 1 && flag != ERASED
    requires Words(m, adr, num) == Erased(num) && Acceptable(dats, flag)
    ensures var r := OfferAll(m, adr, flag, dats, num);
            var ws := Words(r, adr, num);
            && (Full(ws, flag) <==> |dats| >= num)
            && ReadResult(CellOf(ws, flag), flag)
               == (if dats == [] then flag else dats[Min(|dats|, num) - 1])
            && SameOutside(m, r, adr, 4 * num)
            && (|dats| >= num ==> r == OfferAll(m, adr, flag, dats[..num], num))
  {
    OfferAllHolds(m, adr, flag, dats, num);
    FullExactly(Words(OfferAll(m, adr, flag, dats, num), adr, num), flag, dats);
    if |dats| >= num {
      LaterWritesChangeNothing(m, adr, flag, dats, num);
    }
  }

  // ----- power loss -----

  lemma OpsDoWrite(m: seq<Byte>, adr: nat, flag: Word, dat: Word, num: nat)
    requires |m| == SIZE && IsRegion(adr, num)
    ensures Replay(m, RegionOps(m, adr, flag, dat, num)) == RegionWritten(m, adr, flag, dat, num)
  {
    hide FlatProgram, Chunks, Replay, Words, Scan;
    var n := Scan(Words(m, adr, num), flag);
    NoOps(m);
    ChunksRefineFlat(m, adr + 4 * n, BytesOf(dat));
    TwoWrites(m, adr + 4 * n, BytesOf(flag), adr + 4 * (n + 1), BytesOf(dat));
  }

  /** A write that is cut off by power loss after at most upto of its device operations. */
  datatype Offer = Offer(dat: Word, upto: nat)

  /** The independent specification: how many words are used up before the value, and the value. */
  datatype Slots = Slots(used: nat, cell: Cell)

  function Next(st: Slots, o: Offer, num: nat): (r: Slots) {
    if o.upto == 0 || (st.cell.Live? && st.used + 1 >= num) then st
    else if st.cell == Empty then Slots(st.used, Live(o.dat))
    else Slots(st.used + 1, if o.upto == 1 then Empty else Live(o.dat))
  }

  function After(os: seq<Offer>, num: nat): (r: Slots) {
    if os == [] then Slots(0, Empty) else Next(After(os[..|os| - 1], num), os[|os| - 1], num)
  }

  function CutWrite(m: seq<Byte>, adr: nat, flag: Word, o: Offer, num: nat): (r: seq<Byte>)
    requires |m| == SIZE && IsRegion(adr, num)
    ensures |r| == SIZE
  {
    var ops := RegionOps(m, adr, flag, o.dat, num);
    Replay(m, CutAfter(ops, o.upto))
  }

  function CutRun(m: seq<Byte>, adr: nat, flag: Word, os: seq<Offer>, num: nat): (r: seq<Byte>)
    requires |m| == SIZE && IsRegion(adr, num)
    ensures |r| == SIZE
  {
    if os == [] then m else CutWrite(CutRun(m, adr, flag, os[..|os| - 1], num), adr, flag, os[|os| - 1], num)
  }

  predicate Shows(ws: seq<Word>, flag: Word, st: Slots) {
    match st.cell
    case Empty => Layout(ws, flag, st.used, ERASED)
    case Live(v) => Layout(ws, flag, st.used, v) && Storable(v, flag)
  }

  lemma ShowsMeans(ws: seq<Word>, flag: Word, st: Slots)
    requires flag != ERASED && Shows(ws, flag, st)
    ensures Scan(ws, flag) == st.used < |ws| && CellOf(ws, flag) == st.cell
    ensures Full(ws, flag) <==> st.cell.Live? && st.used + 1 >= |ws|
  {
    LayoutMeans(ws, flag, st.used, if st.cell.Live? then st.cell.value else ERASED);
  }

  /** Word n of the region lies in one page, so that it is programmed in one operation. */
  predicate WordWhole(adr: nat, n: nat) {
    InOnePage(adr + 4 * n)
  }

  predicate WordsWhole(adr: nat, num: nat) {
    forall n :: 0 <= n < num ==> WordWhole(adr, n)
  }

  /** Which regions have only such words: the aligned ones, and those inside one page. */
  lemma WholeExactly(adr: nat, num: nat)
    requires num >= 1
    ensures WordsWhole(adr, num) <==> adr % 4 == 0 || adr % PAGE + 4 * num <= PAGE
  {
    if adr % 4 == 0 {
      forall n | 0 <= n < num
        ensures WordWhole(adr, n)
      {
        AlignedFits(adr + 4 * n);
      }
    } else if adr % PAGE + 4 * num <= PAGE {
      forall n | 0 <= n < num
        ensures WordWhole(adr, n)
      {
        PageRoom(adr, 4 * n);
      }
    } else {
      CrossingWord(adr, num);
    }
  }

  /** The word in which the page of adr ends, when that is not where a word ends. */
  lemma CrossingWord(adr: nat, num: nat)
    requires adr % 4 != 0 && adr % PAGE + 4 * num > PAGE
    ensures !WordsWhole(adr, num)
  {
    var o := adr % PAGE;
    var n := (PAGE - o) / 4;
    UnalignedInPage(adr);
    PageRoom(adr, 4 * n);
    assert !WordWhole(adr, n);
  }

  lemma UnalignedInPage(adr: nat)
    ensures adr % PAGE % 4 == adr % 4
  {
    var q, o := adr / PAGE, adr % PAGE;
    ModuloPlusMultiple(o, 64 * q, 4);
  }

  lemma CutOneOp(m: seq<Byte>, a: nat, w: Word, upto: nat)
    requires |m| == SIZE && InOnePage(a)
    ensures var ops := Chunks(a, BytesOf(w));
            Replay(m, CutAfter(ops, upto))
            == if upto == 0 then m else FlatProgram(m, a, BytesOf(w))
  {
    WordIsOneChunk(a, w);
    ProgramWhole(m, a, w);
    ReplayOne(m, Program(a, BytesOf(w)));
    hide FlatProgram, PageProgram, Chunks;
    assert [Program(a, BytesOf(w))][..0] == [];
  }

  lemma CutTwoOps(m: seq<Byte>, a: nat, v: Word, b: nat, w: Word, upto: nat)
    requires |m| == SIZE && InOnePage(a) && InOnePage(b)
    ensures var ops := Chunks(a, BytesOf(v)) + Chunks(b, BytesOf(w));
            var m' := FlatProgram(m, a, BytesOf(v));
            Replay(m, CutAfter(ops, upto))
            == if upto == 0 then m else if upto == 1 then m' else FlatProgram(m', b, BytesOf(w))
  {
    var x, y := Program(a, BytesOf(v)), Program(b, BytesOf(w));
    WordIsOneChunk(a, v);
    WordIsOneChunk(b, w);
    ProgramWhole(m, a, v);
    ProgramWhole(FlatProgram(m, a, BytesOf(v)), b, w);
    ReplayOne(m, x);
    ReplayTwo(m, x, y);
    hide FlatProgram, PageProgram, Chunks;
    assert [x] + [y] == [x, y] && [x, y][..0] == [] && [x, y][..1] == [x];
  }

  /** A write cut anywhere does to the region what the specification does to its slots. */
  lemma CutStep(m: seq<Byte>, adr: nat, flag: Word, o: Offer, num: nat, st: Slots)
    requires |m| == SIZE && IsRegion(adr, num) && WordsWhole(adr, num) && flag != ERASED
    requires Storable(o.dat, flag) && Shows(Words(m, adr, num), flag, st)
    ensures var r := CutWrite(m, adr, flag, o, num);
            Shows(Words(r, adr, num), flag, Next(st, o, num)) && SameOutside(m, r, adr, 4 * num)
  {
    hide FlatProgram, Chunks, Replay, AndWord, Words;
    var ws, n, dat := Words(m, adr, num), st.used, o.dat;
    ShowsMeans(ws, flag, st);
    assert WordWhole(adr, n);
    if st.cell.Live? && n + 1 >= num {
      NoOps(m);
    } else if st.cell == Empty {
      CutOneOp(m, adr + 4 * n, dat, o.upto);
      FillSlot(ws, flag, n, dat);
      WordsAfterProgram(m, adr, num, n, dat);
    } else {
      assert WordWhole(adr, n + 1);
      CutTwoOps(m, adr + 4 * n, flag, adr + 4 * (n + 1), dat, o.upto);
      MarkSlot(ws, flag, n);
      FillSlot(ws[n := flag], flag, n + 1, dat);
      WordsAfterProgram(m, adr, num, n, flag);
      WordsAfterProgram(FlatProgram(m, adr + 4 * n, BytesOf(flag)), adr, num, n + 1, dat);
    }
  }

  lemma NoOps(m: seq<Byte>)
    requires |m| == SIZE
    ensures Replay(m, []) == m
  {
  }

  /**
   Power loss in the bounded region: from an erased region without a word that crosses a page,
   writes cut off anywhere leave it as the specification says, so a read gives the last value that was programmed or the
   flag, at most num words are ever used, and no byte outside changes.
   */
  lemma {:induction false} CutRunRefines(m: seq<Byte>, adr: nat, flag: Word, os: seq<Offer>, num: nat)
    requires |m| == SIZE && IsRegion(adr, num) && num >= 1 && WordsWhole(adr, num) && flag != ERASED
    requires Words(m, adr, num) == Erased(num)
    requires forall k :: 0 <= k < |os| ==> Storable(os[k].dat, flag)
    ensures var ws, st := Words(CutRun(m, adr, flag, os, num), adr, num), After(os, num);
            Shows(ws, flag, st) && st.used < num && CellOf(ws, flag) == st.cell
    ensures SameOutside(m, CutRun(m, adr, flag, os, num), adr, 4 * num)
  {
    hide CutWrite, Next, Words;
    if os == [] {
      assert Layout(Erased(num), flag, 0, ERASED);
    } else {
      var front, o := os[..|os| - 1], os[|os| - 1];
      var before := CutRun(m, adr, flag, front, num);
      CutRunRefines(m, adr, flag, front, num);
      CutStep(before, adr, flag, o, num, After(front, num));
      SameOutsideTransitive(m, before, CutWrite(before, adr, flag, o, num), adr, 4 * num);
    }
    ShowsMeans(Words(CutRun(m, adr, flag, os, num), adr, num), flag, After(os, num));
  }

  // ----- regions with words that cross a page -----

  /** Wherever a write is cut, the region holds the old value, none, or the new one. */
  ghost predicate AtomicWrites(adr: nat, flag: Word, num: nat)
    requires IsRegion(adr, num)
  {
    forall m: seq<Byte>, st: Slots, dat: Word, upto: nat ::
      |m| == SIZE && Shows(Words(m, adr, num), flag, st) && Storable(dat, flag) ==>
        CellOf(Words(CutWrite(m, adr, flag, Offer(dat, upto), num), adr, num), flag)
        in {st.cell, Empty, Live(dat)}
  }

  lemma WholeIsAtomic(adr: nat, flag: Word, num: nat)
    requires IsRegion(adr, num) && WordsWhole(adr, num) && flag != ERASED
    ensures AtomicWrites(adr, flag, num)
  {
    hide CutWrite, Words, Shows, Storable;
    forall m: seq<Byte>, st: Slots, dat: Word, upto: nat
      | |m| == SIZE && Shows(Words(m, adr, num), flag, st) && Storable(dat, flag)
      ensures CellOf(Words(CutWrite(m, adr, flag, Offer(dat, upto), num), adr, num), flag)
           in {st.cell, Empty, Live(dat)}
    {
      CutStep(m, adr, flag, Offer(dat, upto), num, st);
      ShowsMeans(Words(CutWrite(m, adr, flag, Offer(dat, upto), num), adr, num), flag, Next(st, Offer(dat, upto), num));
    }
  }

  const ONES := Word(1, 1, 1, 1)

  /** A chip whose region has n words of zeros, and is erased otherwise. */
  function UsedUp(adr: nat, n: nat): (m: seq<Byte>)
    ensures |m| == SIZE
  {
    seq(SIZE, x => if adr <= x < adr + 4 * n then 0 else 0xff)
  }

  lemma UsedUpShows(adr: nat, n: nat, num: nat)
    requires IsRegion(adr, num) && n < num
    ensures Layout(Words(UsedUp(adr, n), adr, num), ZERO, n, ERASED)
  {
  }

  /** In the first word that crosses a page, a cut write is read back with bytes of 0xff at its end. */
  lemma TornWord(adr: nat, n: nat, num: nat)
    requires IsRegion(adr, num) && n < num && !WordWhole(adr, n)
    ensures Storable(ONES, ZERO)
    ensures var r := Words(CutWrite(UsedUp(adr, n), adr, ZERO, Offer(ONES, 1), num), adr, num);
            CellOf(r, ZERO).Live? && CellOf(r, ZERO).value.b0 == 1 && CellOf(r, ZERO).value.b3 == 0xff
  {
    hide FlatProgram, PageProgram, Words, Chunks, Replay;
    var m, a := UsedUp(adr, n), adr + 4 * n;
    var ws := Words(m, adr, num);
    UsedUpShows(adr, n, num);
    LayoutMeans(ws, ZERO, n, ERASED);
    var part := BytesOf(ONES)[..Room(a)];
    FirstOfTwo(m, a, ONES);
    TornCells(adr, n, num, part);
  }

  /** The first operation of a word that crosses a page. */
  lemma FirstOfTwo(m: seq<Byte>, a: nat, w: Word)
    requires |m| == SIZE && !InOnePage(a)
    ensures Room(a) <= 3
    ensures Replay(m, CutAfter(Chunks(a, BytesOf(w)), 1)) == FlatProgram(m, a, BytesOf(w)[..Room(a)])
  {
    var op := Program(a, BytesOf(w)[..Room(a)]);
    assert CutAfter(Chunks(a, BytesOf(w)), 1) == [op];
    hide FlatProgram, PageProgram, Chunks;
    ReplayOne(m, op);
    PageProgramIsFlat(m, a, BytesOf(w)[..Room(a)]);
  }

  lemma TornCells(adr: nat, n: nat, num: nat, part: seq<Byte>)
    requires IsRegion(adr, num) && n < num && 1 <= |part| <= 3 && part[0] == 1
    ensures var r := Words(FlatProgram(UsedUp(adr, n), adr + 4 * n, part), adr, num);
            CellOf(r, ZERO).Live? && CellOf(r, ZERO).value.b0 == 1 && CellOf(r, ZERO).value.b3 == 0xff
  {
    hide FlatProgram, AndByte;
    var m, a := UsedUp(adr, n), adr + 4 * n;
    var r := FlatProgram(m, a, part);
    FlatProgramEffect(m, a, part);
    ErasedKeepsByte(1);
    var ws := Words(r, adr, num);
    forall j | 0 <= j < n
      ensures ws[j] == ZERO
    {
    }
    ScanIs(ws, ZERO, n);
  }

  /**
   Which regions are safe against power loss: with flag 0, writes are atomic at every cut in every
   state exactly when the region is aligned or lies inside one page. Those regions are safe with
   any flag.
   */
  lemma AtomicExactly(adr: nat, num: nat, flag: Word)
    requires IsRegion(adr, num) && num >= 1 && flag != ERASED
    ensures AtomicWrites(adr, ZERO, num) <==> adr % 4 == 0 || adr % PAGE + 4 * num <= PAGE
    ensures adr % 4 == 0 || adr % PAGE + 4 * num <= PAGE ==> AtomicWrites(adr, flag, num)
  {
    hide AtomicWrites;
    WholeExactly(adr, num);
    if WordsWhole(adr, num) {
      WholeIsAtomic(adr, ZERO, num);
      WholeIsAtomic(adr, flag, num);
    } else {
      var n :| 0 <= n < num && !WordWhole(adr, n);
      NotAtomic(adr, n, num);
    }
  }

  lemma NotAtomic(adr: nat, n: nat, num: nat)
    requires IsRegion(adr, num) && n < num && !WordWhole(adr, n)
    ensures !AtomicWrites(adr, ZERO, num)
  {
    hide CutWrite, Words, WordWhole, Storable;
    UsedUpShows(adr, n, num);
    assert Shows(Words(UsedUp(adr, n), adr, num), ZERO, Slots(n, Empty));
    TornWord(adr, n, num);
  }
}
