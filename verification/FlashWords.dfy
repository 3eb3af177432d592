/**
 Words in the byte memory of the flash device, and how word operations on one sector are
 carried out by the device.
 */
module FlashWords {
  import opened Arith
  import opened Bits
  import opened NorFlash
  import opened SectorLog

  function WordAt(m: seq<Byte>, a: nat): (w: Word)
    requires a + 4 <= |m|
  {
    Word(m[a], m[a + 1], m[a + 2], m[a + 3])
  }

  function FromBytes(bs: seq<Byte>): (w: Word)
    requires |bs| == 4
    ensures BytesOf(w) == bs
  {
    Word(bs[0], bs[1], bs[2], bs[3])
  }

  /** The n words from address adr on. */
  function Words(m: seq<Byte>, adr: nat, n: nat): (ws: seq<Word>)
    requires adr + 4 * n <= |m|
    ensures |ws| == n
  {
    seq(n, i requires 0 <= i < n => WordAt(m, adr + 4 * i))
  }

  /** What a flat program does to each cell, when it does not reach the end of the chip. */
  lemma {:induction false} FlatProgramCells(m: seq<Byte>, addr: nat, data: seq<Byte>, x: nat)
    requires |m| == SIZE && addr + |data| <= SIZE && x < SIZE
    ensures FlatProgram(m, addr, data)[x]
         == if addr <= x < addr + |data| then AndByte(m[x], data[x - addr]) else m[x]
  {
    if data != [] {
      var k := |data| - 1;
      FlatProgramCells(m, addr, data[..k], x);
    }
  }

  /** Bit by bit: a bit of a cell is set afterwards exactly when it was, and is in the byte put onto it. */
  lemma ProgrammedBits(m: seq<Byte>, addr: nat, data: seq<Byte>, x: nat, i: nat)
    requires |m| == SIZE && addr + |data| <= SIZE && x < SIZE
    ensures BitAt(FlatProgram(m, addr, data)[x], i) == 1
            <==> BitAt(m[x], i) == 1 && (addr <= x < addr + |data| ==> BitAt(data[x - addr], i) == 1)
  {
    hide FlatProgram, BitAt;
    FlatProgramCells(m, addr, data, x);
    if addr <= x < addr + |data| {
      AndBits(m[x], data[x - addr], i);
    }
  }

  lemma FlatProgramEffect(m: seq<Byte>, addr: nat, data: seq<Byte>)
    requires |m| == SIZE && addr + |data| <= SIZE
    ensures forall x :: 0 <= x < SIZE ==>
              FlatProgram(m, addr, data)[x]
              == if addr <= x < addr + |data| then AndByte(m[x], data[x - addr]) else m[x]
  {
    forall x | 0 <= x < SIZE
      ensures FlatProgram(m, addr, data)[x]
           == if addr <= x < addr + |data| then AndByte(m[x], data[x - addr]) else m[x]
    {
      FlatProgramCells(m, addr, data, x);
    }
  }

  /** The four bytes from a on lie in one page. */
  predicate InOnePage(a: nat) {
    a % PAGE + 4 <= PAGE
  }

  /** An aligned word never crosses the end of a page. */
  lemma AlignedFits(a: nat)
    requires a % 4 == 0
    ensures InOnePage(a)
  {
  }

  lemma WordIsOneChunk(a: nat, w: Word)
    requires InOnePage(a)
    ensures Chunks(a, BytesOf(w)) == [Program(a, BytesOf(w))]
  {
  }

  lemma ProgramWordEffect(m: seq<Byte>, a: nat, w: Word)
    requires |m| == SIZE && a + 4 <= SIZE
    ensures var r := FlatProgram(m, a, BytesOf(w));
            && WordAt(r, a) == AndWord(WordAt(m, a), w)
            && (forall x :: 0 <= x < SIZE && !(a <= x < a + 4) ==> r[x] == m[x])
  {
    hide FlatProgram, And;
    FlatProgramEffect(m, a, BytesOf(w));
  }

  // ----- word operations on the device -----

  function Lower(adr: nat, op: WordOp): (r: Op) {
    match op
    case ProgramWord(i, w) => Program(adr + 4 * i, BytesOf(w))
    case EraseAll => Erase(adr)
  }

  function LowerAll(adr: nat, ops: seq<WordOp>): (r: seq<Op>)
    ensures |r| == |ops|
  {
    seq(|ops|, k requires 0 <= k < |ops| => Lower(adr, ops[k]))
  }

  /** Memory outside the len bytes at adr is the same. */
  predicate SameOutside(m: seq<Byte>, r: seq<Byte>, adr: nat, len: nat)
    requires |m| == |r| == SIZE
  {
    forall x :: 0 <= x < SIZE && !(adr <= x < adr + len) ==> r[x] == m[x]
  }

  lemma SameOutsideTransitive(a: seq<Byte>, b: seq<Byte>, c: seq<Byte>, adr: nat, len: nat)
    requires |a| == |b| == |c| == SIZE && SameOutside(a, b, adr, len) && SameOutside(b, c, adr, len)
    ensures SameOutside(a, c, adr, len)
  {
  }

  predicate AllInside(ops: seq<WordOp>) {
    forall k :: 0 <= k < |ops| && ops[k].ProgramWord? ==> ops[k].slot < SLOTS
  }

  lemma ProgramWhole(m: seq<Byte>, a: nat, w: Word)
    requires |m| == SIZE && InOnePage(a)
    ensures Apply(m, Program(a, BytesOf(w))) == FlatProgram(m, a, BytesOf(w))
  {
    WordIsOneChunk(a, w);
    PageProgramIsFlat(m, a, BytesOf(w));
  }

  /** Programming word i of n consecutive ones, wherever they lie. */
  lemma WordsAfterProgram(m: seq<Byte>, adr: nat, n: nat, i: nat, w: Word)
    requires |m| == SIZE && adr + 4 * n <= SIZE && i < n
    ensures var r, ws := FlatProgram(m, adr + 4 * i, BytesOf(w)), Words(m, adr, n);
            Words(r, adr, n) == ws[i := AndWord(ws[i], w)] && SameOutside(m, r, adr, 4 * n)
  {
    hide FlatProgram, AndByte;
    var r := FlatProgram(m, adr + 4 * i, BytesOf(w));
    ProgramWordEffect(m, adr + 4 * i, w);
    forall j | 0 <= j < n && j != i
      ensures WordAt(r, adr + 4 * j) == WordAt(m, adr + 4 * j)
    {
    }
  }

  lemma LowerProgram(m: seq<Byte>, adr: nat, i: nat, w: Word)
    requires |m| == SIZE && adr % SECTOR == 0 && adr + SECTOR <= SIZE && i < SLOTS
    ensures var r := Apply(m, Program(adr + 4 * i, BytesOf(w)));
            Words(r, adr, SLOTS) == ApplyWord(Words(m, adr, SLOTS), ProgramWord(i, w)) && SameOutside(m, r, adr, SECTOR)
  {
    hide FlatProgram, PageProgram, AndByte;
    var a := adr + 4 * i;
    AlignedFits(a);
    ProgramWhole(m, a, w);
    WordsAfterProgram(m, adr, SLOTS, i, w);
  }

  lemma LowerErase(m: seq<Byte>, adr: nat)
    requires |m| == SIZE && adr % SECTOR == 0 && adr + SECTOR <= SIZE
    ensures var r := EraseAt(m, adr);
            Words(r, adr, SLOTS) == Erased(SLOTS) && SameOutside(m, r, adr, SECTOR)
  {
    assert SectorBase(adr) == adr;
    assert Words(EraseAt(m, adr), adr, SLOTS) == Erased(SLOTS);
  }

  lemma LowerRefines(m: seq<Byte>, adr: nat, op: WordOp)
    requires |m| == SIZE && adr % SECTOR == 0 && adr + SECTOR <= SIZE
    requires op.ProgramWord? ==> op.slot < SLOTS
    ensures var r := Apply(m, Lower(adr, op));
            Words(r, adr, SLOTS) == ApplyWord(Words(m, adr, SLOTS), op) && SameOutside(m, r, adr, SECTOR)
  {
    match op {
      case ProgramWord(i, w) => LowerProgram(m, adr, i, w);
      case EraseAll => LowerErase(m, adr);
    }
  }

  /** A list of word operations, carried out by the device, does to the sector what it says. */
  lemma {:induction false} LowerAllRefines(m: seq<Byte>, adr: nat, ops: seq<WordOp>, erases: nat)
    requires |m| == SIZE && adr % SECTOR == 0 && adr + SECTOR <= SIZE && AllInside(ops)
    ensures var r := Replay(m, LowerAll(adr, ops));
            && Words(r, adr, SLOTS) == Do(Chip(Words(m, adr, SLOTS), erases), ops).ws
            && SameOutside(m, r, adr, SECTOR)
    decreases |ops|
  {
    hide Apply, ApplyWord, Words, SameOutside, Lower, LowerAll, Replay;
    if ops == [] {
      LowerNone(m, adr);
    } else {
      var m' := Apply(m, Lower(adr, ops[0]));
      LowerRefines(m, adr, ops[0]);
      LowerAllRefines(m', adr, ops[1..], erases + if ops[0].EraseAll? then 1 else 0);
      ReplayLowered(m, adr, ops);
      SameOutsideTransitive(m, m', Replay(m, LowerAll(adr, ops)), adr, SECTOR);
    }
  }

  lemma LowerNone(m: seq<Byte>, adr: nat)
    requires |m| == SIZE
    ensures Replay(m, LowerAll(adr, [])) == m && SameOutside(m, m, adr, SECTOR)
  {
  }

  lemma ReplayLowered(m: seq<Byte>, adr: nat, ops: seq<WordOp>)
    requires |m| == SIZE && ops != []
    ensures Replay(m, LowerAll(adr, ops)) == Replay(Apply(m, Lower(adr, ops[0])), LowerAll(adr, ops[1..]))
  {
    hide Apply, Lower, Replay;
    assert LowerAll(adr, ops) == [Lower(adr, ops[0])] + LowerAll(adr, ops[1..]);
    ReplayOne(m, Lower(adr, ops[0]));
    ReplayConcat(m, [Lower(adr, ops[0])], LowerAll(adr, ops[1..]));
  }

  // ----- words through the drivers -----

  /** flash_write_data of one unsigned long that lies in one page: a single page program. */
  method WriteWord(f: Flash, a: nat, w: Word)
    requires f.Valid() && InOnePage(a) && a < U32
    modifies f`log, f.mem
    ensures f.log == old(f.log) + [Program(a, BytesOf(w))]
    ensures f.mem[..] == Apply(old(f.mem[..]), Program(a, BytesOf(w)))
  {
    hide InOnePage;
    WordIsOneChunk(a, w);
    ProgramWhole(f.mem[..], a, w);
    f.WriteData(a, 4, BytesOf(w));
  }

  /** flash_read_page of one unsigned long. */
  method ReadWord(f: Flash, a: nat) returns (p: Word)
    requires f.Valid() && a + 4 <= SIZE
    ensures p == WordAt(f.mem[..], a)
  {
    var b := f.ReadPage(a, 4);
    p := FromBytes(b);
  }
}
