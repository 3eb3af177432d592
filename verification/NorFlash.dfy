/**
 The NOR flash device and the page splitter of firmware/drivers/8258/flash.c.

 The device takes 24-bit addresses. Programming can only clear bits, and one page program
 wraps around inside the 256-byte page it starts in. Erasing sets a whole sector to ones.
 The reference that the splitter is proved against is a flat memory without pages.
 */
module NorFlash {
  import opened Arith
  import opened Bits

  const SIZE: nat := 0x100_0000
  const PAGE: nat := 256
  const SECTOR: nat := 4096

  /** One operation on the device: the unit that power loss cannot split in this model. */
  datatype Op =
    | Program(addr: nat, data: seq<Byte>)
    | Erase(addr: nat)

  // ----- reference: a flat memory -----

  /** Clears in one cell the bits that b has clear. */
  function ClearBits(m: seq<Byte>, p: nat, b: Byte): (r: seq<Byte>)
    requires p < |m|
    ensures |r| == |m|
  {
    m[p := AndByte(m[p], b)]
  }

  /** The cell that byte k of a flat write to addr goes to. */
  function FlatCell(addr: nat, k: nat): (p: nat)
    ensures p < SIZE
  {
    (addr + k) % SIZE
  }

  /** ANDs data byte by byte onto consecutive cells, knowing nothing of pages. */
  function FlatProgram(m: seq<Byte>, addr: nat, data: seq<Byte>): (r: seq<Byte>)
    requires |m| == SIZE
    ensures |r| == SIZE
  {
    if data == [] then m
    else
      var k := |data| - 1;
      ClearBits(FlatProgram(m, addr, data[..k]), FlatCell(addr, k), data[k])
  }

  // ----- the device -----

  /** The cell that byte k of a page program started at addr goes to. */
  function InPage(addr: nat, k: nat): (p: nat)
    ensures p < SIZE && p / PAGE == (addr % SIZE) / PAGE
  {
    (addr % SIZE) / PAGE * PAGE + (addr + k) % PAGE
  }

  /** What the device does with the bytes of one page program. */
  function PageProgram(m: seq<Byte>, addr: nat, data: seq<Byte>): (r: seq<Byte>)
    requires |m| == SIZE
    ensures |r| == SIZE
  {
    if data == [] then m
    else
      var k := |data| - 1;
      ClearBits(PageProgram(m, addr, data[..k]), InPage(addr, k), data[k])
  }

  function SectorBase(addr: nat): (b: nat)
    ensures b + SECTOR <= SIZE && b % SECTOR == 0
    ensures b <= addr % SIZE < b + SECTOR
  {
    (addr % SIZE) / SECTOR * SECTOR
  }

  function EraseAt(m: seq<Byte>, addr: nat): (r: seq<Byte>)
    requires |m| == SIZE
    ensures |r| == SIZE
  {
    var b := SectorBase(addr);
    seq(SIZE, k requires 0 <= k < SIZE => if b <= k < b + SECTOR then 0xff else m[k])
  }

  function Apply(m: seq<Byte>, op: Op): (r: seq<Byte>)
    requires |m| == SIZE
    ensures |r| == SIZE
  {
    match op
    case Program(addr, data) => PageProgram(m, addr, data)
    case Erase(addr) => EraseAt(m, addr)
  }

  function Replay(m: seq<Byte>, ops: seq<Op>): (r: seq<Byte>)
    requires |m| == SIZE
    ensures |r| == SIZE
  {
    if ops == [] then m else Apply(Replay(m, ops[..|ops| - 1]), ops[|ops| - 1])
  }

  /** The operations that are done when power fails after at most upto of them. */
  function CutAfter(ops: seq<Op>, upto: nat): (r: seq<Op>) {
    if upto < |ops| then ops[..upto] else ops
  }

  function ReadAt(m: seq<Byte>, addr: nat, len: nat): (r: seq<Byte>)
    requires |m| == SIZE
    ensures |r| == len
  {
    seq(len, k requires 0 <= k < len => m[(addr + k) % SIZE])
  }

  // ----- facts about the reference -----

  /** Programming two adjacent runs of bytes is programming their concatenation. */
  lemma {:induction false} FlatProgramConcat(m: seq<Byte>, addr: nat, d: seq<Byte>, e: seq<Byte>)
    requires |m| == SIZE
    ensures FlatProgram(m, addr, d + e) == FlatProgram(FlatProgram(m, addr, d), addr + |d|, e)
  {
    hide ClearBits;
    if e == [] {
      assert d + e == d;
    } else {
      var k := |e| - 1;
      FlatProgramConcat(m, addr, d, e[..k]);
      assert (d + e)[..|d + e| - 1] == d + e[..k];
      assert addr + (|d| + k) == addr + |d| + k;
    }
  }

  /** Cells that the bytes do not reach keep their value. */
  lemma {:induction false} FlatProgramMisses(m: seq<Byte>, addr: nat, data: seq<Byte>, x: nat)
    requires |m| == SIZE && x < SIZE
    requires forall k :: 0 <= k < |data| ==> FlatCell(addr, k) != x
    ensures FlatProgram(m, addr, data)[x] == m[x]
  {
    if data != [] {
      FlatProgramMisses(m, addr, data[..|data| - 1], x);
      assert FlatCell(addr, |data| - 1) != x;
    }
  }

  lemma SameCell(a: nat, b: nat, k: nat)
    requires a % SIZE == b % SIZE
    ensures (a + k) % SIZE == (b + k) % SIZE
  {
    var i, j, r := a / SIZE, b / SIZE, a % SIZE;
    assert a + k == SIZE * i + (r + k) && b + k == SIZE * j + (r + k);
    assert (r + k) % SIZE == (SIZE * i + (r + k)) % SIZE;
    assert (r + k) % SIZE == (SIZE * j + (r + k)) % SIZE;
  }

  lemma StaysInPage(addr: nat, k: nat)
    requires addr % PAGE + k < PAGE
    ensures InPage(addr, k) == (addr + k) % SIZE
  {
    PageRoom(addr, k);
    var s := addr % SIZE;
    assert s / PAGE * PAGE == s - addr % PAGE;
    WithinSize(addr, k);
  }

  lemma WithinSize(addr: nat, k: nat)
    requires addr % SIZE + k < SIZE
    ensures (addr + k) % SIZE == addr % SIZE + k
  {
    assert addr + k == SIZE * (addr / SIZE) + (addr % SIZE + k);
  }

  lemma PageRoom(addr: nat, k: nat)
    requires addr % PAGE + k < PAGE
    ensures (addr + k) % PAGE == addr % PAGE + k
    ensures (addr % SIZE) % PAGE == addr % PAGE
    ensures addr % SIZE + k < SIZE
  {
    var s, o := addr % SIZE, addr % PAGE;
    assert addr + k == PAGE * (addr / PAGE) + (o + k);
    assert addr == PAGE * (SIZE / PAGE * (addr / SIZE)) + s;
    assert s == PAGE * (s / PAGE) + o && s / PAGE < SIZE / PAGE;
  }

  /** A 32-bit address that wraps reaches the same cells, as the device keeps 24 bits. */
  lemma {:induction false} FlatProgramModulo(m: seq<Byte>, a: nat, b: nat, data: seq<Byte>)
    requires |m| == SIZE && a % SIZE == b % SIZE
    ensures FlatProgram(m, a, data) == FlatProgram(m, b, data)
  {
    if data != [] {
      FlatProgramModulo(m, a, b, data[..|data| - 1]);
      var k := |data| - 1;
      SameCell(a, b, k);
    }
  }

  lemma FlatProgramSplit(m: seq<Byte>, addr: nat, buf: seq<Byte>, n: nat)
    requires |m| == SIZE && n <= |buf|
    ensures FlatProgram(m, addr, buf)
         == FlatProgram(FlatProgram(m, addr, buf[..n]), Advance(addr, n), buf[n..])
  {
    assert buf[..n] + buf[n..] == buf;
    FlatProgramConcat(m, addr, buf[..n], buf[n..]);
    FlatProgramModulo(FlatProgram(m, addr, buf[..n]), addr + n, Advance(addr, n), buf[n..]);
  }

  /** A chunk that does not cross a page boundary is programmed as on a flat memory. */
  lemma {:induction false} PageProgramIsFlat(m: seq<Byte>, addr: nat, data: seq<Byte>)
    requires |m| == SIZE && addr % PAGE + |data| <= PAGE
    ensures PageProgram(m, addr, data) == FlatProgram(m, addr, data)
  {
    if data != [] {
      var k := |data| - 1;
      PageProgramIsFlat(m, addr, data[..k]);
      StaysInPage(addr, k);
    }
  }

  /** A byte past the end of the page lands at its start: as far from there as it is past the end. */
  lemma PageWraps(page: nat, o: nat, k: nat)
    requires page < SIZE / PAGE && o < PAGE && k < PAGE
    ensures InPage(page * PAGE + o, k) == page * PAGE + if o + k < PAGE then o + k else o + k - PAGE
  {
    var addr := page * PAGE + o;
    assert addr % SIZE == addr && addr / PAGE == page;
    ModuloPlusMultiple(o + k, page, PAGE);
    PassOnce(o + k);
  }

  lemma PassOnce(t: nat)
    requires t < 2 * PAGE
    ensures t % PAGE == if t < PAGE then t else t - PAGE
  {
  }

  /** One page program of at most a page: every cell of the page gets its own byte, or none. */
  lemma {:induction false} PageProgramCells(m: seq<Byte>, addr: nat, data: seq<Byte>, k: nat)
    requires |m| == SIZE && k < |data| <= PAGE
    ensures PageProgram(m, addr, data)[InPage(addr, k)] == AndByte(m[InPage(addr, k)], data[k])
    decreases |data|
  {
    var last := |data| - 1;
    forall j: nat | j < PAGE && j != k
      ensures InPage(addr, j) != InPage(addr, k)
    {
      DifferentCells(addr, j, k);
    }
    if k < last {
      PageProgramCells(m, addr, data[..last], k);
    } else {
      PageProgramMisses(m, addr, data[..last], InPage(addr, k));
    }
  }

  lemma {:induction false} PageProgramMisses(m: seq<Byte>, addr: nat, data: seq<Byte>, x: nat)
    requires |m| == SIZE && x < SIZE && forall k :: 0 <= k < |data| ==> InPage(addr, k) != x
    ensures PageProgram(m, addr, data)[x] == m[x]
  {
    if data != [] {
      PageProgramMisses(m, addr, data[..|data| - 1], x);
      assert InPage(addr, |data| - 1) != x;
    }
  }

  lemma DifferentCells(addr: nat, j: nat, k: nat)
    requires j < PAGE && k < PAGE && j != k
    ensures InPage(addr, j) != InPage(addr, k)
  {
    DifferentResidues(addr + j, addr + k, PAGE);
  }

  lemma DifferentResidues(x: nat, y: nat, d: nat)
    requires d >= 1 && x != y && x < y + d && y < x + d
    ensures x % d != y % d
  {
    if x % d == y % d {
      assert (x / d - y / d) * d == x - y;
      SmallMultiple(x / d - y / d, d);
    }
  }

  /** What is programmed onto an erased chip is read back, also round the end of the chip. */
  lemma {:induction false} FlatReadBack(m: seq<Byte>, addr: nat, data: seq<Byte>)
    requires |m| == SIZE && |data| <= SIZE && forall x :: 0 <= x < SIZE ==> m[x] == 0xff
    ensures ReadAt(FlatProgram(m, addr, data), addr, |data|) == data
  {
    hide FlatProgram;
    forall k | 0 <= k < |data|
      ensures FlatProgram(m, addr, data)[FlatCell(addr, k)] == data[k]
    {
      FlatProgramAt(m, addr, data, k);
      ErasedKeepsByte(data[k]);
    }
  }

  lemma {:induction false} FlatProgramAt(m: seq<Byte>, addr: nat, data: seq<Byte>, k: nat)
    requires |m| == SIZE && k < |data| <= SIZE
    ensures FlatProgram(m, addr, data)[FlatCell(addr, k)] == AndByte(m[FlatCell(addr, k)], data[k])
    decreases |data|
  {
    var last := |data| - 1;
    forall j: nat | j < SIZE && j != k
      ensures FlatCell(addr, j) != FlatCell(addr, k)
    {
      DifferentResidues(addr + j, addr + k, SIZE);
    }
    if k < last {
      FlatProgramAt(m, addr, data[..last], k);
    } else {
      FlatProgramMisses(m, addr, data[..last], FlatCell(addr, k));
    }
  }

  lemma {:induction false} ReplayConcat(m: seq<Byte>, a: seq<Op>, b: seq<Op>)
    requires |m| == SIZE
    ensures Replay(m, a + b) == Replay(Replay(m, a), b)
  {
    if b == [] {
      assert a + b == a;
    } else {
      var k := |b| - 1;
      ReplayConcat(m, a, b[..k]);
      assert (a + b)[..|a + b| - 1] == a + b[..k];
    }
  }

  /** Cells left in the page of addr. */
  function Room(addr: nat): (r: nat)
    ensures 1 <= r <= PAGE && addr % PAGE + r == PAGE
  {
    PAGE - addr % PAGE
  }

  /** The C address after n more bytes: 32 bits wide. */
  function Advance(addr: nat, n: nat): (a: nat)
    ensures a < U32 && a % SIZE == (addr + n) % SIZE
    ensures n == Room(addr) ==> a % PAGE == 0
  {
    WrapAddress(addr + n);
    NextPage(addr, n);
    (addr + n) % U32
  }

  /** Dropping the bits above 32 keeps the cell and the place in the page. */
  lemma WrapAddress(x: nat)
    ensures x % U32 % SIZE == x % SIZE && x % U32 % PAGE == x % PAGE
  {
    var q, r := x / U32, x % U32;
    ModuloPlusMultiple(r, 0x100 * q, SIZE);
    ModuloPlusMultiple(r, 0x100_0000 * q, PAGE);
    assert x == r + 0x100 * q * SIZE == r + 0x100_0000 * q * PAGE;
  }

  lemma NextPage(addr: nat, n: nat)
    ensures n == Room(addr) ==> (addr + n) % PAGE == 0
  {
    if n == Room(addr) {
      assert addr + n == PAGE * (addr / PAGE + 1);
    }
  }

  /** The page-wise chunks of a buffer: what the splitters of flash.c hand to the device. */
  function Chunks(addr: nat, buf: seq<Byte>): (ops: seq<Op>)
    decreases |buf|
  {
    if buf == [] then []
    else if |buf| <= Room(addr) then [Program(addr, buf)]
    else [Program(addr, buf[..Room(addr)])] + Chunks(Advance(addr, Room(addr)), buf[Room(addr)..])
  }

  /** Taking off what fits in the first page, or all of a buffer that does, keeps the chunks. */
  lemma ChunksSplit(addr: nat, buf: seq<Byte>, n: nat)
    requires n == if |buf| > Room(addr) then Room(addr) else |buf|
    ensures Chunks(addr, buf) == Chunks(addr, buf[..n]) + Chunks(Advance(addr, n), buf[n..])
    ensures Chunks(addr, buf[..n]) == if buf == [] then [] else [Program(addr, buf[..n])]
  {
    if n == |buf| {
      assert buf[..n] == buf;
    }
  }

  lemma NothingLeft(m: seq<Byte>, addr: nat)
    requires |m| == SIZE
    ensures FlatProgram(m, addr, []) == m && Chunks(addr, []) == []
  {
  }

  /** One page program does the first chunk of a write and leaves the rest to be done. */
  lemma TakeOffChunk(m: seq<Byte>, addr: nat, buf: seq<Byte>, n: nat)
    requires |m| == SIZE && buf != [] && n == if |buf| >= Room(addr) then Room(addr) else |buf|
    ensures FlatProgram(m, addr, buf)
         == FlatProgram(PageProgram(m, addr, buf[..n]), Advance(addr, n), buf[n..])
    ensures Chunks(addr, buf) == [Program(addr, buf[..n])] + Chunks(Advance(addr, n), buf[n..])
  {
    ChunksSplit(addr, buf, n);
    FlatProgramSplit(m, addr, buf, n);
    PageProgramIsFlat(m, addr, buf[..n]);
  }

  /** Splitting refines the flat memory: for every address and buffer the pages do not show. */
  lemma {:induction false} ChunksRefineFlat(m: seq<Byte>, addr: nat, buf: seq<Byte>)
    requires |m| == SIZE
    ensures Replay(m, Chunks(addr, buf)) == FlatProgram(m, addr, buf)
    decreases |buf|
  {
    if buf != [] {
      var n := if |buf| >= Room(addr) then Room(addr) else |buf|;
      var op := Program(addr, buf[..n]);
      TakeOffChunk(m, addr, buf, n);
      ReplayOne(m, op);
      ReplayConcat(m, [op], Chunks(Advance(addr, n), buf[n..]));
      ChunksRefineFlat(Apply(m, op), Advance(addr, n), buf[n..]);
    }
  }

  // ----- the pages of a write -----

  const PAGES: nat := 0x1_0000

  function PageOf(addr: nat): (p: nat)
    ensures p < PAGES
  {
    addr % SIZE / PAGE
  }

  /** How many pages a write of len bytes from addr on covers. */
  function PagesCovered(addr: nat, len: nat): (n: nat) {
    (addr % PAGE + len + PAGE - 1) / PAGE
  }

  lemma PageOfIs(q: nat, r: nat)
    requires r < PAGE
    ensures PageOf(q * PAGE + r) == q % PAGES
  {
    var k, s := q / PAGES, q % PAGES;
    assert q * PAGE + r == (s * PAGE + r) + k * SIZE;
    ModuloPlusMultiple(s * PAGE + r, k, SIZE);
  }

  lemma NextPageOf(addr: nat, page: nat)
    requires PageOf(addr) == page % PAGES
    ensures PageOf(Advance(addr, Room(addr))) == (page + 1) % PAGES
  {
    var q := addr / PAGE;
    assert addr == q * PAGE + addr % PAGE && addr + Room(addr) == (q + 1) * PAGE + 0;
    PageOfIs(q, addr % PAGE);
    PageOfIs(q + 1, 0);
    assert PageOf(Advance(addr, Room(addr))) == PageOf(addr + Room(addr));
    SuccessorModulo(q, page);
  }

  lemma SuccessorModulo(q: nat, page: nat)
    requires q % PAGES == page % PAGES
    ensures (q + 1) % PAGES == (page + 1) % PAGES
  {
  }

  lemma CountRest(addr: nat, len: nat)
    requires len > Room(addr)
    ensures PagesCovered(addr, len) == 1 + PagesCovered(Advance(addr, Room(addr)), len - Room(addr))
  {
  }

  lemma CountOne(addr: nat, len: nat)
    requires 1 <= len <= Room(addr)
    ensures PagesCovered(addr, len) == 1
  {
  }

  /** A page program that sends something, ends within its page, and goes to the given page. */
  predicate ProgramsPage(op: Op, page: nat) {
    && op.Program? && op.data != []
    && op.addr % PAGE + |op.data| <= PAGE
    && PageOf(op.addr) == page % PAGES
  }

  predicate PageByPage(ops: seq<Op>, page: nat) {
    forall k :: 0 <= k < |ops| ==> ProgramsPage(ops[k], page + k)
  }

  lemma PageByPageCons(op: Op, rest: seq<Op>, page: nat)
    requires ProgramsPage(op, page) && PageByPage(rest, page + 1)
    ensures PageByPage([op] + rest, page)
  {
    hide ProgramsPage;
    var ops := [op] + rest;
    forall k | 0 <= k < |ops|
      ensures ProgramsPage(ops[k], page + k)
    {
      if k > 0 {
        assert ops[k] == rest[k - 1];
        assert page + k == page + 1 + (k - 1);
      }
    }
  }

  /**
   A write is one program for each page that it covers, in order, and none crosses the end of
   its page.
   */
  lemma {:induction false} ChunksByPage(addr: nat, buf: seq<Byte>, page: nat)
    requires PageOf(addr) == page % PAGES
    ensures PageByPage(Chunks(addr, buf), page)
    ensures |Chunks(addr, buf)| == if buf == [] then 0 else PagesCovered(addr, |buf|)
    decreases |buf|
  {
    hide PageOf, PagesCovered;
    if buf != [] {
      var n := Room(addr);
      if |buf| <= n {
        CountOne(addr, |buf|);
      } else {
        NextPageOf(addr, page);
        CountRest(addr, |buf|);
        ChunksByPage(Advance(addr, n), buf[n..], page + 1);
        PageByPageCons(Program(addr, buf[..n]), Chunks(Advance(addr, n), buf[n..]), page);
      }
    }
  }

  predicate PagesDiffer(ops: seq<Op>)
    requires forall k :: 0 <= k < |ops| ==> ops[k].Program?
  {
    forall j, k :: 0 <= j < k < |ops| ==> PageOf(ops[j].addr) != PageOf(ops[k].addr)
  }

  lemma PagesDifferExactly(ops: seq<Op>, page: nat)
    requires PageByPage(ops, page)
    ensures PagesDiffer(ops) <==> |ops| <= PAGES
  {
    hide PageOf;
    if |ops| > PAGES {
      assert ProgramsPage(ops[0], page + 0) && ProgramsPage(ops[PAGES], page + PAGES);
    } else {
      forall j, k | 0 <= j < k < |ops|
        ensures PageOf(ops[j].addr) != PageOf(ops[k].addr)
      {
        assert ProgramsPage(ops[j], page + j) && ProgramsPage(ops[k], page + k);
        DifferModulo(page + j, page + k);
      }
    }
  }

  lemma DifferModulo(x: nat, y: nat)
    requires x < y < x + PAGES
    ensures x % PAGES != y % PAGES
  {
  }

  /** One write programs no page twice exactly when it does not go round the chip into its first page. */
  lemma PagesOnceExactly(addr: nat, buf: seq<Byte>)
    ensures (forall op :: op in Chunks(addr, buf) ==> op.Program?)
    ensures PagesDiffer(Chunks(addr, buf)) <==> addr % PAGE + |buf| <= SIZE
  {
    hide PageOf, Chunks, PagesDiffer;
    ChunksByPage(addr, buf, PageOf(addr));
    PagesDifferExactly(Chunks(addr, buf), PageOf(addr));
  }

  /** Two writes, one after the other, through the splitter. */
  lemma TwoWrites(m: seq<Byte>, a: nat, x: seq<Byte>, b: nat, y: seq<Byte>)
    requires |m| == SIZE
    ensures Replay(m, Chunks(a, x) + Chunks(b, y)) == FlatProgram(FlatProgram(m, a, x), b, y)
  {
    hide FlatProgram, Replay, Chunks;
    ChunksRefineFlat(m, a, x);
    ChunksRefineFlat(FlatProgram(m, a, x), b, y);
    ReplayConcat(m, Chunks(a, x), Chunks(b, y));
  }

  lemma ReplayTwo(m: seq<Byte>, a: Op, b: Op)
    requires |m| == SIZE
    ensures Replay(m, [a, b]) == Apply(Apply(m, a), b)
  {
    ReplayOne(m, a);
    ReplayOne(Apply(m, a), b);
    ReplayConcat(m, [a], [b]);
    assert [a] + [b] == [a, b];
  }

  lemma ReplayOne(m: seq<Byte>, op: Op)
    requires |m| == SIZE
    ensures Replay(m, [op]) == Apply(m, op)
  {
    assert [op][..0] == [];
  }

  lemma CutNothing(m: seq<Byte>, ops: seq<Op>)
    requires |m| == SIZE
    ensures Replay(m, CutAfter(ops, 0)) == m
  {
    assert ops[..0] == [];
  }

  /** A cut after the first operation leaves that one done. */
  lemma CutCons(m: seq<Byte>, op: Op, rest: seq<Op>, upto: nat)
    requires |m| == SIZE && upto >= 1
    ensures Replay(m, CutAfter([op] + rest, upto)) == Replay(Apply(m, op), CutAfter(rest, upto - 1))
  {
    assert CutAfter([op] + rest, upto) == [op] + CutAfter(rest, upto - 1);
    ReplayOne(m, op);
    ReplayConcat(m, [op], CutAfter(rest, upto - 1));
  }

  class Flash {
    const mem: array<Byte>
    ghost var log: seq<Op>

    ghost predicate Valid()
      reads this
    {
      mem.Length == SIZE
    }

    /** An erased chip. */
    constructor ()
      ensures Valid() && fresh(mem) && log == []
      ensures mem[..] == seq(SIZE, _ => 0xff)
    {
      mem := new Byte[SIZE](_ => 0xff);
      log := [];
      new;
      assert mem[..] == seq(SIZE, _ => 0xff);
    }

    /** flash_erase_sector */
    method EraseSector(addr: nat)
      requires Valid()
      modifies this`log, mem
      ensures mem[..] == EraseAt(old(mem[..]), addr)
      ensures log == old(log) + [Erase(addr)]
    {
      var b := SectorBase(addr);
      forall k | b <= k < b + SECTOR {
        mem[k] := 0xff;
      }
      log := log + [Erase(addr)];
    }

    /** flash_write_page_256: sends the bytes of one page program to the device. */
    method WritePage256(addr: nat, buf: seq<Byte>)
      requires Valid() && |buf| <= PAGE
      modifies this`log, mem
      ensures mem[..] == PageProgram(old(mem[..]), addr, buf)
      ensures log == old(log) + [Program(addr, buf)]
    {
      ghost var was := mem[..];
      var i := 0;
      while i < |buf|
        invariant 0 <= i <= |buf|
        invariant log == old(log)
        invariant mem[..] == PageProgram(was, addr, buf[..i])
      {
        assert buf[..i + 1][..i] == buf[..i];
        var p := InPage(addr, i);
        mem[p] := AndByte(mem[p], buf[i]);
        i := i + 1;
      }
      assert buf[..i] == buf;
      log := log + [Program(addr, buf)];
    }

    /** flash_write_page: splits a write at the page boundaries. */
    method WritePage(addr: nat, len: nat, buf: seq<Byte>)
      requires Valid() && addr < U32 && len == |buf| < U32
      modifies this`log, mem
      ensures mem[..] == FlatProgram(old(mem[..]), addr, buf)
      ensures log == old(log) + Chunks(addr, buf)
    {
      hide FlatProgram, PageProgram, Chunks;
      ghost var finalMem, finalLog := FlatProgram(mem[..], addr, buf), log + Chunks(addr, buf);
      var a: nat, n: nat, b := addr, len, buf;
      var lenEmpty := Room(a);
      while n > 0
        invariant a < U32 && n == |b|
        invariant n > 0 ==> lenEmpty == Room(a)
        invariant log + Chunks(a, b) == finalLog
        invariant FlatProgram(mem[..], a, b) == finalMem
        decreases n
      {
        ghost var nw := if n >= lenEmpty then lenEmpty else n;
        TakeOffChunk(mem[..], a, b, nw);
        if n >= lenEmpty {
          WritePage256(a, b[..lenEmpty]);
          n := n - lenEmpty;
          a := Advance(a, lenEmpty);
          b := b[lenEmpty..];
          lenEmpty := PAGE;
        } else {
          NothingLeft(PageProgram(mem[..], a, b[..n]), Advance(a, n));
          NothingLeft(PageProgram(mem[..], a, b[..n]), a);
          WritePage256(a, b[..n]);
          n := 0;
          b := [];
        }
      }
      NothingLeft(mem[..], a);
    }

    /** flash_write_data: a second splitter on top of the first one. */
    method WriteData(addr: nat, len: nat, buf: seq<Byte>)
      requires Valid() && addr < U32 && len == |buf| < U32
      modifies this`log, mem
      ensures mem[..] == FlatProgram(old(mem[..]), addr, buf)
      ensures log == old(log) + Chunks(addr, buf)
    {
      hide FlatProgram, Chunks;
      ghost var finalMem, finalLog := FlatProgram(mem[..], addr, buf), log + Chunks(addr, buf);
      var a: nat, n: nat, b := addr, len, buf;
      var ns := Room(a);
      var more := true;
      while more
        invariant a < U32 && n == |b|
        invariant more ==> ns == Room(a)
        invariant !more ==> n == 0
        invariant log + Chunks(a, b) == finalLog
        invariant FlatProgram(mem[..], a, b) == finalMem
        decreases n, more
      {
        var nw := if n > ns then ns else n;
        ChunksSplit(a, b, nw);
        FlatProgramSplit(mem[..], a, b, nw);
        WritePage(a, nw, b[..nw]);
        assert log + Chunks(Advance(a, nw), b[nw..]) == finalLog;
        ns := PAGE;
        a := Advance(a, nw);
        b := b[nw..];
        n := n - nw;
        more := n > 0;
      }
      NothingLeft(mem[..], a);
    }

    /** flash_read_page */
    method ReadPage(addr: nat, len: nat) returns (buf: seq<Byte>)
      requires Valid()
      ensures buf == ReadAt(mem[..], addr, len)
    {
      buf := [];
      var i := 0;
      while i < len
        invariant 0 <= i <= len
        invariant buf == ReadAt(mem[..], addr, i)
      {
        buf := buf + [mem[(addr + i) % SIZE]];
        i := i + 1;
      }
    }
  }
}
