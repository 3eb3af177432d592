/**
 One flash sector as a log of 1024 words that holds a single logical value:
 flash_write_val and flash_read_val of firmware/drivers/8258/flash.c as lists of flash
 operations, and what holds over whole runs when power may fail between any two of them.
 */
module SectorLog {

  import opened Bits

  const SLOTS: nat := 1024
  /** Above this slot flash_read_val erases a sector in which it found no value. */
  const READ_ERASE_LIMIT: nat := 1000

  datatype WordOp =
    | ProgramWord(slot: nat, w: Word)
    | EraseAll

  /** What a scan of the sector finds. */
  datatype Cell = Empty | Live(value: Word)

  predicate Stops(p: Word, flag: Word) {
    p == ERASED || p != flag
  }

  /** The first slot at or after i that is erased or not invalidated; |ws| when there is none. */
  function ScanFrom(ws: seq<Word>, flag: Word, i: nat): (n: nat)
    requires i <= |ws|
    ensures i <= n <= |ws|
    ensures forall j :: i <= j < n ==> !Stops(ws[j], flag)
    ensures n < |ws| ==> Stops(ws[n], flag)
    decreases |ws| - i
  {
    if i == |ws| || Stops(ws[i], flag) then i else ScanFrom(ws, flag, i + 1)
  }

  function Scan(ws: seq<Word>, flag: Word): (n: nat)
    ensures n <= |ws|
    ensures forall j :: 0 <= j < n ==> !Stops(ws[j], flag)
    ensures n < |ws| ==> Stops(ws[n], flag)
  {
    ScanFrom(ws, flag, 0)
  }

  /** The contract of Scan has only one solution. */
  lemma ScanIs(ws: seq<Word>, flag: Word, n: nat)
    requires n <= |ws|
    requires forall j :: 0 <= j < n ==> !Stops(ws[j], flag)
    requires n < |ws| ==> Stops(ws[n], flag)
    ensures Scan(ws, flag) == n
  {
    var k := Scan(ws, flag);
    assert n == |ws| || Stops(ws[n], flag);
    assert k == |ws| || Stops(ws[k], flag);
  }

  function CellOf(ws: seq<Word>, flag: Word): (c: Cell) {
    var n := Scan(ws, flag);
    if n == |ws| || ws[n] == ERASED then Empty else Live(ws[n])
  }

  /** The operations of flash_write_val, in order, on a sector that now holds ws. */
  function WriteOps(ws: seq<Word>, flag: Word, dat: Word): (ops: seq<WordOp>) {
    var n := Scan(ws, flag);
    if n == |ws| || ws[n] == ERASED then [ProgramWord(n, dat)]
    else if n == SLOTS - 1 then [EraseAll, ProgramWord(0, dat)]
    else [ProgramWord(n, flag), ProgramWord(n + 1, dat)]
  }

  /** The operations of flash_read_val. */
  function ReadOps(ws: seq<Word>, flag: Word): (ops: seq<WordOp>) {
    if CellOf(ws, flag) == Empty && Scan(ws, flag) > READ_ERASE_LIMIT then [EraseAll] else []
  }

  function ReadResult(c: Cell, flag: Word): (r: Word) {
    match c
    case Empty => flag
    case Live(v) => v
  }

  // ----- running operations -----

  function Erased(n: nat): (ws: seq<Word>)
    ensures |ws| == n && forall j :: 0 <= j < n ==> ws[j] == ERASED
  {
    seq(n, _ => ERASED)
  }

  /** The operation leaves in flash exactly the word it was given. */
  predicate StoresExactly(ws: seq<Word>, op: WordOp) {
    op.ProgramWord? ==> op.slot < |ws| && AndWord(ws[op.slot], op.w) == op.w
  }

  function ApplyWord(ws: seq<Word>, op: WordOp): (r: seq<Word>)
    ensures |r| == |ws|
  {
    match op
    case ProgramWord(i, w) => if i < |ws| then ws[i := AndWord(ws[i], w)] else ws
    case EraseAll => Erased(|ws|)
  }

  /** A sector and how often it has been erased. */
  datatype Chip = Chip(ws: seq<Word>, erases: nat)

  function Do(c: Chip, ops: seq<WordOp>): (r: Chip)
    ensures |r.ws| == |c.ws|
    decreases |ops|
  {
    if ops == [] then c else Do(DoOne(c, ops[0]), ops[1..])
  }

  function DoOne(c: Chip, op: WordOp): (r: Chip)
    ensures |r.ws| == |c.ws|
  {
    Chip(ApplyWord(c.ws, op), c.erases + if op.EraseAll? then 1 else 0)
  }

  lemma DoTwo(c: Chip, a: WordOp, b: WordOp)
    ensures Do(c, [a]) == DoOne(c, a)
    ensures Do(c, [a, b]) == DoOne(DoOne(c, a), b)
  {
    assert [a][1..] == [];
    assert [a, b][1..] == [b] && [b][1..] == [];
    assert Do(c, [a, b]) == Do(DoOne(c, a), [b]);
  }

  /** Each operation in turn stays in the sector and stores exactly its word. */
  predicate AllExact(ws: seq<Word>, ops: seq<WordOp>)
    decreases |ops|
  {
    ops == [] || (StoresExactly(ws, ops[0]) && AllExact(ApplyWord(ws, ops[0]), ops[1..]))
  }

  // ----- runs -----

  /** A call that is cut off by power loss after at most upto of its flash operations. */
  datatype Event =
    | Write(dat: Word, upto: nat)
    | Read(upto: nat)

  function OpsOf(ws: seq<Word>, flag: Word, e: Event): (ops: seq<WordOp>) {
    match e
    case Write(dat, _) => WriteOps(ws, flag, dat)
    case Read(_) => ReadOps(ws, flag)
  }

  function Done(ops: seq<WordOp>, upto: nat): (r: seq<WordOp>) {
    if upto < |ops| then ops[..upto] else ops
  }

  function Step(c: Chip, flag: Word, e: Event): (r: Chip)
    ensures |r.ws| == |c.ws|
  {
    Do(c, Done(OpsOf(c.ws, flag, e), e.upto))
  }

  function Run(c: Chip, flag: Word, es: seq<Event>): (r: Chip)
    ensures |r.ws| == |c.ws|
  {
    if es == [] then c else Step(Run(c, flag, es[..|es| - 1]), flag, es[|es| - 1])
  }

  const FRESH := Chip(Erased(SLOTS), 0)

  /** What a caller may store: neither of the two reserved words, and it covers the flag bits. */
  predicate Storable(dat: Word, flag: Word) {
    dat != ERASED && dat != flag && AndWord(dat, flag) == flag
  }

  predicate AllStorable(es: seq<Event>, flag: Word) {
    forall k :: 0 <= k < |es| && es[k].Write? ==> Storable(es[k].dat, flag)
  }

  /** Invalid words, at most one live word, then erased words; the last word is never invalid. */
  predicate Shaped(ws: seq<Word>, flag: Word) {
    var n := Scan(ws, flag);
    && n < |ws|
    && (forall j :: n < j < |ws| ==> ws[j] == ERASED)
    && (ws[n] != ERASED ==> AndWord(ws[n], flag) == flag)
  }

  predicate Layout(ws: seq<Word>, flag: Word, n: nat, p: Word) {
    && n < |ws|
    && (forall j :: 0 <= j < n ==> ws[j] == flag)
    && ws[n] == p
    && (forall j :: n < j < |ws| ==> ws[j] == ERASED)
  }

  lemma LayoutMeans(ws: seq<Word>, flag: Word, n: nat, p: Word)
    requires flag != ERASED && p != flag && Layout(ws, flag, n, p)
    ensures Scan(ws, flag) == n && CellOf(ws, flag) == if p == ERASED then Empty else Live(p)
    ensures p == ERASED || AndWord(p, flag) == flag ==> Shaped(ws, flag)
  {
    ScanIs(ws, flag, n);
  }

  lemma FillSlot(ws: seq<Word>, flag: Word, n: nat, dat: Word)
    requires flag != ERASED && Storable(dat, flag) && Layout(ws, flag, n, ERASED)
    ensures AndWord(ws[n], dat) == dat
    ensures var r := ws[n := dat];
            Layout(r, flag, n, dat) && Shaped(r, flag) && Scan(r, flag) == n && CellOf(r, flag) == Live(dat)
  {
    ErasedKeepsWord(dat);
    LayoutMeans(ws[n := dat], flag, n, dat);
  }

  lemma MarkSlot(ws: seq<Word>, flag: Word, n: nat)
    requires flag != ERASED && n < |ws| - 1 && Layout(ws, flag, n, ws[n]) && AndWord(ws[n], flag) == flag
    ensures Layout(ws[n := flag], flag, n + 1, ERASED)
  {
  }

  /** The independent specification: one memory cell whose writes can be torn. */
  function Register(es: seq<Event>): (c: Cell) {
    if es == [] then Empty
    else
      var was := Register(es[..|es| - 1]);
      match es[|es| - 1]
      case Read(_) => was
      case Write(dat, upto) =>
        if upto == 0 then was
        else if upto == 1 && was.Live? then Empty
        else Live(dat)
  }

  // ----- one step -----

  /** A call makes at most two operations: what a cut after upto of them has done. */
  lemma UnfoldOne(c: Chip, a: WordOp, upto: nat)
    ensures Do(c, Done([a], upto)) == if upto == 0 then c else DoOne(c, a)
    ensures AllExact(c.ws, [a]) <==> StoresExactly(c.ws, a)
  {
    DoTwo(c, a, a);
    assert [a][..0] == [] && [a][1..] == [];
  }

  lemma UnfoldTwo(c: Chip, a: WordOp, b: WordOp, upto: nat)
    ensures Do(c, Done([a, b], upto))
         == if upto == 0 then c else if upto == 1 then DoOne(c, a) else DoOne(DoOne(c, a), b)
    ensures AllExact(c.ws, [a, b]) <==> StoresExactly(c.ws, a) && StoresExactly(ApplyWord(c.ws, a), b)
  {
    DoTwo(c, a, b);
    var ops := [a, b];
    assert ops[..0] == [] && ops[..1] == [a] && ops[1..] == [b];
    UnfoldOne(DoOne(c, a), b, 1);
  }

  /** The sector after a cut write, spelled out for a sector in shape. */
  function SectorWritten(c: Chip, flag: Word, dat: Word, upto: nat): (r: Chip)
    requires |c.ws| == SLOTS && Scan(c.ws, flag) < SLOTS
  {
    var ws, n := c.ws, Scan(c.ws, flag);
    if upto == 0 then c
    else if ws[n] == ERASED then c.(ws := ws[n := dat])
    else if n == SLOTS - 1 then
      Chip(if upto == 1 then Erased(SLOTS) else Erased(SLOTS)[0 := dat], c.erases + 1)
    else c.(ws := if upto == 1 then ws[n := flag] else ws[n := flag][n + 1 := dat])
  }

  lemma WriteOnErased(c: Chip, flag: Word, dat: Word, upto: nat)
    requires |c.ws| == SLOTS && flag != ERASED && Shaped(c.ws, flag) && Storable(dat, flag)
    requires c.ws[Scan(c.ws, flag)] == ERASED
    ensures Step(c, flag, Write(dat, upto)) == SectorWritten(c, flag, dat, upto)
    ensures AllExact(c.ws, WriteOps(c.ws, flag, dat))
  {
    var n := Scan(c.ws, flag);
    ErasedKeepsWord(dat);
    UnfoldOne(c, ProgramWord(n, dat), upto);
    assert DoOne(c, ProgramWord(n, dat)) == c.(ws := c.ws[n := dat]);
  }

  lemma WriteOnLast(c: Chip, flag: Word, dat: Word, upto: nat)
    requires |c.ws| == SLOTS && flag != ERASED && Shaped(c.ws, flag) && Storable(dat, flag)
    requires Scan(c.ws, flag) == SLOTS - 1 && c.ws[SLOTS - 1] != ERASED
    ensures Step(c, flag, Write(dat, upto)) == SectorWritten(c, flag, dat, upto)
    ensures AllExact(c.ws, WriteOps(c.ws, flag, dat))
  {
    ErasedKeepsWord(dat);
    UnfoldTwo(c, EraseAll, ProgramWord(0, dat), upto);
    var blank := Chip(Erased(SLOTS), c.erases + 1);
    assert DoOne(c, EraseAll) == blank;
    assert DoOne(blank, ProgramWord(0, dat)) == blank.(ws := blank.ws[0 := dat]);
  }

  lemma WriteOnLive(c: Chip, flag: Word, dat: Word, upto: nat)
    requires |c.ws| == SLOTS && flag != ERASED && Shaped(c.ws, flag) && Storable(dat, flag)
    requires Scan(c.ws, flag) < SLOTS - 1 && c.ws[Scan(c.ws, flag)] != ERASED
    ensures Step(c, flag, Write(dat, upto)) == SectorWritten(c, flag, dat, upto)
    ensures AllExact(c.ws, WriteOps(c.ws, flag, dat))
  {
    var n := Scan(c.ws, flag);
    ErasedKeepsWord(dat);
    UnfoldTwo(c, ProgramWord(n, flag), ProgramWord(n + 1, dat), upto);
    var marked := c.(ws := c.ws[n := flag]);
    assert DoOne(c, ProgramWord(n, flag)) == marked;
    assert DoOne(marked, ProgramWord(n + 1, dat)) == c.(ws := marked.ws[n + 1 := dat]);
  }

  lemma StepIsWritten(c: Chip, flag: Word, dat: Word, upto: nat)
    requires |c.ws| == SLOTS && flag != ERASED && Shaped(c.ws, flag) && Storable(dat, flag)
    ensures Step(c, flag, Write(dat, upto)) == SectorWritten(c, flag, dat, upto)
    ensures AllExact(c.ws, WriteOps(c.ws, flag, dat))
  {
    var n := Scan(c.ws, flag);
    if c.ws[n] == ERASED {
      WriteOnErased(c, flag, dat, upto);
    } else if n == SLOTS - 1 {
      WriteOnLast(c, flag, dat, upto);
    } else {
      WriteOnLive(c, flag, dat, upto);
    }
  }

  lemma WrittenMeans(c: Chip, flag: Word, dat: Word, upto: nat)
    requires |c.ws| == SLOTS && flag != ERASED && Shaped(c.ws, flag) && Storable(dat, flag)
    ensures var was, n, r := CellOf(c.ws, flag), Scan(c.ws, flag), SectorWritten(c, flag, dat, upto);
            && Shaped(r.ws, flag)
            && CellOf(r.ws, flag) == (if upto == 0 then was
                                      else if upto == 1 && was.Live? then Empty else Live(dat))
            && Scan(r.ws, flag) == (if upto == 0 || was == Empty then n
                                    else if n == SLOTS - 1 then 0 else n + 1)
  {
    var ws, n := c.ws, Scan(c.ws, flag);
    if upto == 0 {
    } else if ws[n] == ERASED {
      FillSlot(ws, flag, n, dat);
    } else if n == SLOTS - 1 {
      FillSlot(Erased(SLOTS), flag, 0, dat);
      LayoutMeans(Erased(SLOTS), flag, 0, ERASED);
    } else {
      MarkSlot(ws, flag, n);
      FillSlot(ws[n := flag], flag, n + 1, dat);
      LayoutMeans(ws[n := flag], flag, n + 1, ERASED);
    }
  }

  /** One step of a run, cut anywhere: shape, meaning, and exactness of every operation. */
  lemma WriteStep(c: Chip, flag: Word, dat: Word, upto: nat)
    requires |c.ws| == SLOTS && flag != ERASED && Shaped(c.ws, flag) && Storable(dat, flag)
    ensures var was, n := CellOf(c.ws, flag), Scan(c.ws, flag);
            var r := Step(c, flag, Write(dat, upto));
            && Shaped(r.ws, flag)
            && AllExact(c.ws, WriteOps(c.ws, flag, dat))
            && CellOf(r.ws, flag) == (if upto == 0 then was
                                      else if upto == 1 && was.Live? then Empty else Live(dat))
            && (if upto == 0 || was == Empty then r.erases == c.erases && Scan(r.ws, flag) == n
                else if n == SLOTS - 1 then r.erases == c.erases + 1 && Scan(r.ws, flag) == 0
                else r.erases == c.erases && Scan(r.ws, flag) == n + 1)
  {
    StepIsWritten(c, flag, dat, upto);
    WrittenMeans(c, flag, dat, upto);
  }

  lemma ReadStep(c: Chip, flag: Word, upto: nat)
    requires |c.ws| == SLOTS && flag != ERASED && Shaped(c.ws, flag)
    ensures var r := Step(c, flag, Read(upto));
            && Shaped(r.ws, flag)
            && CellOf(r.ws, flag) == CellOf(c.ws, flag)
            && (if CellOf(c.ws, flag) == Empty && Scan(c.ws, flag) > 1000 && upto > 0
                then r == Chip(Erased(SLOTS), c.erases + 1) && Scan(r.ws, flag) == 0
                else r == c)
  {
    var r := Step(c, flag, Read(upto));
    if ReadOps(c.ws, flag) != [] && upto > 0 {
      DoTwo(c, EraseAll, EraseAll);
      assert r == Chip(Erased(SLOTS), c.erases + 1);
      ScanIs(r.ws, flag, 0);
    }
  }

  // ----- whole runs -----

  lemma {:induction false} RunIsShaped(flag: Word, es: seq<Event>)
    requires flag != ERASED && AllStorable(es, flag)
    ensures Shaped(Run(FRESH, flag, es).ws, flag)
    ensures CellOf(Run(FRESH, flag, es).ws, flag) == Register(es)
  {
    if es == [] {
      LayoutMeans(FRESH.ws, flag, 0, ERASED);
    } else {
      var front, e := es[..|es| - 1], es[|es| - 1];
      assert AllStorable(front, flag);
      RunIsShaped(flag, front);
      match e {
        case Write(d, upto) => WriteStep(Run(FRESH, flag, front), flag, d, upto);
        case Read(upto) => ReadStep(Run(FRESH, flag, front), flag, upto);
      }
    }
  }

  /**
   Crash safety and register refinement. However calls are interleaved and wherever each is cut
   off, the sector keeps its shape, it holds exactly what a torn-write register holds, and
   whatever is stored next stays inside the sector and is stored exactly.
   */
  lemma RunRefinesRegister(flag: Word, es: seq<Event>, dat: Word)
    requires flag != ERASED && AllStorable(es, flag)
    ensures var c := Run(FRESH, flag, es);
            && Shaped(c.ws, flag)
            && c.ws[SLOTS - 1] != flag
            && CellOf(c.ws, flag) == Register(es)
            && (Storable(dat, flag) ==> AllExact(c.ws, WriteOps(c.ws, flag, dat)))
            && (ReadOps(c.ws, flag) != [] ==> Register(es) == Empty)
  {
    var c := Run(FRESH, flag, es);
    RunIsShaped(flag, es);
    if Storable(dat, flag) {
      WriteStep(c, flag, dat, 2);
    }
    assert Scan(c.ws, flag) < SLOTS;
  }

  /** A write that was cut off leaves the old value, the new value, or nothing. */
  lemma TornWriteOutcome(flag: Word, es: seq<Event>, dat: Word, upto: nat)
    requires flag != ERASED && AllStorable(es, flag) && Storable(dat, flag)
    ensures var before := CellOf(Run(FRESH, flag, es).ws, flag);
            var after := CellOf(Run(FRESH, flag, es + [Write(dat, upto)]).ws, flag);
            && after in {before, Live(dat), Empty}
            && (upto >= 2 ==> after == Live(dat))
  {
    var longer := es + [Write(dat, upto)];
    assert longer[..|longer| - 1] == es;
    RunRefinesRegister(flag, es, dat);
    RunRefinesRegister(flag, longer, dat);
  }

  // ----- uninterrupted runs -----

  predicate Uninterrupted(es: seq<Event>) {
    forall k :: 0 <= k < |es| ==> es[k].upto >= 2
  }

  function Writes(es: seq<Event>): (n: nat)
    ensures n <= |es|
  {
    if es == [] then 0
    else Writes(es[..|es| - 1]) + if es[|es| - 1].Write? then 1 else 0
  }

  /** The value of the last write, if there was one. */
  function LastWritten(es: seq<Event>): (c: Cell) {
    if es == [] then Empty
    else if es[|es| - 1].Write? then Live(es[|es| - 1].dat)
    else LastWritten(es[..|es| - 1])
  }

  /**
   Without power loss the sector is a plain register, and its wear is exact: n writes erase it
   (n - 1) / 1024 times, however many reads come between.
   */
  lemma {:induction false} ExactWear(flag: Word, es: seq<Event>)
    requires flag != ERASED && AllStorable(es, flag) && Uninterrupted(es)
    ensures var c, n := Run(FRESH, flag, es), Writes(es);
            && Shaped(c.ws, flag)
            && CellOf(c.ws, flag) == LastWritten(es)
            && (n == 0 ==> c == FRESH && Scan(c.ws, flag) == 0)
            && (n > 0 ==> c.erases == (n - 1) / SLOTS && Scan(c.ws, flag) == (n - 1) % SLOTS
                          && LastWritten(es).Live?)
  {
    hide AndWord;
    if es == [] {
      LayoutMeans(FRESH.ws, flag, 0, ERASED);
    } else {
      var front, e := es[..|es| - 1], es[|es| - 1];
      assert AllStorable(front, flag) && Uninterrupted(front);
      ExactWear(flag, front);
      match e {
        case Write(d, upto) => WriteStep(Run(FRESH, flag, front), flag, d, upto);
        case Read(upto) => ReadStep(Run(FRESH, flag, front), flag, upto);
      }
    }
  }

  /** The writes a sector has taken since it was erased, at the least: a used slot or a value is one more. */
  function Taken(ws: seq<Word>, flag: Word): (n: nat) {
    Scan(ws, flag) + if Scan(ws, flag) > 0 || CellOf(ws, flag).Live? then 1 else 0
  }

  /**
   Wear with power loss: the early erase inside reads costs little. At least 1002 writes are
   started for every erase, wherever calls are cut off.
   */
  lemma {:induction false} WearUnderPowerLoss(flag: Word, es: seq<Event>)
    requires flag != ERASED && AllStorable(es, flag)
    ensures var c := Run(FRESH, flag, es);
            && Shaped(c.ws, flag)
            && (READ_ERASE_LIMIT + 2) * c.erases + Taken(c.ws, flag) <= Writes(es)
  {
    if es == [] {
      LayoutMeans(FRESH.ws, flag, 0, ERASED);
    } else {
      var front, e := es[..|es| - 1], es[|es| - 1];
      assert AllStorable(front, flag);
      WearUnderPowerLoss(flag, front);
      match e {
        case Write(d, upto) => WriteStep(Run(FRESH, flag, front), flag, d, upto);
        case Read(upto) => ReadStep(Run(FRESH, flag, front), flag, upto);
      }
    }
  }

  /** n complete writes of the same value. */
  function RepeatedWrites(dat: Word, n: nat): (es: seq<Event>)
    ensures |es| == n
  {
    seq(n, _ => Write(dat, 2))
  }

  /** 1001 complete writes, one that is cut after its mark, and a read, which then erases. */
  function WearRound(dat: Word): (es: seq<Event>) {
    RepeatedWrites(dat, 1001) + [Write(dat, 1), Read(1)]
  }

  function WornOut(dat: Word, k: nat): (es: seq<Event>) {
    if k == 0 then [] else WornOut(dat, k - 1) + WearRound(dat)
  }

  lemma {:induction false} RunConcat(c: Chip, flag: Word, a: seq<Event>, b: seq<Event>)
    ensures Run(c, flag, a + b) == Run(Run(c, flag, a), flag, b)
    ensures Writes(a + b) == Writes(a) + Writes(b)
  {
    if b == [] {
      assert a + b == a;
    } else {
      assert (a + b)[..|a + b| - 1] == a + b[..|b| - 1];
      RunConcat(c, flag, a, b[..|b| - 1]);
    }
  }

  lemma {:induction false} RepeatedWritesFill(flag: Word, dat: Word, n: nat, erases: nat)
    requires flag != ERASED && Storable(dat, flag) && 1 <= n <= SLOTS
    ensures var c := Run(Chip(Erased(SLOTS), erases), flag, RepeatedWrites(dat, n));
            && Shaped(c.ws, flag) && c.erases == erases
            && Scan(c.ws, flag) == n - 1 && CellOf(c.ws, flag) == Live(dat)
    ensures Writes(RepeatedWrites(dat, n)) == n
  {
    hide AndWord;
    var es, blank := RepeatedWrites(dat, n), Chip(Erased(SLOTS), erases);
    assert es[..|es| - 1] == RepeatedWrites(dat, n - 1);
    if n == 1 {
      assert Run(blank, flag, RepeatedWrites(dat, 0)) == blank;
      LayoutMeans(blank.ws, flag, 0, ERASED);
    } else {
      RepeatedWritesFill(flag, dat, n - 1, erases);
    }
    WriteStep(Run(blank, flag, RepeatedWrites(dat, n - 1)), flag, dat, 2);
  }

  /** The bound is attained, for any number of erases. */
  lemma {:induction false} WearIsSharp(flag: Word, dat: Word, k: nat)
    requires flag != ERASED && Storable(dat, flag)
    ensures AllStorable(WornOut(dat, k), flag)
    ensures Writes(WornOut(dat, k)) == 1002 * k
    ensures Run(FRESH, flag, WornOut(dat, k)) == Chip(Erased(SLOTS), k)
  {
    hide Run, Writes, WearRound, Storable;
    if k == 0 {
      NothingRun(flag);
    } else {
      WearIsSharp(flag, dat, k - 1);
      RoundErasesOnce(flag, dat, k - 1);
      RunConcat(FRESH, flag, WornOut(dat, k - 1), WearRound(dat));
    }
  }

  lemma NothingRun(flag: Word)
    ensures Run(FRESH, flag, []) == Chip(Erased(SLOTS), 0) && Writes([]) == 0
  {
  }

  lemma RoundErasesOnce(flag: Word, dat: Word, erases: nat)
    requires flag != ERASED && Storable(dat, flag)
    ensures AllStorable(WearRound(dat), flag) && Writes(WearRound(dat)) == 1002
    ensures Run(Chip(Erased(SLOTS), erases), flag, WearRound(dat)) == Chip(Erased(SLOTS), erases + 1)
  {
    hide Run, Writes, Storable;
    var blank, fill := Chip(Erased(SLOTS), erases), RepeatedWrites(dat, 1001);
    RepeatedWritesFill(flag, dat, 1001, erases);
    CutThenRead(Run(blank, flag, fill), flag, dat);
    RunConcat(blank, flag, fill, [Write(dat, 1), Read(1)]);
  }

  lemma CutThenRead(c: Chip, flag: Word, dat: Word)
    requires |c.ws| == SLOTS && flag != ERASED && Storable(dat, flag) && Shaped(c.ws, flag)
    requires Scan(c.ws, flag) == 1000 && CellOf(c.ws, flag).Live?
    ensures Run(c, flag, [Write(dat, 1), Read(1)]) == Chip(Erased(SLOTS), c.erases + 1)
    ensures Writes([Write(dat, 1), Read(1)]) == 1
  {
    hide AndWord;
    var es := [Write(dat, 1), Read(1)];
    assert es[..1] == [Write(dat, 1)] && [Write(dat, 1)][..0] == [];
    var cut := Step(c, flag, Write(dat, 1));
    WriteStep(c, flag, dat, 1);
    assert ReadOps(cut.ws, flag) == [EraseAll];
    UnfoldOne(cut, EraseAll, 1);
    assert Run(c, flag, [Write(dat, 1)]) == cut;
  }

  // ----- what the preconditions are for -----

  /**
   Exactly when a write can be read back, for every word whatsoever and every sector that is
   shaped but for its live word, even one full of flags. A full sector takes nothing, and reads
   as the flag. In any other the word must not be the erased pattern, and the live word it
   replaces must cover the flag or happen to be turned into the new word by the mark.
   */
  lemma ReadBackExactly(c: Chip, flag: Word, dat: Word)
    requires |c.ws| == SLOTS && flag != ERASED
    requires forall j :: Scan(c.ws, flag) < j < SLOTS ==> c.ws[j] == ERASED
    ensures var n := Scan(c.ws, flag);
            var r := Step(c, flag, Write(dat, 2));
            ReadResult(CellOf(r.ws, flag), flag) == dat
            <==> if n == SLOTS then dat == flag
                 else dat != ERASED && (n < SLOTS - 1 && c.ws[n] != ERASED ==>
                                          AndWord(c.ws[n], flag) == flag || AndWord(c.ws[n], flag) == dat)
  {
    hide AndWord;
    var ws, n := c.ws, Scan(c.ws, flag);
    var r := Step(c, flag, Write(dat, 2));
    ErasedKeepsWord(dat);
    if n == SLOTS {
      UnfoldOne(c, ProgramWord(n, dat), 2);
      assert r.ws == ws;
    } else if ws[n] == ERASED {
      ReadBackAt(ws, flag, n, dat);
      UnfoldOne(c, ProgramWord(n, dat), 2);
      assert r.ws == ws[n := dat];
    } else if n == SLOTS - 1 {
      var blank := Chip(Erased(SLOTS), c.erases + 1);
      ReadBackAt(blank.ws, flag, 0, dat);
      UnfoldTwo(c, EraseAll, ProgramWord(0, dat), 2);
      assert DoOne(c, EraseAll) == blank;
      assert r.ws == blank.ws[0 := dat];
    } else {
      ReadBackAfterMark(ws, flag, n, dat);
      UnfoldTwo(c, ProgramWord(n, flag), ProgramWord(n + 1, dat), 2);
      var marked := c.(ws := ws[n := AndWord(ws[n], flag)]);
      assert DoOne(c, ProgramWord(n, flag)) == marked;
      assert r.ws == marked.ws[n + 1 := dat];
    }
  }

  lemma ReadBackAt(ws: seq<Word>, flag: Word, n: nat, dat: Word)
    requires flag != ERASED && Layout(ws, flag, n, ERASED)
    ensures ReadResult(CellOf(ws[n := dat], flag), flag) == dat <==> dat != ERASED
  {
    ScanIs(ws[n := dat], flag, if dat == flag then n + 1 else n);
  }

  lemma ReadBackAfterMark(ws: seq<Word>, flag: Word, n: nat, dat: Word)
    requires flag != ERASED && n < |ws| - 1 && Layout(ws, flag, n, ws[n])
    ensures var r := ws[n := AndWord(ws[n], flag)][n + 1 := dat];
            ReadResult(CellOf(r, flag), flag) == dat
            <==> dat != ERASED && (AndWord(ws[n], flag) == flag || AndWord(ws[n], flag) == dat)
  {
    var mark := AndWord(ws[n], flag);
    assert mark == ERASED ==> flag == ERASED;
    var r := ws[n := mark][n + 1 := dat];
    if mark != flag {
      ScanIs(r, flag, n);
    } else {
      ScanIs(r, flag, if dat == flag then n + 2 else n + 1);
    }
  }

  /** A sector full of flags takes nothing: the word goes to the first one of the next sector. */
  lemma FullSectorSpills(ws: seq<Word>, flag: Word, dat: Word)
    requires |ws| == SLOTS && flag != ERASED && forall j :: 0 <= j < SLOTS ==> ws[j] == flag
    ensures WriteOps(ws, flag, dat) == [ProgramWord(SLOTS, dat)]
  {
    ScanIs(ws, flag, SLOTS);
  }

  /**
   With the flag 0xffffffff a value is never replaced: the mark clears no bit, so the first value
   is found again after every write.
   */
  lemma ErasedFlagKeepsFirst(c: Chip, dat: Word)
    requires |c.ws| == SLOTS
    ensures var r := Step(c, ERASED, Write(dat, 2));
            if c.ws[0] == ERASED then r.ws == c.ws[0 := dat]
            else r.ws[0] == c.ws[0] && CellOf(r.ws, ERASED) == Live(c.ws[0])
  {
    ScanIs(c.ws, ERASED, 0);
    ErasedKeepsWord(c.ws[0]);
    ErasedKeepsWord(dat);
    UnfoldOne(c, ProgramWord(0, dat), 2);
    UnfoldTwo(c, ProgramWord(0, ERASED), ProgramWord(1, dat), 2);
    ScanIs(Step(c, ERASED, Write(dat, 2)).ws, ERASED, 0);
  }

  /** Slot n is the first that a scan stops at: all before it hold the flag. */
  predicate StopsAt(ws: seq<Word>, flag: Word, n: nat) {
    n <= |ws| && (forall j :: 0 <= j < n ==> ws[j] == flag) && (n < |ws| ==> ws[n] != flag)
  }

  /** A complete write word by word, whatever the sector holds. */
  lemma WriteAnywhere(c: Chip, flag: Word, dat: Word, n: nat)
    requires |c.ws| == 1024 && flag != ERASED && StopsAt(c.ws, flag, n)
    ensures var ws := c.ws;
            Step(c, flag, Write(dat, 2))
            == if n == 1024 then c
               else if ws[n] == ERASED then c.(ws := ws[n := dat])
               else if n == 1023 then Chip(Erased(1024)[0 := dat], c.erases + 1)
               else c.(ws := ws[n := AndWord(ws[n], flag)][n + 1 := AndWord(ws[n + 1], dat)])
  {
    hide AndWord;
    ScanIs(c.ws, flag, n);
    ErasedKeepsWord(dat);
    if n == 1024 || c.ws[n] == ERASED {
      UnfoldOne(c, ProgramWord(n, dat), 2);
    } else if n == 1023 {
      UnfoldTwo(c, EraseAll, ProgramWord(0, dat), 2);
    } else {
      UnfoldTwo(c, ProgramWord(n, flag), ProgramWord(n + 1, dat), 2);
    }
  }

  /** A complete read, whatever the sector holds: the first word that stops it, or the flag. */
  lemma ReadAnywhere(c: Chip, flag: Word, n: nat)
    requires |c.ws| == 1024 && flag != ERASED && StopsAt(c.ws, flag, n)
    ensures var live := n < 1024 && c.ws[n] != ERASED;
            && ReadResult(CellOf(c.ws, flag), flag) == (if live then c.ws[n] else flag)
            && Step(c, flag, Read(2)) == if !live && n > 1000 then Chip(Erased(1024), c.erases + 1) else c
  {
    ScanIs(c.ws, flag, n);
    UnfoldOne(c, EraseAll, 2);
  }

  /** A write programs outside the sector exactly when all its words are flags. */
  lemma LeavesSectorExactly(ws: seq<Word>, flag: Word, dat: Word)
    requires |ws| == SLOTS && flag != ERASED
    ensures (exists op :: op in WriteOps(ws, flag, dat) && op.ProgramWord? && op.slot >= SLOTS)
            <==> forall j :: 0 <= j < SLOTS ==> ws[j] == flag
  {
    var n, ops := Scan(ws, flag), WriteOps(ws, flag, dat);
    if n == SLOTS {
      assert ops[0] == ProgramWord(n, dat) && ops[0] in ops;
    } else {
      assert ws[n] != flag;
    }
  }

  /** That sector is reached by storing the flag itself, which is why a caller may not. */
  lemma {:induction false} FlagsFillSector(flag: Word, n: nat)
    requires flag != ERASED && n <= SLOTS
    ensures Run(FRESH, flag, RepeatedWrites(flag, n)).ws
         == seq(SLOTS, j => if j < n then flag else ERASED)
  {
    hide AndWord, CellOf;
    if n == 0 {
      assert RepeatedWrites(flag, 0) == [];
    } else {
      var es, c := RepeatedWrites(flag, n), Run(FRESH, flag, RepeatedWrites(flag, n - 1));
      assert es[..|es| - 1] == RepeatedWrites(flag, n - 1);
      FlagsFillSector(flag, n - 1);
      assert c.ws[n - 1] == ERASED;
      ScanIs(c.ws, flag, n - 1);
      ErasedKeepsWord(flag);
      UnfoldOne(c, ProgramWord(n - 1, flag), 2);
    }
  }
}
