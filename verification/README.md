# Drivers of the TLSR82xx firmware: a verified model

This project models the numeric and storage cores of the drivers under `firmware/drivers` and
proves what they keep, over all inputs and over whole runs.

* **Value stores in NOR flash** (`flash.c`). One 4096-byte sector holds one logical value as a log
  of words or records; a smaller region holds a bounded number of values. The device can only clear
  bits, erases whole sectors, and wraps a page program inside its 256-byte page. Power may fail
  between any two device operations.
* **UART divider search** (`uart.c`): trial-division primality and the search for the bit width and
  divider with the best rounding.
* **ADC voltage, clock calibration, random numbers, PRBS9 test data, signal strength average,
  access codes and wrap-safe delays.**

## How to read it

| file | content |
|---|---|
| `Arith.dfy`, `Bits.dfy` | shared arithmetic; bytes, 32-bit words as their four bytes, bitwise AND |
| `NorFlash.dfy` | the device, the two page splitters, and the flat memory they are proved against |
| `SectorLog.dfy` | the value log as lists of word operations; runs, power loss, wear |
| `FlashWords.dfy`, `ValueStore.dfy` | words in the byte memory; `flash_write_val`, `flash_read_val` and their runs on the chip |
| `SubRegion.dfy` | the bounded region |
| `RecordStore.dfy` | the record log, its capacity and its overflow |
| `RecordRuns.dfy` | runs of record writes and reads with power loss; torn records; what an overflow costs |
| `Primality.dfy`, `BaudDivider.dfy` | `IsPrime`, `GetBetterBwpc`, `uart_init_baudrate` |
| `Adc.dfy`, `ClockCal.dfy`, `Mwc.dfy`, `Prbs9.dfy`, `Rssi.dfy`, `AccessCode.dfy`, `Timer.dfy` | the remaining cores |

Code that updates state is a method, proved equal to a function of the old state; the properties
are lemmas about that function. Device registers, the ADC samples, the calibration counter and the
tick counter are parameters. `flag` is the C parameter `flag_invalid`.

## Where the code does not do what it seems to promise

* `IsPrime` accepts the squares of primes that are 5 modulo 6, because its loop guard is `i*i<n`
  (25 is the least). Such a ratio is moved up by one, which costs `GetBetterBwpc` an exact setting
  at 25 and at no other of them (`SquareCost` bounds the rest; `SquareExample`,
  `LargeSquareExample`). Above 65531 squared the 32-bit `i*i` wraps, and primes are rejected too:
  all of them above 2^32 - 7 (`NothingAtTheTop`).
* `GetBetterBwpc` can miss an exact setting: a larger width that leaves a remainder of 1 looks just
  as good to it (`ExactExactly`). At 16 MHz and 160 kbaud it takes 99 ticks for 100
  (`NearMissExample`).
* `uart_init_baudrate` writes the divider to 15 bits. Ratios up to 131083 fit and ratios from 524290
  on do not, whatever the width (`KeptByRatio`); a lost divider always breaks the error bound
  (`RegisterErrorExactly`). 48 MHz at 110 baud gets 10786 for 109090 (`LostExample`).
* `GetBetterBwpc` gives a divider that is 0 or wrapped below 0 when the clock is too slow for the
  baud rate: it is real exactly when `10 * sysclk / baud` is 70 to 85 or at least 96
  (`UsableExactly`). 16 MHz at 1.8 Mbaud gives 0 (`UnworkableExamples`).
* The erase in `flash_write_long_val` (`flash.c:349-354`) contradicts the loop guard around it and
  never runs. A sector takes exactly `1023 / d` records of `d` words; the next one is never found
  again, and spills into the next sector unless `d` divides 1024. Only a later read can erase the
  sector, and only if `1023 / d * d >= 1000`. For sixteen lengths, 128 bytes among them, it never
  does, and every further record is lost (`RecoversExactly`, `DeadLengths`, `LostFrom32`).
* A record that crosses a page is programmed in two operations. Power loss between them leaves a
  torn record whose first word is valid, and it is read back. Record writes are atomic exactly for
  lengths of 1, 2, 4, 8, 16 and 32 words (`AtomicExactly`, `TornExample`).
* Record lengths that are not multiples of 4 do not work: the second record overlaps the first and
  is read from the wrong word (`LengthExactly`, `OddLengthLost`).
* Writes to a sub-region are atomic under power loss exactly when it is word-aligned or inside one
  page; a word that crosses a page can be read back torn (`SubRegion.AtomicExactly`, `TornWord`).
* `flash_subregion_write_val` returns 1 for success and the flag for refusal, which are the same
  when the flag is 1 (`ResultTellsExactly`).
* `rf_emi_rx_loop` does not halve when its 32-bit packet counter has wrapped to 0. At every
  2^32 packets the average can jump to twice the strongest sample, and needs up to 8 more packets
  to be back in range (`RangeBound`, `InRangeExactly`; `WrapExample` for a steady 100).
* The multiply-with-carry generators stop for good on any seed that is a multiple of their modulus,
  not only on zero (`StopsExactly`).
* `rc_48m_cal` measures the code of its last round but never considers it, so it only ever settles
  on even codes, and on 0 when no even code comes within 100 counts, even if an odd code is exact
  (`OddTargetIsMissed`, `JumpingEndsAtZero`).
* `sleep_us` takes `us * 16` modulo 2^32, so from 2^28 microseconds on it ends too early (`SleepUs`).
* `adc_set_ref_voltage` sets the reference to 900 for 0.9 V and does not restore 1175 for 1.2 V.

## Model

| member | source | states |
|---|---|---|
| NorFlash.Flash.EraseSector | firmware/drivers/8258/flash.c:161-176 | an erase sets exactly the sector around the address to ones |
| NorFlash.Flash.WritePage256 | firmware/drivers/8258/flash.c:196-219 | at most a page is sent, and it lands ANDed into the page of the address, wrapping inside it |
| NorFlash.PageWraps | firmware/drivers/8258/flash.c:196-219 | a byte past the end of the page lands as far from the start of the page as it is past the end |
| NorFlash.PageProgramCells | firmware/drivers/8258/flash.c:196-219 | byte k of a page program is ANDed onto its own cell, those past the end of the page included |
| NorFlash.Flash.WritePage | firmware/drivers/8258/flash.c:225-240 | for every address, length and buffer it terminates, leaves memory as a flat byte-by-byte AND would, and issues exactly the page-wise chunks of the buffer |
| NorFlash.ChunksByPage | firmware/drivers/8258/flash.c:225-240 | a write is one program for each page it covers, in page order; none is empty or crosses the end of its page |
| NorFlash.PagesOnceExactly | firmware/drivers/8258/flash.c:225-240 | no page is programmed twice by one write if and only if the write does not go round the chip |
| NorFlash.Flash.WriteData | firmware/drivers/8258/flash.c:271-282 | the outer splitter has the same effect and issues the same device operations as the inner one |
| NorFlash.Flash.ReadPage | firmware/drivers/8258/flash.c:248-267 | a read returns the cells in order from the address on |
| NorFlash.ChunksRefineFlat | firmware/drivers/8258/flash.c:225-240 | replaying the page-wise chunks on a device that wraps in its page equals programming a memory without pages |
| NorFlash.PageProgramIsFlat | firmware/drivers/8258/flash.c:196-240 | a chunk that ends within its page is not affected by the wrap |
| NorFlash.FlatProgramConcat | firmware/drivers/8258/flash.c:225-240 | programming two adjacent runs is programming their concatenation |
| NorFlash.FlatReadBack | firmware/drivers/8258/flash.c:225-267 | what is programmed onto an erased chip is read back, also round the end of the chip |
| FlashWords.FlatProgramCells | firmware/drivers/8258/flash.c:196-240 | each cell under the buffer is ANDed with its byte, every other cell is kept |
| FlashWords.ProgrammedBits | firmware/drivers/8258/flash.c:196-240 | a bit of a cell is set after a program exactly when it was set before and is set in the byte put onto it: bits are only ever cleared |
| Bits.AndBits | firmware/drivers/8258/flash.c:196-219 | the law of AND: a bit of the result is set exactly when it is set in both |
| Bits.LittleEndian | firmware/drivers/8258/flash.c:289-310 | an unsigned long is in memory with its least significant byte first |
| FlashWords.LowerAllRefines | firmware/drivers/8258/flash.c:284-332 | word operations carried out by the device do to the sector what the word model says and leave all other bytes alone |
| ValueStore.WriteVal | firmware/drivers/8258/flash.c:284-311 | for any sector content it issues exactly the operations of the word model, in order, with their effect on the bytes |
| ValueStore.ReadVal | firmware/drivers/8258/flash.c:313-332 | returns the first word that is neither erased nor invalid, else the flag, and erases only past slot 1000 with nothing found |
| SectorLog.WriteStep | firmware/drivers/8258/flash.c:284-311 | a write cut anywhere keeps the sector shape, has a stated outcome and slot, and every operation of it stays in the sector and stores exactly its word |
| SectorLog.ReadStep | firmware/drivers/8258/flash.c:313-332 | a read never changes the value held, and erases the sector exactly when it holds none and is used past slot 1000 |
| SectorLog.WriteAnywhere | firmware/drivers/8258/flash.c:284-311 | a write word by word, whatever the sector holds |
| SectorLog.ReadAnywhere | firmware/drivers/8258/flash.c:313-332 | the word returned and the erase, whatever the sector holds |
| SectorLog.RunRefinesRegister | firmware/drivers/8258/flash.c:284-332 | over every run with power loss anywhere the sector is invalid words, at most one live word, erased words; word 1023 is never invalid; it holds exactly what a torn-write register holds |
| SectorLog.TornWriteOutcome | firmware/drivers/8258/flash.c:284-311 | after a cut write only the old value, the new one or none can be read; a complete write always reads back |
| SectorLog.ExactWear | firmware/drivers/8258/flash.c:284-332 | without power loss the sector is a plain register, and n writes erase it exactly (n - 1) / 1024 times whatever reads come between |
| SectorLog.WearUnderPowerLoss | firmware/drivers/8258/flash.c:284-332 | with power loss anywhere at least 1002 writes are started for every erase |
| SectorLog.WearIsSharp | firmware/drivers/8258/flash.c:284-332 | for every k there is a run of 1002 k writes that erases k times |
| SectorLog.ReadBackExactly | firmware/drivers/8258/flash.c:284-332 | for every word at all, and any sector shaped but for its live word or full of flags: when exactly a write reads back |
| SectorLog.LeavesSectorExactly | firmware/drivers/8258/flash.c:284-311 | a write programs outside the sector if and only if all words of the sector are flags |
| SectorLog.FlagsFillSector | firmware/drivers/8258/flash.c:284-311 | storing the flag itself over and over leads to that sector |
| SectorLog.FullSectorSpills | firmware/drivers/8258/flash.c:284-311 | from that sector a write goes to the first word of the next one |
| SectorLog.ErasedFlagKeepsFirst | firmware/drivers/8258/flash.c:284-332 | with the flag 0xffffffff a value is never replaced |
| ValueStore.FlashRunRefinesRegister | firmware/drivers/8258/flash.c:284-332 | crash safety for the bytes of the chip: the sector holds what the torn-write register holds and no byte outside it ever changes |
| SubRegion.WriteVal | firmware/drivers/8258/flash.c:394-422 | marks and programs as specified, returns 1, or returns the flag and changes nothing when the last word is live |
| SubRegion.ResultMeans | firmware/drivers/8258/flash.c:404-421 | an accepted write returns 1, a refused one the flag |
| SubRegion.RegionWriteAnywhere | firmware/drivers/8258/flash.c:394-422 | a write word by word, whatever the region holds, and exactly when it is refused |
| SubRegion.FullRegionSpills | firmware/drivers/8258/flash.c:394-422 | from a region full of flags a write goes to the first word after it |
| SubRegion.ResultTellsExactly | firmware/drivers/8258/flash.c:404-421 | the returned word tells acceptance from refusal if and only if the flag is not 1 |
| SubRegion.ReadVal | firmware/drivers/8258/flash.c:424-445 | returns the live word or the flag, and changes nothing |
| SubRegion.OfferOne | firmware/drivers/8258/flash.c:394-422 | one more value is accepted exactly while fewer than num were, and then is the one held |
| SubRegion.FullExactly | firmware/drivers/8258/flash.c:402-411 | the refusal test is true exactly when num values were offered, and the region holds the last accepted one |
| SubRegion.ExactCapacity | firmware/drivers/8258/flash.c:394-445 | for every num from 1 on exactly the first num values are accepted, later ones change nothing, reads give the last accepted one, no byte outside changes |
| SubRegion.OpsDoWrite | firmware/drivers/8258/flash.c:394-422 | replaying the device operations of a write gives the memory after it |
| SubRegion.CutStep | firmware/drivers/8258/flash.c:394-422 | where no word crosses a page, a write cut off anywhere does to the words what the specification does to its slots |
| SubRegion.CutRunRefines | firmware/drivers/8258/flash.c:394-445 | where no word crosses a page, over every run with power loss anywhere the region holds what its specification says, uses at most num words, and nothing outside changes |
| SubRegion.WholeExactly | firmware/drivers/8258/flash.c:225-240 | no word of the region crosses a page if and only if it is aligned or lies inside one page |
| SubRegion.AtomicExactly | firmware/drivers/8258/flash.c:394-445 | with flag 0, writes are atomic at every cut in every state if and only if that is so; those regions are safe with any flag |
| SubRegion.TornWord | firmware/drivers/8258/flash.c:394-445 | in any word that crosses a page, a cut write is read back with 0xff at its end |
| RecordStore.MakeRoom | firmware/drivers/8258/flash.c:337-364 | where the next record goes and that exactly the live one is invalidated, for any sector content; the erase branch is dead |
| RecordStore.WriteLongVal | firmware/drivers/8258/flash.c:335-366 | memory and device operations after a record write for any sector content and every len for which the scan ends |
| RecordStore.ReadLongVal | firmware/drivers/8258/flash.c:368-392 | the record or nothing, the word returned, and exactly when the read erases the sector, for every len for which the scan ends |
| RecordStore.WriteCells | firmware/drivers/8258/flash.c:335-366 | a record write cell by cell, whatever the sector holds and for every length |
| RecordStore.ReadCells | firmware/drivers/8258/flash.c:368-392 | the bytes read and when the sector is erased, whatever it holds and for every length |
| RecordStore.CapacityIsLoopBound | firmware/drivers/8258/flash.c:339-340 | the records that start below 1024 - d are the first 1023 / d |
| RecordStore.NextRecord | firmware/drivers/8258/flash.c:335-366 | below the capacity a write invalidates the last record, stores the new one exactly and stays in the sector |
| RecordStore.ReadShelf | firmware/drivers/8258/flash.c:368-392 | the last record is read back byte for byte, and the read does not erase |
| RecordStore.RoundTripExactly | firmware/drivers/8258/flash.c:335-392 | after n writes and no read, a read gives the last record back if and only if 1 <= n <= 1023 / d, else nothing; up to there no byte outside the sector changes |
| RecordStore.OverflowWrite | firmware/drivers/8258/flash.c:340-366 | the first write past the capacity stays inside the sector exactly when d divides 1024, else it clears bits of the next sector |
| RecordStore.ReadSpent | firmware/drivers/8258/flash.c:368-392 | with all records invalid a read finds nothing, and erases exactly when the scan gets to word 1000 |
| RecordStore.OpsDoWrite | firmware/drivers/8258/flash.c:335-366 | replaying the device operations of a record write gives the memory after it |
| RecordRuns.PutStep | firmware/drivers/8258/flash.c:335-366 | a record write cut off anywhere, from any state of the store, does to the sector what the specification does to its log, and changes nothing outside the slots |
| RecordRuns.GetStep | firmware/drivers/8258/flash.c:368-392 | a read keeps the log, or erases a store that holds nothing and is used up to word 1000 |
| RecordRuns.RunRefinesLog | firmware/drivers/8258/flash.c:335-392 | over every run of writes and reads with power loss anywhere, a read finds what the specification holds; no byte outside the sector changes before the capacity is passed, none outside the slots ever |
| RecordRuns.ExtentExactly | firmware/drivers/8258/flash.c:340-364 | the slots fill the sector, and reach past it exactly when d does not divide 1024 |
| RecordRuns.WholePut | firmware/drivers/8258/flash.c:335-366 | a write that is not cut is the whole of the method |
| RecordRuns.CutRecordWrite | firmware/drivers/8258/flash.c:335-392 | power loss after any device operation: old, none or new is read, except a record that crosses a page, which cut before its last operation is read torn |
| RecordRuns.CrossingExactly | firmware/drivers/8258/flash.c:225-240 | some slot of d words in capacity crosses a page if and only if d does not divide 64 |
| RecordRuns.TornExactly | firmware/drivers/8258/flash.c:225-240 | a torn record differs from the whole one exactly when a byte that was lost is not 0xff |
| RecordRuns.AtomicExactly | firmware/drivers/8258/flash.c:335-392 | writes of d words are atomic at every cut in every state if and only if d divides 64 |
| RecordRuns.TornExample | firmware/drivers/8258/flash.c:335-392 | the 22nd record of 12 bytes, cut after its first page, is read back with eight bytes of 0xff |
| RecordRuns.RunReadsExactly | firmware/drivers/8258/flash.c:335-392 | over every interleaving of complete writes and reads, the last record is read back if and only if 1 to 1023 / d were written since the last erase |
| RecordRuns.RecoversExactly | firmware/drivers/8258/flash.c:384-391 | an overflowed store can ever hold a record again if and only if 1023 / d * d >= 1000 |
| RecordRuns.DeadLengths | firmware/drivers/8258/flash.c:340-391 | the sixteen lengths for which it cannot |
| RecordRuns.LostFrom32 | firmware/drivers/8258/flash.c:335-392 | records of 128 bytes: from the 32nd write on nothing is ever read back |
| RecordRuns.LengthExactly | firmware/drivers/8258/flash.c:338-371 | of the lengths from 4 to 255, two records in a row read back if and only if the length is a multiple of 4 |
| RecordRuns.OddLengthLost | firmware/drivers/8258/flash.c:338-371 | for each other length, a pair of records of which the second is read from its second word |
| Primality.IsPrime | firmware/drivers/8258/uart.c:37-56 | for every unsigned n: up to 65531 squared 1 exactly for n <= 3, primes, and squares of primes congruent to 5 modulo 6; above it exactly for primes at which the wrapped i*i stops the loop |
| Primality.NothingAtTheTop | firmware/drivers/8258/uart.c:48-53 | above 2^32 - 7 the wrap never stops the loop, so nothing is accepted |
| Primality.DivisorOfSquare | firmware/drivers/8258/uart.c:48-52 | the square of a prime has no divisor strictly between 1 and the prime |
| Primality.AcceptExhausted | firmware/drivers/8258/uart.c:48-53 | when the trial division runs out the number is prime or the square of the last divisor |
| Primality.RejectDivisible | firmware/drivers/8258/uart.c:48-52 | a number the loop rejects is neither prime nor such a square |
| Primality.TwentyFive | firmware/drivers/8258/uart.c:48-53 | 25 is the least composite number that is accepted |
| BaudDivider.Uart.Ratio | firmware/drivers/8258/uart.c:76-91 | the ratio aimed at, with no 32-bit overflow in its tenfold |
| BaudDivider.RatioExactly | firmware/drivers/8258/uart.c:76-91 | the ratio aimed at without divisions: one more exactly after a ratio taken for a prime, or from six tenths on unless one more is taken for one |
| BaudDivider.RatioRounds | firmware/drivers/8258/uart.c:76-91 | away from primes the ratio aimed at is at most four tenths above the exact one and less than six below |
| BaudDivider.Uart.Tabulate | firmware/drivers/8258/uart.c:95-99 | the tables of quotients and first decimals |
| BaudDivider.Uart.GetBetterBwpc | firmware/drivers/8258/uart.c:68-133 | the globals are the specified choice, ties and branches included |
| BaudDivider.Uart.InitBaudrate | firmware/drivers/8258/uart.c:197-204 | the registers get the chosen width and the low 15 bits of the divider; with a workable clock and a ratio of at most 131082 they meet the error bound |
| BaudDivider.AdjustedIsRejected | firmware/drivers/8258/uart.c:76-91 | the ratio aimed at is one IsPrime accepts if and only if sysclk / baud is at most 2 |
| BaudDivider.LastMinMeans | firmware/drivers/8258/uart.c:103-109 | the minimum scan finds the last slot with the least decimal among quotients other than 1 |
| BaudDivider.LastMaxMeans | firmware/drivers/8258/uart.c:103-113 | the maximum scan finds the last slot with the greatest decimal |
| BaudDivider.RoundsDownExactly | firmware/drivers/8258/uart.c:115-132 | it is rounded down exactly when some decimal below 5 of a quotient other than 1 is nearer to 0 than every decimal is to 10, so a tie is rounded up |
| BaudDivider.ChosenExactly | firmware/drivers/8258/uart.c:103-132 | the largest width with the least decimal, or with the greatest one |
| BaudDivider.ChoiceExactly | firmware/drivers/8258/uart.c:115-132 | the divider is the quotient of the ratio by the width, rounded that way, less 1 |
| BaudDivider.ChoiceIsOptimal | firmware/drivers/8258/uart.c:101-133 | for every ratio no width from 3 to 15 with any divider of at least 1 is nearer in tenths than the choice |
| BaudDivider.LastNear | firmware/drivers/8258/uart.c:101-133 | a first decimal of 0 always wins, and the largest width that has it is taken, exact or not |
| BaudDivider.ExactExactly | firmware/drivers/8258/uart.c:68-133 | for a whole ratio with an exact setting the choice is exact if and only if the largest width with first decimal 0 divides the ratio |
| BaudDivider.NearMissExample | firmware/drivers/8258/uart.c:68-133 | 16 MHz at 160 kbaud: 9 * 11 ticks are chosen though 10 * 10 is exact |
| BaudDivider.SquareCost | firmware/drivers/8258/uart.c:76-91 | what a misclassified ratio r costs: 25 and 121 alone have an exact setting, it is lost at 25 alone, and the ticks are within (bwpc + 3) / 2 of r |
| BaudDivider.SquareExample | firmware/drivers/8258/uart.c:68-133 | 16 MHz at 640 kbaud is 5 * 5 ticks, 13 * 2 are chosen |
| BaudDivider.LargeSquareExample | firmware/drivers/8258/uart.c:68-133 | 16.81 MHz at 10 kbaud is 41 * 41 ticks, 1683 are chosen where the ratio itself would give 1680 |
| BaudDivider.UsableExactly | firmware/drivers/8258/uart.c:68-133 | the divider is at least 1 and not wrapped if and only if 10 * sysclk / baud is 70 to 85 or at least 96; bwpc is in 3..15 |
| BaudDivider.WorkableExactly | firmware/drivers/8258/uart.c:76-91 | that is exactly when the ratio aimed at is 8 or at least 10 |
| BaudDivider.UnworkableExamples | firmware/drivers/8258/uart.c:68-133 | 16 MHz at 1.8 Mbaud gives div 0, at 16 Mbaud div 2^32 - 1 |
| BaudDivider.BaudErrorBound | firmware/drivers/8258/uart.c:58-133 | for the chosen globals, whenever the clock is workable, 2 * abs((div+1)*(bwpc+1)*baud - sysclk) <= (bwpc+3) * baud, prime adjustment included |
| BaudDivider.KeptExactly | firmware/drivers/8258/uart.c:197-200 | the register keeps a real divider if and only if twice the ratio is below 65537 times the chosen width |
| BaudDivider.KeptByRatio | firmware/drivers/8258/uart.c:197-200 | whatever the width, ratios up to 131083 fit and from 524290 on do not; both ends are sharp |
| BaudDivider.RegisterErrorExactly | firmware/drivers/8258/uart.c:197-200 | with a workable clock the registers meet the error bound if and only if the divider is kept |
| BaudDivider.LostExample | firmware/drivers/8258/uart.c:68-200 | 48 MHz at 110 baud: the divider 109090 becomes 10786 |
| Adc.InsertSample | firmware/drivers/8278/adc.c:383-391 | the in-place insertion step |
| Adc.AdcDriver.SampleAndGetResult | firmware/drivers/8278/adc.c:349-411 | code and millivolts from the sorted clamped samples; the product fits a signed 32-bit int |
| Adc.ClampExactly | firmware/drivers/8278/adc.c:375-380 | a 13-bit sample counts as it is, a negative one as 0, bits from 14 on are ignored |
| Adc.TrimmedMean | firmware/drivers/8278/adc.c:382-403 | four times the code is at most 3 below the sum of all samples less the two least and the two greatest |
| Adc.MillivoltsExactly | firmware/drivers/8278/adc.c:404-408 | the voltage times 8192 is the product of code, divider, scale and reference, rounded down |
| Adc.AdcDriver.SetAinPreScaler | firmware/drivers/8278/adc.c:154-174 | the scale becomes 1 or 8 and the configuration stays in its range |
| Adc.AdcDriver.SetVrefVbatDivider | firmware/drivers/8278/adc.h:280-292 | the divider becomes 1, 3 or 2 |
| Adc.AdcDriver.SetRefVoltage | firmware/drivers/8278/adc.c:83-101 | 0.9 V sets 900; 1.2 V leaves what was there |
| Adc.SortIsOrderedPermutation | firmware/drivers/8278/adc.c:382-392 | the sorted samples are an ordered permutation of the samples |
| Adc.OutlierTolerance | firmware/drivers/8278/adc.c:396-402 | if all but at most two of the eight samples lie in a range, the trimmed mean does, whatever the others are |
| Adc.SortMonotone | firmware/drivers/8278/adc.c:382-392 | raising samples raises every order statistic |
| Adc.VoltageMonotone | firmware/drivers/8278/adc.c:382-410 | raising any clamped samples never lowers the millivolts |
| Adc.VoltageBound | firmware/drivers/8278/adc.c:404-408 | the result is below divider * scale * reference |
| ClockCal.Rc48m.Calibrate | firmware/drivers/8278/clock.c:146-196 | for any count: the eight codes written, all in 1..255, and that the first of the nearest among the first seven is set, or 0 when none is under 100 away; when the count never falls that is the best of all even codes 2..254 |
| ClockCal.TrialsExactly | firmware/drivers/8278/clock.c:162-187 | after each code the next is 64, 32, ..., 1 lower if it counted above 250 and as much higher if not |
| ClockCal.CalibratedExactly | firmware/drivers/8278/clock.c:160-195 | in counts: a nonzero result is off by some b below 100 and every even code by b or more; it is 0 exactly when all are off by 100 or more |
| ClockCal.NearEnough | firmware/drivers/8278/clock.c:160-193 | on either side 99 counts away is taken and 100 is not |
| ClockCal.TieGoesToMultipleOf4 | firmware/drivers/8278/clock.c:189-193 | when the count strictly rises and two even codes are equally near, they are neighbours and the multiple of 4 is set |
| ClockCal.NearTarget | firmware/drivers/8278/clock.c:146-196 | if code c counts 250 the result is at least as near as each even code within 1 of c, and exact when c is even |
| ClockCal.ExactOnlyAtEvenCodes | firmware/drivers/8278/clock.c:164-195 | when the result is not 0 the target is met exactly if and only if an even code meets it |
| ClockCal.OddTargetIsMissed | firmware/drivers/8278/clock.c:164-195 | a rising counter that only code 101 brings to 250 is calibrated to 100 or 102 |
| ClockCal.JumpingEndsAtZero | firmware/drivers/8278/clock.c:164-195 | a rising counter that is exact at 101 and 150 away elsewhere ends at code 0 |
| Mwc.Generator.Rand | firmware/drivers/8258/random.c:225-231 | both state updates without overflow, and a result that the tick register turns back into the mixed word |
| Mwc.XorTwice | firmware/drivers/8258/random.c:231 | the exclusive-or with the tick register is undone by a second one |
| Mwc.XorBits | firmware/drivers/8258/random.c:231 | the law of exclusive-or: a bit of the result is set exactly when the two bits differ |
| Mwc.MixedDigits | firmware/drivers/8258/random.c:229 | the low digit of the mixed word is that of w, the high one is z plus the high digit of w |
| Mwc.MultiplyWithCarryLaw | firmware/drivers/8258/random.c:225-228 | after n calls 2^(16 n) times each state is congruent to its seed modulo a * 2^16 - 1 |
| Mwc.StaysNonZero | firmware/drivers/8258/random.c:225-228 | a nonzero state never becomes zero and never leaves 32 bits |
| Mwc.StepPermutes | firmware/drivers/8258/random.c:225-228 | below the modulus a step is a permutation |
| Mwc.StuckExactly | firmware/drivers/8258/random.c:225-228 | a step changes every 32-bit state but 0 and the modulus |
| Mwc.StopsExactly | firmware/drivers/8258/random.c:225-228 | a generator ever stops if and only if its seed is a multiple of the modulus |
| Prbs9.FillPrbs9 | firmware/drivers/8258/emi.c:263-282 | byte i holds bits 8 i to 8 i + 7 of the recurrence b[k+9] = b[k+4] xor b[k] started with nine ones |
| Prbs9.ByteBits | firmware/drivers/8258/emi.c:272-277 | bit j of byte i is bit 8 i + j of the sequence |
| Prbs9.NextState | firmware/drivers/8258/emi.c:278 | one register step moves the nine-bit window of the sequence by one |
| Prbs9.StateNeverZero | firmware/drivers/8258/emi.c:266-278 | the register is never zero and stays in nine bits |
| Prbs9.Jump512 | firmware/drivers/8258/emi.c:265-278 | x^512 = x modulo x^9 + x^4 + 1, as a law of the sequence |
| Prbs9.LeastPeriod | firmware/drivers/8258/emi.c:263-282 | d is a period of the sequence if and only if 511 divides d |
| Prbs9.MaximalLength | firmware/drivers/8258/emi.c:263-282 | the register is in the same state d steps later if and only if 511 divides d |
| Rssi.Receiver.RxLoop | firmware/drivers/8258/emi.c:125-142 | exactly the good packets are averaged in; rssi is the signed char of the accumulator less 110 |
| Rssi.ReadingExactly | firmware/drivers/8258/emi.c:135 | the reading is the accumulator less 110 if and only if that is at most 127 |
| Rssi.AverageError | firmware/drivers/8258/emi.c:104-142 | however long the run, the accumulator is less than 1 below the exact average, and above it by at most the drift: 0 up to 2^32 packets, then at each wrap at most hi + 1, halved with every packet |
| Rssi.RangeBound | firmware/drivers/8258/emi.c:104-142 | however long the run, the accumulator is never below the smallest sample, and above the largest by at most the excess: 0 up to 2^32 packets, then hi at each wrap, halved with every packet |
| Rssi.SteadySignal | firmware/drivers/8258/emi.c:125-142 | a steady signal attains the bound at every length |
| Rssi.InRangeExactly | firmware/drivers/8258/emi.c:125-142 | which run lengths keep every signal in range: up to 2^32, and those whose halvings since the last wrap use up the excess, 8 for the full range of samples |
| Rssi.CounterWrap | firmware/drivers/8258/emi.c:131-136 | at every wrap of the counter the packet is added whole, out of range for a strong signal |
| Rssi.WrapExample | firmware/drivers/8258/emi.c:131-136 | a steady 100 reads 200, 150 and after 8 packets 100 again, at the second wrap 200 again |
| AccessCode.Expand16To32 | firmware/proj_lib/rf_drv_8267.h:265-273 | the 32-bit word of pairs, within 32 bits |
| AccessCode.Compress32To16 | firmware/proj_lib/rf_drv_8267.h:275-285 | the 16-bit word of low pair bits |
| AccessCode.ExpandPairs | firmware/proj_lib/rf_drv_8267.h:265-273 | bit k of the code is pair n - 1 - k of the word: 01 for a one, 10 for a zero |
| AccessCode.CompressBits | firmware/proj_lib/rf_drv_8267.h:275-285 | bit n - 1 - k of the code is the low bit of pair k |
| AccessCode.CompressExpand | firmware/proj_lib/rf_drv_8267.h:265-285 | compressing an expanded code gives it back, for any number of pairs |
| AccessCode.ExpandCompress | firmware/proj_lib/rf_drv_8267.h:265-285 | expanding a compressed word gives it back if and only if all its pairs are 01 or 10 |
| Timer.ExceedExactly | firmware/drivers/8258/timer.h:112-115 | for every us the wrapped test agrees with the true elapsed time against the delay, 16 us modulo 2^32, except after whole turns of the counter until the delay has passed once more |
| Timer.SleepUs | firmware/drivers/8258/timer.c:34-39 | it ends, at the first poll at which more ticks than the delay have really elapsed; that is as long as was asked for if and only if us is below 2^28 |
| Timer.JumpBoundIsSharp | firmware/drivers/8258/timer.c:34-39 | with a jump one tick longer the end of the delay can be missed |

## Left out

- Power loss inside a single program or erase operation: both are atomic steps of the device.
- SPI commands, busy polling, interrupt masking, the watchdog, MAC and flash identifiers, and the address filter of `MI_API_ENABLE`: device access, taken as program, erase and read.
- NorFlash.Flash.WritePage256: covers up to 256 bytes, which is all its callers send; what a device does with more than a page is not part of this model.
- Sector addresses that are not multiples of 4096, and chips other than 16 MiB: the stores are modelled on whole sectors of the 24-bit address space.
- RecordStore.RoundTripExactly: covers the record lengths the store works for, multiples of 4 (`LengthExactly`). Of the shorter ones, 1 to 3 bytes, the two methods are modelled for every content at which the scans end; with no whole word to step by they stay at an invalid first word for ever.
- BaudDivider.Uart.GetBetterBwpc: covers 10 * sysclk below 2^32, beyond which the first decimal is computed from a wrapped product.
- Seeding the random generators from ADC noise.
- BaudDivider.Uart.InitBaudrate: covers the clock registers only, not parity and stop bits.
- The copies of the random, EMI, timer and UART code under `8278`: the same algorithms.
- The 15-bit generator of continuous transmission, packet headers and register setup in `emi.c`.
- The other drivers (I2C, SPI, DMA, AES, audio, PWM, GPIO, LPC, QDEC): mostly single register writes.
- The homekit sources: only headers are in the repository.
