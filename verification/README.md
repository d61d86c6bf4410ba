# BrickPico, verified

A Dafny model of the algorithms inside BrickPico, the firmware of a Pico-based LED
controller, and proofs of what they promise over whole runs and for all inputs. Check it with
`dafny verify dfyconfig.toml`.

| file | models |
|---|---|
| `RingLayout.dfy`, `RingBuffer.dfy` | the log ring of `src/ringbuffer.c` as a class over a byte array, and its client, the log |
| `Deque.dfy`, `RingRuns.dfy` | what the ring stands for, and its runs of mixed operations |
| `RepairedRing.dfy` | that ring with three repairs, or with one: a deque in every run, or in those that spare the last record |
| `Crc32.dfy`, `PersistentMemory.dfy` | the table-driven CRC of `src/crc32.c` and the start-up check it serves |
| `Text.dfy`, `Bitmask.dfy`, `TimerText.dfy` | the text forms of numbers, bit masks and timer events |
| `TimerScheduler.dfy` | the polled timer scheduler with its 60-second debounce |
| `Handover.dfy`, `EffectTick.dfy` | the hand-over of state between the two cores, and the effect tick with its write-on-change cache |
| `Division.dfy`, `Fade.dfy`, `Pulse.dfy` | the fade and pulse effects |
| `PwmDivider.dfy`, `Lightness.dfy` | the PWM divider, the CIE lightness curve and the level table |
| `PowI64.dfy`, `I2cTemps.dfy`, `Bytes.dfy`, `DhcpOptions.dfy` | power by squaring, the I2C round robin, and the DHCP option rewrite |

Code that updates state in place is a class or a method with loops, proved against functions
and predicates over values; the laws are lemmas about those. Code that only computes is
functions.

## What came out

Most of what the code and its comments promise holds as it stands. Where it does not, the
code is modelled as it is, and a lemma says exactly when it does:

- **Ring, wrap point.** The payload of a record wraps round the buffer, its length suffix does
  not: it is written to cell `size`, one past the ring, if and only if it falls on the wrap
  point (`RingBuffer.U8RingBuffer.Add`). The model gives the buffer that one slack cell. Forward
  walks never read it. A step back returns to the record it came from if and only if the record
  has at most 254 bytes (the step is computed in a `uint8_t`) and, with its suffix on the wrap
  point, cell 0 happens to hold the length (`RingLayout.StepBackExact`). Four adds to nine cells
  make it miss (`RingBuffer.WalkBackMisses`).
- **Ring, emptying.** Removing the only record leaves `head` and `tail` apart, unless that
  record filled the buffer (removing the oldest) or the step back leads nowhere (removing the
  newest). The add that follows does not bring them together: a walk from `head` then starts at
  a stale cell. It may end there (`AddAfterEmptying`) or start with a removed record and come to
  the one there is after it (`StaleThenFound`); the step on from the stale cell reaches the
  record if and only if its stale length leads exactly there (`StaleStart`). A later removal can
  bring `head` and `tail` together by chance (`TogetherByChance`); an empty ring is well-formed
  again exactly when they have met (`EmptiedIsWell`).
- **Ring, other runs.** A run that never takes the last record, and steps back only over
  records of at most 254 bytes whose suffix is not on the wrap point, is that of a deque
  (`RingRuns.Run`).
- **Ring, the log.** In a buffer of 514 bytes or more an overwriting add never removes every
  record, so the log is spared the emptying fault: after any run of messages the ring holds
  exactly the longest run of newest messages that fits, and the dump, which walks forward,
  prints them. It is not spared the wrap point. The cell past the ring is written exactly by
  the messages for which the cells of all messages since set-up, their own included, are 1
  modulo the size (`RingRuns.PastTheEnd`, `RingRuns.LogFromStart`); messages of 255, 253 and
  1 bytes in 514 do it (`RingBuffer.LogPastTheEnd`).
- **Ring, repaired.** Wrapping the suffix, computing the step back in full width, and setting
  `head` and `tail` anew when the last record goes make the ring a deque in every run of adds
  and removals, for records of up to 255 bytes. Wrapping the suffix alone is enough for runs of
  records of at most 254 bytes in which no operation takes the last one. `RepairedRing` is
  these variants, not the code.
- **CRC.** Any change within four consecutive bytes is noticed, wherever it is. A change of
  five bytes goes unnoticed if and only if the changes of the last four are, as a word, the
  table entry of the change of the first.
- **Timer events with a fixed minute** fire exactly once in each matching minute that is
  polled: over a day of theirs polled throughout, once with a fixed hour and 24 times with `*`. An event whose minute is `*` does not: a poll late in one minute keeps it from
  firing early in the next. A fixed minute is exactly what it takes.
- **Hand-over.** No copy is torn and none goes back to an older state, and none gets stuck:
  from every state of every run the mutex can be given back, and any state that core 0 writes
  can get across.
- **Timer text.** What an event prints to is read back as its normal form, which matches the
  same times. Mask and name come back as they were if and only if the mask is not empty and the
  name is single-spaced. An event without an action prints but is not read back.
- **Typed ranges.** A range in a mask's text, wherever in a list it stands, is read whole if and
  only if it does not descend and lies among the numbers of the mask; otherwise its first
  number alone is read. `commands.md:456` gives `6-7` as the weekend, but the code numbers days
  0 to 6, so that range is Saturday alone, and so is `6-0`; the model follows the code.
- **Lightness.** Lightness undoes its inverse everywhere. The other way round there is a gap
  just above the branch point. The two functions branch at the same point, but there
  `cie_1931_lightness` steps down, because its cube piece starts below the end of its linear
  piece. From the branch point to the ratio (23.9996248 / 116)^3 lightness is below its value
  at the branch point, and exactly there, that ratio included, a luminance does not come back.
- **DHCP.** The rewritten options read as intended if and only if no option 55 is longer than
  253 bytes.
- **Effect tick.** Before an output's first write its level is what set-up left; it is right
  then if and only if that is the level of 0.
- **PWM divider.** Every frequency that can be configured works from 200 kHz to 334 MHz. In
  general divider and top fit their registers if and only if the clock is at least twice the
  frequency and below 33423362 times it.
- **Power.** `pow_i64` returns the power exactly when the power fits. When it does not, the
  call can also compute a product that is not defined: the overflow check does not see a large
  negative base, nor a product of powers that fit, as in 3 to the 40. `PowI64.Outcome64` tells
  the three outcomes apart for every call.

## Model

| member | source | states |
|---|---|---|
| RingLayout.NextInChain | src/ringbuffer.c:78-86 | the cell of record i holds its length, and a step forward from it leads to record i + 1, across the wrap too |
| RingLayout.PositionsDiffer | src/ringbuffer.c:78-86 | no two records of a layout start at the same cell, so a walk visits each once |
| RingLayout.StepBackExact | src/ringbuffer.c:89-105 | stepping back undoes stepping forward if and only if the record has at most 254 bytes and, if its suffix is on the wrap point, cell 0 repeats its length |
| RingLayout.StepBackMissesTheSlack | src/ringbuffer.c:168-173 | a well-formed memory of three records whose middle suffix is in the slack cell: the step back from the third misses the second |
| RingLayout.PreviousInChain | src/ringbuffer.c:89-105 | in a ring of records, the step back from record i + 1 reaches record i exactly under that condition |
| RingLayout.PreviousInWrappedChain | src/ringbuffer.c:89-105 | were suffixes wrapped, the step back would be right over every record of at most 254 bytes, and over no other |
| RingLayout.StepBackInPlace | src/ringbuffer.c:89-105 | exactly when a step back leads to the cell it started from |
| RingLayout.DropFirst | src/ringbuffer.c:108-123 | moving `head` one step on gives a well-formed ring of the other records if and only if others are left or the record filled the buffer |
| RingLayout.DropLast | src/ringbuffer.c:126-141 | the same for `tail` one step back: well-formed exactly when that step is right or, with no record left, leads nowhere |
| RingLayout.DiscardsShortest | src/ringbuffer.c:153-161 | the number of discards is that of the shortest prefix of oldest records that makes room: it does, and no shorter one does |
| RingLayout.DiscardsSpareNewest | src/ringbuffer.c:153-161 | in 514 bytes or more, making room for any record never discards every record |
| RingLayout.LongestFitAfterAdd | src/ringbuffer.c:144-179 | if the ring holds the longest run of newest messages that fits, it still does after an overwriting add |
| RingBuffer.U8RingBuffer.constructor | src/ringbuffer.c:35-56 | a ring set up anew is well-formed, holds no records and has all cells free |
| RingBuffer.U8RingBuffer.RemoveFirstItem | src/ringbuffer.c:108-123 | error codes; the oldest record goes and its cells are free again; the ring stays well-formed exactly under FirstWell |
| RingBuffer.U8RingBuffer.RemoveLastItem | src/ringbuffer.c:126-141 | error codes; the newest record goes and its cells are free again; the ring stays well-formed exactly under LastWell |
| RingBuffer.U8RingBuffer.Store | src/ringbuffer.c:165-173 | the record lies at its place, no cell of another record changes, and the cell past the ring is written if and only if the suffix is on the wrap point |
| RingBuffer.U8RingBuffer.MakeRoom | src/ringbuffer.c:153-159 | the discard loop removes exactly the shortest prefix that makes room, with `free`, `items` and `head` to match |
| RingBuffer.U8RingBuffer.Put | src/ringbuffer.c:163-177 | the record becomes the newest one; a well-formed ring stays so, one with `head` and `tail` parted does not recover |
| RingBuffer.U8RingBuffer.Add | src/ringbuffer.c:144-179 | return codes; which records go and which stay, byte for byte, and where; exactly when the ring is well-formed afterwards; which cells change, the one past the ring exactly for a suffix on the wrap point; nothing changes for an empty record |
| RingBuffer.U8RingBuffer.Peek | src/ringbuffer.c:182-217 | the four outcomes, the bytes fetched across the wrap, and the neighbours, -1 at the ends |
| RingBuffer.U8RingBuffer.Walk | src/ringbuffer.c:182-217 | from record i `next` leads to record i + 1, `tail` is met exactly at the last record and `head` exactly at the first |
| RingBuffer.U8RingBuffer.WalkBack | src/ringbuffer.c:89-105 | `prev` leads back to record i exactly under StepsBack |
| RingBuffer.U8RingBuffer.RemoveFirst | src/ringbuffer.c:220-227 | the code of every failure, which changes nothing; else returns the oldest record byte for byte and removes it |
| RingBuffer.U8RingBuffer.RemoveLast | src/ringbuffer.c:230-237 | the code of every failure, which changes nothing; else returns the newest record byte for byte and removes it |
| RingBuffer.AddAfterEmptying | src/ringbuffer.c:117-120 | a run (add, remove, add) in zeroed memory after which the ring is not well-formed and a peek at `head` finds an empty record |
| RingBuffer.U8RingBuffer.StaleStart | src/ringbuffer.c:78-86 | with one record and `head` elsewhere, the step on from `head` reaches the record if and only if the stale length there leads that far |
| RingBuffer.U8RingBuffer.PeekApart | src/ringbuffer.c:182-217 | a peek at `head` of such a ring always has a next cell, and that is the record's exactly then |
| RingBuffer.StaleThenFound | src/ringbuffer.c:117-120 | a run after which the walk from `head` fetches a removed record and then the one there is |
| RingBuffer.TogetherByChance | src/ringbuffer.c:135-138 | a run that parts `head` and `tail` and in which a later removal brings them together |
| RingBuffer.U8RingBuffer.EmptiedIsWell | src/ringbuffer.c:117-120 | an emptied ring is well-formed exactly when `head` and `tail` have met |
| RingBuffer.WalkBackMisses | src/ringbuffer.c:89-105 | a run of four adds after which `prev` of the newest record is not the record before it |
| RingBuffer.DumpLog | src/command.c:450-458 | walking from `head` by `next` until -1 yields exactly the stored records, each once, oldest first |
| RingBuffer.LogMsg | src/log.c:223-224 | a message added by the logger is the newest record, right after the one before it, the ring stays well-formed and holds the longest run of newest messages that fits; when the cell past the ring is written |
| RingBuffer.LogAll | src/log.c:223-224 | the same after any run of messages |
| RingBuffer.LogPastTheEnd | src/ringbuffer.c:173-173 | a run of three messages whose last writes past the ring and is missed by a step back |
| Deque.AddInWords | src/ringbuffer.c:144-179 | an overwriting add is refused only if the record is too long for the buffer, and drops the fewest of the oldest records that make room |
| Deque.FirstInFirstOut | src/ringbuffer.c:144-227 | of plain adds and first-removals nothing is lost, made up or changed in order, over whole runs |
| Deque.AddUndone | src/ringbuffer.c:144-237 | an accepted add and the last-removal after it hand out what was added and leave the rest of any run as it would be without the two |
| RingRuns.Apply | src/ringbuffer.c:108-237 | one operation on any well-formed ring: a removal hands out the first or the last record, byte for byte, and leaves the others; an add puts its record behind them if there is room, an overwriting one after dropping the fewest of the oldest that make room; and when the ring is well-formed afterwards (for adds and first-removals exactly under Safe) |
| RingRuns.Run | src/ringbuffer.c:108-237 | every run of Safe operations, of any mix, is that of a deque and keeps the ring well-formed; in a run of plain adds and first-removals the records at the start and those accepted are, in order, those handed out and those left; a last-removal right after an accepted add hands out what was added |
| RingRuns.OneMessageMore | src/ringbuffer.c:163-173 | messages lie one after the other round the ring; a suffix is on the wrap point if and only if the cells of all messages so far are 1 modulo the size |
| RingRuns.LogFromStart | src/log.c:223-224 | from set-up, any run of messages: the longest run of newest ones that fits, where the newest lies, and what the cell past the ring holds |
| RingRuns.LogAndDump | src/command.c:450-458 | the same, dumped: those messages, oldest first |
| RepairedRing.DropFirstHolds | src/ringbuffer.c:108-123 | repaired: the oldest record is fetched and goes, also when it is the only one |
| RepairedRing.DropLastHolds | src/ringbuffer.c:126-141 | repaired: the newest record is fetched and goes, also when it is the only one |
| RepairedRing.StepRefines | src/ringbuffer.c:108-237 | repaired: the same words about one operation, from every ring that holds records, the only one included |
| RepairedRing.RingRun | src/ringbuffer.c:108-237 | repaired: every run of any mix of operations is that of a deque, with the same two laws, first in first out and last in handed out |
| RepairedRing.StepBackInChain | src/ringbuffer.c:89-105 | repaired: the step back undoes the step forward at every record boundary, for records of any length |
| RepairedRing.WalkBackFetchesAll | src/ringbuffer.c:89-105 | repaired: walking back from `tail` fetches every record |
| RepairedRing.PlainIsRepaired | src/ringbuffer.c:108-237 | with the suffix wrapped and records of at most 254 bytes, an operation that spares the last record needs neither of the other repairs |
| RepairedRing.PlainRun | src/ringbuffer.c:108-237 | so with the suffix alone wrapped every run of such operations is that of a deque, with the same two laws |
| Crc32.XCrc32 | src/crc32.c:171-181 | for every buffer, length and initial value the table-driven loop computes the bit-serial CRC |
| Crc32.TableIsGenerated | src/crc32.c:45-138 | each of the 256 table entries is what the generator in the header comment makes of its index |
| Crc32.ByteAtOnce | src/crc32.c:171-181 | one table step equals feeding the byte's eight bits to the shift register, high bit first |
| Crc32.CrcAppend | src/crc32.c:145-148 | the CRC of a concatenation is the CRC of the second part started from that of the first |
| Crc32.CrcDrift | src/crc32.c:171-181 | the CRC is linear: the difference of two results depends on the differences of data and initial values alone |
| Crc32.CrcKeepsApart | src/crc32.c:171-181 | the same data never brings two different registers together |
| Crc32.WindowDetected | src/crc32.c:171-181 | buffers that differ only within at most four consecutive bytes never have the same CRC |
| Crc32.FiveBytesCollideExactly | src/crc32.c:171-181 | buffers that differ only within five consecutive bytes have the same CRC if and only if the differences of the last four are, as a word, the table entry of the difference of the first |
| Crc32.FiveBytesCanCollide | src/crc32.c:171-181 | so within any five consecutive bytes there is a change that leaves every CRC as it was |
| PersistentMemory.Block.UpdateCrc | src/brickpico.c:67-72 | afterwards the stored CRC is that of the covered bytes |
| PersistentMemory.Block.Init | src/brickpico.c:74-100 | a block is kept exactly when its first four bytes are af, ec, dd, ba and its CRC is right; kept blocks only change `prev_uptime`, others are blanked; the check passes afterwards either way |
| PersistentMemory.IdBytes | src/brickpico.c:79-79 | the id test looks at the first four bytes, least significant first |
| PersistentMemory.TamperedWindowRejected | src/brickpico.c:79-95 | a change confined to four consecutive covered bytes, the id's included, always fails the check |
| PersistentMemory.TamperedFiveBytesExactly | src/brickpico.c:79-95 | a change of five bytes past the id passes the check exactly under that condition |
| PersistentMemory.TamperedFiveBytesAccepted | src/brickpico.c:79-95 | there always is one that passes it |
| Text.TokensOfJoin | src/util.c:449-471 | splitting undoes joining, for parts that are not empty and do not hold the delimiter |
| Text.TokensApart | src/util.c:449-471 | a delimiter anywhere, also next to another or at an end, parts the tokens before it from those after it |
| Text.FitIsLongest | src/util.c:305-318 | a buffer keeps the longest prefix that leaves room for the NUL |
| Text.CatenateFits | src/util.c:305-318 | appending to a cut text gives the cut of the whole text |
| Text.DecimalIsShortest | src/util.c:390-405 | a number is printed without a needless zero |
| Text.StrToIntOfDecimal | src/util.c:74-84 | a printed number, zero-padded or not, reads back as itself, or as the largest long beyond that |
| Text.TwoDigits | src/timer.c:164-171 | a minute or an hour is padded with one zero exactly if it has one digit |
| Text.StrToIntOfText | src/util.c:74-84 | what is read of blanks, a sign, digits and any more text: the number, cut to a long, or none without a digit |
| Text.StrToIntNotNegative | src/util.c:74-84 | without a minus sign no number read is negative |
| Bitmask.BitmaskToStr | src/util.c:359-424 | for every length, base and buffer size: NULL without a buffer, else the text of the mask's runs cut to the buffer; and exactly when the code shifts too far |
| Bitmask.StrToBitmask | src/util.c:435-478 | the parser's result for every string, length and base: a star sets the bits below `len`, and of a list a bit is set exactly when some item is its number or a range that ascends, ends below `len` and spans it; exactly when the code does what is not defined (with base 0 or 1 only for a star over 31 bits or more); no bit at or above `len` is ever set |
| Bitmask.RunsHoldBits | src/util.c:376-420 | the runs that are printed hold the set bits below `len` and no others |
| Bitmask.RunsAreMaximal | src/util.c:382-420 | printed with ranges no two runs touch, so none could be longer; without, every run is one bit; they ascend |
| Bitmask.MaskReadBack | src/util.c:359-478 | parsing the printed text of a mask gives back the mask, with ranges or without, base 0 or 1 |
| Bitmask.MaskTextFits | src/util.c:427-432 | for up to 30 bits that text fits the 96-byte buffer uncut |
| TimerText.TimerEventStr | src/timer.c:152-202 | the text is the five fields, a star for what is not set, and the name if there is one, a blank between them, cut to its buffer |
| TimerText.ParseTimerEventStr | src/timer.c:66-149 | for every string, into any event: exactly which tokens give result 1, 2, 4, 10 and 0, and with 0 every field of the event, the action by its first letters in any casing, the name as its words cut to 30 characters |
| TimerText.ReadActionExactly | src/timer.c:53-64 | a word is ON exactly if its first two letters are o and n, OFF exactly if its first three are o, f and f, each in either case, and else NONE |
| TimerText.ActionReadBack | src/timer.c:40-64 | action names read back as their actions |
| TimerText.ReadBackInAnyCase | src/timer.c:66-202 | the printed event with its action in any casing is read back as its normal form |
| TimerText.EventReadBack | src/timer.c:66-202 | printing a valid event and parsing it gives its normal form, whatever the event held before, and the text is never cut; without an action, error 4 |
| TimerText.NormalMatchesSame | src/timer.c:205-218 | the event read back matches exactly the same times; weekday mask 0 and all days are the same |
| TimerText.NormalIsSame | src/timer.c:66-202 | mask and name come back unchanged if and only if the mask is not empty and the name single-spaced |
| Bitmask.RangeToken | src/util.c:457-472 | what any range of numbers adds to what was read before it: all of it if it ascends and ends below `len`, else its first number alone |
| Bitmask.RangeRead | src/util.c:454-474 | the same for a range that is the whole text |
| Bitmask.RangeReadWhole | src/util.c:457-472 | both ends of a range and all between are read, whatever was read before, if and only if it does not descend and lies among the mask's numbers |
| TimerText.WeekendRangeIsSaturday | src/timer.c:111-114 | so the manual's weekday range 6-7 parses to day 6 alone, as does 6-0 |
| TimerScheduler.Scheduler.constructor | src/timer.c:222-236 | the static array starts as zeros |
| TimerScheduler.Scheduler.Handle | src/timer.c:220-269 | the result is the number of events that fire; `lastevent` becomes the time for those and no others; an output is 1 or 0 as the last event that fires and names it says ON or not, and stays as it was if there is none |
| TimerScheduler.Poll | src/timer.c:220-269 | any run of polls from a fresh scheduler: which events fire at each poll, the count each returns, and every output's power at the end, 1 exactly if the latest event that set it was ON, unchanged if none did |
| TimerScheduler.PowerIsLatest | src/timer.c:252-262 | that power is 1 if the latest event that fired and names the output, of one poll the last in the table, is ON, else 0 |
| TimerScheduler.PowerUnset | src/timer.c:252-262 | or what it was at the start if none did |
| TimerScheduler.LastIsRecent | src/timer.c:244-266 | a slot remembers nothing or an earlier matching poll, and one in the minute of the previous poll if that minute matches |
| TimerScheduler.FixedMinuteOncePerMinute | src/timer.c:205-266 | an event with a fixed minute fires on the first poll of each matching minute and on no other |
| TimerScheduler.ExactlyOnce | src/timer.c:205-266 | in each minute it fires once if the minute matches and is polled, otherwise never |
| TimerScheduler.OncePerMinuteExactly | src/timer.c:205-266 | for events with any valid fields, that holds on every clock if and only if the minute is fixed |
| TimerScheduler.FiresExactly | src/timer.c:205-250 | for every event and time, in local minute k of hour h of day d: it fires exactly if 60 s have passed, its minute is `*` or k, its hour `*` or h, and no weekday is set or day (d + 4) mod 7 is |
| TimerScheduler.FiresAtExactly | src/timer.c:205-266 | with a fixed minute it fires exactly on the first poll of a minute k that is its own, in its hour, on one of its days |
| TimerScheduler.OncePerMinuteOfItsOwn | src/timer.c:205-266 | and so once in such a minute if that is polled, and never in another |
| TimerScheduler.FiredInDay | src/timer.c:205-266 | over a local day of which every minute is polled it fires once with a fixed hour, 24 times with `*`, and not at all on a day that is not its own |
| Handover.NextKeeps | src/brickpico.c:257-262 | every step of either core keeps the invariant; publications are only added, and the one taken is never older |
| Handover.NeverTornNeverBack | src/brickpico.c:257-312 | in every interleaving core 1 works on one whole published state, and of two moments the later never has the older one |
| Handover.RefreshTakesNewest | src/brickpico.c:307-312 | a refresh ends with the newest publication, the one before it in `prev_state` |
| Handover.CanRefresh | src/brickpico.c:307-312 | wherever the mutex is free core 1 can refresh with nothing published meanwhile: it ends with the newest publication in `transfer_state` and its own state, its old state in `prev_state`, and the mutex given back |
| Handover.CanPublish | src/brickpico.c:257-262 | and core 0 can publish: the history grows by exactly its state, the mutex is given back |
| Handover.CanGiveBack | src/brickpico.c:257-312 | from every state of every run the core that holds the mutex can give it back by its own steps |
| Handover.AnyStateGetsAcross | src/brickpico.c:257-312 | every run can be carried on so that core 1 comes to have any state that core 0 may write |
| EffectTick.Outputs.constructor | src/brickpico.c:264-278 | the cache starts as zeros, the hardware as set-up left it |
| EffectTick.Outputs.SetPwmLightness | src/pwm.c:93-103 | one output shows the entry of the lightness, of 100 for anything above, and no other changes |
| EffectTick.Outputs.Tick | src/brickpico.c:330-343 | the cache holds the values of the tick, and exactly the outputs whose value changed are written |
| EffectTick.Run | src/brickpico.c:330-343 | after any run of ticks every output written so far shows the level of its last value; the others exactly if they showed the level of 0 |
| EffectTick.SetupAndRun | src/pwm.c:111-131 | with the table computed for a wrap value, every output written so far shows the largest level whose share of the wrap value is not above the CIE luminance of its last value, cut at 100 |
| Division.RampIsLinear | src/effects_fade.c:113-131 | the interpolated value is the straight line from 0 to the brightness over the ramp's length, rounded down |
| Fade.FadeContext.Effect | src/effects_fade.c:92-139 | the new context and the output of every call, in the range of a `uint8_t` |
| Fade.ContextTracks | src/effects_fade.c:92-139 | in every run the output is a closed form of the power and the time since the last switch alone, though the modes latch |
| Fade.Run | src/effects_fade.c:92-139 | any run of calls on a fresh context: 0 before the first switch-on; at a switch the start of the fade; within a fade the straight line, rounded down, between 0 and the brightness since the last switch; then its end value |
| Fade.StaysInRange | src/effects_fade.c:92-139 | the output never exceeds the brightness |
| Fade.MonotoneBetweenSwitches | src/effects_fade.c:92-139 | it never decreases after switch-on nor increases after switch-off |
| Fade.SettlesExactly | src/effects_fade.c:92-139 | it is exactly the brightness, or 0, from the first later call at or after the fade's length |
| Pulse.PhaseEnds | src/effects_pulse.c:73-78 | the loop computes the running sums of the four phase lengths |
| Pulse.EndsOrdered | src/effects_pulse.c:73-78 | phase ends never decrease, and the period is positive if and only if some phase is |
| Pulse.EffectPulse | src/effects_pulse.c:95-119 | 0 without power; else, by the time within the period, the straight line up, rounded down, the brightness, the line down, and 0; not defined exactly while powered with a period of zero |
| Pulse.Periodic | src/effects_pulse.c:95-119 | the powered output repeats with the last phase end |
| Pulse.RisesThenFalls | src/effects_pulse.c:95-119 | within a period it rises to the brightness, holds it, falls to 0 and stays |
| Pulse.RampsMirror | src/effects_pulse.c:95-119 | with ramps of one length, the same offset into both adds up to exactly the brightness |
| PwmDivider.ChooseDivider | src/pwm.c:149-163 | for every clock and frequency, divider and top fit their registers if and only if the clock is in a range given in the frequency; then the period is the longest that is no slower than the frequency asked for, or than 10 or 100000 Hz beyond those; a divider is used exactly when needed, and half of the counter's range is kept |
| PwmDivider.UsualClocksFit | src/pwm.c:149-163 | from 200 kHz to 334 MHz that is so for every configured frequency |
| PwmDivider.ThreeFloors | src/pwm.c:157-161 | the three truncating divisions round down once |
| PwmDivider.CountsPerDivider | src/pwm.c:158-161 | any counts divided by the divider chosen for them land in the upper half of the counter |
| Lightness.LightnessUndoesInverse | src/lightness.c:42-86 | lightness undoes its inverse exactly on 0 to 100, on both sides of the branch point, for every white |
| Lightness.LightnessDropsExactly | src/lightness.c:42-59 | above the branch point lightness is below its value there if and only if the ratio is below (23.9996248 / 116)^3 |
| Lightness.InverseUndoesLightnessExactly | src/lightness.c:42-86 | a luminance comes back if and only if its ratio to white is at most at the branch point or above that ratio |
| Lightness.GapIsNotEmpty | src/lightness.c:42-86 | a luminance in that gap, which comes back smaller |
| Lightness.InverseMonotone | src/lightness.c:70-86 | the inverse never goes down and stays between 0 and the white |
| Lightness.CalculatePwmLightness | src/pwm.c:111-131 | every entry is the largest level whose share of the wrap value is not above the CIE luminance of its lightness, also said in whole numbers; the table never goes down, from 0 at entry 0 to the wrap value at entry 100 |
| Lightness.NotBrighterExactly | src/pwm.c:111-131 | of all levels those up to entry i, and no others, have a `cie_1931_lightness` of at most i |
| Lightness.LightnessInRange | src/lightness.c:42-59 | lightness is 0 up to black, 100 from white on, and between them in between |
| PowI64.SquareFits | src/util.c:189-208 | the limit of the overflow check is the largest base whose square fits |
| PowI64.Compute | src/util.c:191-217 | the power is returned, with every product in range, if and only if it fits 64 bits; every other call ends as Outcome64 says |
| PowI64.LoopExactly | src/util.c:204-214 | the loop takes in as many bits of the exponent as the check leaves room for; the call is undefined exactly if the power by those bits does not fit, else it ends with it or at the check |
| PowI64.SquaringsLeast | src/util.c:206-208 | that room is the least number of squarings that takes the base beyond the check's limit |
| PowI64.FromTheLoop | src/util.c:193-217 | Outcome64, for every base and exponent, is how the loop ends |
| PowI64.UndefinedProducts | src/util.c:206-211 | two overflows the check does not see: (-2^32)^2 and 3^40 |
| PowI64.StoppedByTheCheck | src/util.c:206-208 | one that it does: 2^64 |
| I2cTemps.Reader.ReadTemps | src/i2c.c:125-207 | one call: its acts on the bus, the counters, the temperature, pressure, humidity and time stored for the sensor read if that succeeded and for no other, and a delay that is positive exactly while there is something to poll and covers every conversion started |
| I2cTemps.OneCycle | src/i2c.c:125-207 | between two conversion starts every active sensor is started, then read, once each and in order; no call in between starts anything |
| I2cTemps.CycleCalls | src/i2c.c:125-207 | a cycle takes at most active sensors + 2 calls |
| I2cTemps.EveryCycle | src/i2c.c:125-207 | the trace of a whole run is such cycles one after the other |
| I2cTemps.Poll | src/i2c.c:125-207 | any run of calls does on the bus what the trace says, and every delay is positive |
| I2cTemps.PollCycles | src/i2c.c:125-207 | so any number of cycles' calls does that many cycles on the bus |
| I2cTemps.ReadsAreTheActive | src/i2c.c:169-194 | the reads of a cycle are exactly the active sensors, each once, in ascending order |
| I2cTemps.StartsMirrorReads | src/i2c.c:146-160 | the starts of a cycle are of the same sensors in the same order |
| DhcpOptions.AddHook | src/network.c:374-413 | the options rewritten in place, byte for byte, and a length that grows by 2 for each option 55; what they then read as, 7 and 100 at the end of each 55 and all else as it was; nothing changes for other messages |
| DhcpOptions.DecodeEncode | src/network.c:397-411 | decoding an encoded option list gives the list |
| DhcpOptions.DecodeExactly | src/network.c:397-411 | bytes decode to a list of options exactly when they are its encoding |
| DhcpOptions.EncodedApart | src/network.c:397-411 | each option is its code, its length and its data, with nothing in between |
| DhcpOptions.RewrittenLength | src/network.c:397-412 | the rewritten options are longer by exactly 2 for each option 55 |
| DhcpOptions.RewrittenInWords | src/network.c:397-411 | option 55 gets 7 and 100 and a length two larger in eight bits, any other option is copied |
| DhcpOptions.RewrittenReads | src/network.c:397-412 | the rewritten bytes decode to the same options in order, option 55 extended by 7 and 100, if and only if no option 55 is longer than 253 bytes |

## Left out

- Ring: allocation in `u8_ringbuffer_init`, `u8_ringbuffer_free` and NULL arguments; buffers within 258 bytes of 2^32, where `size_t` sums wrap.
- Ring: the cell past the end that an unwrapped suffix is written to is one slack cell of the model; what the firmware keeps there is not modelled.
- RingBuffer.DumpLog: yields the records; that `printf` stops at their first NUL is not modelled, nor is the dump's own buffer (records fit it).
- Persistent block: field offsets and the blank block's contents are parameters; the saved time and the boot reasons are not modelled.
- Masks are sequences of 32 bits. A shift into the sign bit is taken to set it, as GCC defines; shifts past it, or by a negative number, are outcomes of their own.
- C library calls: `strtok_r` is splitting that skips empty tokens, `strtol` saturating decimal parsing, `snprintf` cutting to the buffer, `localtime_r` division of the seconds after a constant offset.
- Clocks that go back, daylight saving, and timer tables edited between polls: the debounce array is indexed by slot.
- Writers of the state other than core 0's main loop, such as network callbacks during a copy; configuration and effect contexts replaced while core 1 runs; the configuration's own copy, which is the same protocol.
- EffectTick.Run: effect values are arbitrary inputs; the effects are proved on their own.
- Effect arguments are durations in whole microseconds; the `float` arithmetic that makes them is not modelled. The blink effect is a simpler case of the pulse.
- Lightness: real arithmetic, without rounding; `cbrt(x)` is the c with c * c * c == x. The gamma curve, a real power, is not modelled.
- The PWM registers: the model ends at the two values written to them.
- I2cTemps: the configuration and the sensor contexts are fixed; what the sensors return is arbitrary.
- DhcpOptions.AddHook: requires room for what is added, which the code asserts for one option 55; pad and end options, which lwIP adds after the hook, are not in the list.
- Command handlers, configuration files, HTTP, MQTT, SSH, telnet, syslog, TLS, WiFi, flash, display and sensor drivers: plumbing over libraries that are not part of this model.
