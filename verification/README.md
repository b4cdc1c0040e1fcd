# Surfpool in Dafny

A Dafny 4.11 model of the parts of surfpool whose correctness can be stated without the Solana VM, the network or a
database, with proofs of what they promise. `dafny verify dfyconfig.toml` checks the whole project.

## The parts

- **Raw byte layouts** (`RawEncoding.dfy`, `Ranges.dfy`, `Layout.dfy`, `RawLayout.dfy`, `Materialize.dfy`,
  `RawBytes.dfy`). A template places named fields at byte offsets, and values from a map are written into a copy of
  account data. The validator and the writer are methods over an in-place array. They are proved against a meaning that
  mentions neither the order of the map nor the order the unstable sort gives ties: every named field *reads back* as
  the value given, every other byte is untouched. From that meaning follow independence of iteration order, composition
  over disjoint keys and idempotence. `RawBytes.dfy` says the same of single bytes, with every width, range and span
  written out.
- **PDA seeds** (`PdaSeeds.dfy`). Resolution through derived seeds of any depth depends on the value map only at the
  names the address reports, succeeds exactly when they can be read, and derives from the seeds' bytes in order.
- **Startup lifecycle** (`Startup.dfy`, `StartupRuns.dfy`, `StartupHistory.dfy`, `StartupWire.dfy`). The machine is a
  class whose one method follows a transition function. Each reachable state is proved to *remember* the exact history
  of accepted moves. That history alone tells the phase, what is accepted next and what clients are shown, and
  readiness, the bound on moves, the failure message and the wire codec's round trip follow from it. A status decodes
  to itself exactly when its task table is canonical, and every status that can be built is: tasks are private, and
  they come from sealing (`crates/types/src/startup.rs:433`), from a transition or from the sanitizing decoder (line
  414).
- **Synthetic blockhash** (`Numerals.dfy`, `Blockhash.dfy`). A 64-bit tip becomes a 43-character base-58 text and 32
  bytes. Every character of the text is fixed by the tip's hexadecimal places, and the tip can be read off the hash.
- **Time travel** (`EpochSchedule.dfy`, `TimeTravel.dfy`). The ways of naming a future moment agree, and each fixes the
  whole clock. The epoch schedule belongs to a foreign crate; it is defined here from its documented shape (doubling
  epochs from 32 slots, then a constant length) and its laws are proved.
- **FIFO map** (`FifoMap.dfy`) and **cheatcode table** (`Cheatcodes.dfy`). Classes specified by a transition function;
  the map is then described by its history of insertions and writes, the table by what each operation does to each
  method.
- **Loaded addresses** (`LoadedAddresses.dfy`), **CSV lines** (`Csv.dfy`), **config merge** (`ConfigMerge.dfy`) and the
  **scenario store** (`ScenarioStore.dfy`).

Calls into foreign code (pubkey parsing, program-address derivation, UTF-8, decoding of override instances) are
function parameters, and every result holds for any of them; where a law is needed (`ScenarioStore.Lawful`) it is a
precondition. A hash map's or JSON object's iteration order is a parameter listing the keys in any order. Error messages
are datatype constructors.

## What turned out false, and exactly when it holds

- *Enabling a cheatcode clears it.* Only if the method is listed once: `disable_all` copies repeats from its list of
  available methods, and a successful enable removes one entry. `Cheatcodes.EnableClears` is the exact condition,
  `RepeatSurvivesEnable` the input that shows it is needed, and `NoRepeatsInRuns` shows that repeat-free lists are
  enough. The failing input belongs to the function alone as far as the rest of the repository shows: the list comes
  from iterating the RPC handler's methods (`crates/core/src/runloops/mod.rs:1295-1298`), which appears to be keyed.
- *Config merge is associative.* For lists whose entries carry more than their key, exactly around middle lists with no
  repeated key (`ConfigMerge.AssociativeExactly`): `RepeatBreaks` builds the outer list that fails for any other middle
  list, and `RepeatBreaksAssociativity` is the smallest example. Clone entries are nothing but an address, so their
  lists merge associatively, repeats and all (`KeyOnlyAssociative`). A file is therefore associative with all files
  around it exactly when its lists that carry content repeat no key (`FileAssociativeExactly`). Whether a directory
  entry carries anything besides its directory is up to a foreign type, so it is a parameter of the result. The empty
  file is a right identity, but as a left operand it drops `extends` (`EmptyIdentity`).
- *Time travel never rewinds.* `AbsoluteSlotAt` sets the clock to the time it is given; `TimeTravel.NeverRewinds` says
  exactly when that is earlier, and `AbsoluteSlotAtRewinds` is an accepted request that goes back.
- `startup-lifecycle.md` speaks of a phase `initializing`; the code has `CloningRemoteAccounts` and `ExecutingRunbooks`
  instead, and the model follows the code.

## Model

| member | source | states |
|---|---|---|
| RawEncodings.ParseJsonExact | crates/types/src/scenarios.rs:1137-1161 | a JSON number or decimal string is accepted for an integer type exactly when the integer it spells is in range, and gives that integer, never a float's |
| RawEncodings.EncodeExact | crates/types/src/scenarios.rs:1134-1198 | encoding succeeds exactly on the values the field can hold; the result has the field's width and reads back, little-endian and two's complement, as the value given, a slot field as max(0, target + lead) |
| RawBytes.UnsignedEncodings | crates/types/src/scenarios.rs:1134-1198 | each unsigned encoding takes exactly the integers of its literal range and gives its literal number of bytes, byte k being the k-th lowest |
| RawBytes.SignedWordEncodings | crates/types/src/scenarios.rs:1134-1198 | the same for signed 32-bit values, strided ones included, in two's complement |
| RawBytes.SignedLongEncodings | crates/types/src/scenarios.rs:1134-1198 | the same for signed 64- and 128-bit values |
| RawBytes.SlotEncoding | crates/types/src/scenarios.rs:1179-1196 | a slot field is eight bytes of the target moved by the lead, refused exactly above a u64 and zero at least |
| RawBytes.TextLikeNumber | crates/types/src/scenarios.rs:1137-1161 | a decimal text with any whitespace around it is encoded as the number it spells |
| RawBytes.EncodeErrors | crates/types/src/scenarios.rs:1134-1198 | which values are refused with which reason |
| RawEncodings.ReadInjective | crates/types/src/scenarios.rs:1080-1107 | what a field's bytes mean determines the bytes |
| Text.DecimalRoundTrip | crates/types/src/scenarios.rs:1144-1160 | printing an integer and parsing it for a type gives it back exactly when it is in the type's range |
| Text.DenotedExactly | crates/types/src/scenarios.rs:1144-1160 | a text denotes exactly the integers it spells: an optional sign that the type reads, zeros, and the decimal digits |
| Text.TrimExact | crates/types/src/scenarios.rs:1153 | trimming removes all whitespace at both ends and nothing else |
| Text.SpaceCodes | crates/types/src/scenarios.rs:1153 | the code points trimming removes; no visible ASCII character is one |
| Text.DecimalSurvives | crates/types/src/scenarios.rs:1153 | a decimal text with any whitespace around it trims to itself |
| Text.HexDigitExact | crates/types/src/scenarios.rs:145-159 | the hexadecimal digits of both cases, at their values |
| Ranges.SortUnstableByStart | crates/types/src/scenarios.rs:1304-1306 | the result is sorted by start and a permutation of the input; nothing is promised about ties |
| Ranges.FirstMeeting | crates/types/src/scenarios.rs:1307-1316 | the scan finds a neighbouring pair that shares a byte exactly when there is one |
| Ranges.NeighbourCheckExact | crates/types/src/scenarios.rs:1304-1316 | for every sorted permutation of non-empty ranges, neighbours are apart if and only if all pairs are |
| Layouts.OccupiedExact | crates/types/src/scenarios.rs:1288-1302 | the flat list of ranges is pairwise apart if and only if all placements of all properties, steps of one strided property included, are |
| RawLayout.Place | crates/types/src/scenarios.rs:1288-1301 | pushing a property's placements succeeds exactly when each of them ends within the machine's address range |
| RawLayout.CheckNeighbours | crates/types/src/scenarios.rs:1304-1318 | the scan accepts exactly the layouts whose placements are apart; a reported overlap names two different placements that share a byte |
| RawLayout.ValidateRawLayout | crates/types/src/scenarios.rs:1203-1319 | accepts exactly the valid layouts, whatever order the sort gives ties; every error reports a fact about the template, and about the first property that has one |
| RawBytes.ValidExactly | crates/types/src/scenarios.rs:1203-1319 | a layout is valid if and only if its properties are sound, their paths distinct, and no byte of the account belongs to two of them, with every width written out |
| Materialize.WritePlacements | crates/types/src/scenarios.rs:1344-1372 | writes the bytes at every placement and nowhere else, or reports that one of them leaves the account; the overflow checks cannot fire after validation |
| Materialize.WriteEntry | crates/types/src/scenarios.rs:1332-1372 | one map entry is written so that it reads back, or refused for a reason that is true of it |
| Materialize.MaterializeRawLayout | crates/types/src/scenarios.rs:1322-1374 | for any walk over the map: success exactly when the layout is valid and every entry writable, the length kept, every placement of each named field reading back as the value given, every other byte as before |
| RawBytes.MaterializedByte | crates/types/src/scenarios.rs:1322-1374 | every byte of every copy of a written field, at its literal offset, is that byte of the value given |
| RawBytes.ChangedByte | crates/types/src/scenarios.rs:1322-1374 | a byte that changed lies in the literal span of some written field |
| Materialize.OrderIndependent | crates/types/src/scenarios.rs:1330-1373 | two walks over one map both succeed with the same bytes or both fail |
| Materialize.DisjointCompose | crates/types/src/scenarios.rs:1322-1374 | over disjoint keys, the materialization of the union succeeds exactly when the first map's and then the second's do, with the same bytes |
| Materialize.Idempotent | crates/types/src/scenarios.rs:1322-1374 | materializing the same values again changes nothing |
| Materialize.OnlyFieldsWritten | crates/types/src/scenarios.rs:1332-1342 | selectors, inputs and unknown names are refused; a written name is the path of exactly one placed field |
| PdaSeeds.CollectSeedReferences | crates/types/src/scenarios.rs:239-251 | the recursive collector pushes every name mentioned at any depth, in order |
| PdaSeeds.ResolveLocal | crates/types/src/scenarios.rs:113-216 | two value maps that agree on the reported names resolve an address alike |
| PdaSeeds.ResolveExactly | crates/types/src/scenarios.rs:113-216 | an address comes out if and only if every key text in it parses and, at any depth, every value it names can be read: as text or a u64, as a u16, or as 64 hexadecimal digits |
| PdaSeeds.ResolveNeedsNames | crates/types/src/scenarios.rs:191-236 | an address comes out only if every reported name has a value |
| PdaSeeds.DerivedInOrder | crates/types/src/scenarios.rs:191-216 | a derived address that comes out is the derivation of its seeds' bytes, one for each seed and in their order |
| PdaSeeds.NestedAlike | crates/types/src/scenarios.rs:160-181 | a nested derivation is the address it would be on its own |
| PdaSeeds.PlainSeeds | crates/types/src/scenarios.rs:113-120 | key texts are the keys they parse to; text and byte seeds are their bytes |
| PdaSeeds.PropertyRefMeaning | crates/types/src/scenarios.rs:121-135 | a reference to text is the key it parses to and its UTF-8 otherwise; to a number, its eight bytes, lowest first; to anything else, none |
| PdaSeeds.ReferencesExact | crates/types/src/scenarios.rs:224-251 | the reported names are exactly those some seed mentions, at any depth |
| PdaSeeds.ResolveSimpleIsConstant | crates/types/src/scenarios.rs:218-222 | what resolves without values reports no names and resolves alike under every map |
| PdaSeeds.InlinedResolvesAlone | crates/types/src/scenarios.rs:113-216 | replacing every reference by the bytes it stands for gives an address that needs no values and is the same account |
| PdaSeeds.U16RefMeaning | crates/types/src/scenarios.rs:136-144 | a u16 reference takes a number and its decimal text alike, refuses what is out of range, and gives the number's two bytes in the reverse of the little-endian seed's order |
| PdaSeeds.Bytes32RefMeaning | crates/types/src/scenarios.rs:145-159 | a 32-byte reference reads hexadecimal text with or without `0x`, and only 32 bytes of it |
| Startup.StartupMachine.Apply | crates/types/src/startup.rs:618-659 | an accepted move follows the transition function; a refusal leaves the status equal and carries the attempt and that status |
| Startup.StartupMachine.Start | crates/types/src/startup.rs:513-525 | starting follows the transition function or changes nothing |
| Startup.StartupMachine.Complete | crates/types/src/startup.rs:530-542 | completing follows the transition function or changes nothing |
| Startup.StartupMachine.Fail | crates/types/src/startup.rs:548-564 | failing follows the transition function or changes nothing |
| Startup.SealTasks | crates/types/src/startup.rs:431-444 | sealing keeps one pending entry for each distinct task, in order of first mention |
| StartupHistory.SealOrder | crates/types/src/startup.rs:431-444 | the sealed table is in order of first mention |
| StartupHistory.AcceptedExactly | crates/types/src/startup.rs:513-564 | in every run the next attempt is accepted if and only if the rules of the lifecycle, said of the moves accepted so far, allow it |
| StartupHistory.PhaseTold | crates/types/src/startup.rs:457-481 | in every run each of the five phases holds if and only if the accepted moves say so: cloning until the remote accounts are complete, executing while another task is not |
| StartupRuns.RunRemembers | crates/types/src/startup.rs:513-564 | every reachable state records exactly the accepted moves: one seal, then per task the moves its entry's state stands for |
| StartupRuns.ReadyIffCompleted | crates/types/src/startup.rs:460-481 | a run is ready if and only if its accepted moves are one seal followed, for each sealed task, by one start and later one complete, and nothing else |
| StartupRuns.ReachableCanonical | crates/types/src/startup.rs:431-444 | in every reachable table kinds are distinct and exactly the failed entries carry an error |
| StartupRuns.CanonicalKept | crates/types/src/startup.rs:618-659 | every transition keeps a table canonical, decoded ones included |
| StartupRuns.RefusalNamed | crates/types/src/startup.rs:219-273 | no refusal reaches an `unreachable!` arm, and the name it gets, the phase it carries included, is true of the state it was refused from |
| StartupRuns.TerminalStuck | crates/types/src/startup.rs:499-504 | from a ready or failed state nothing is accepted, now or later |
| StartupRuns.TerminalNameExact | crates/types/src/startup.rs:211-226 | a refusal is named `AlreadyTerminal` exactly when no sequence of attempts will ever have one accepted |
| StartupRuns.AcceptedDecreases | crates/types/src/startup.rs:618-659 | every accepted transition decreases a natural-number measure |
| StartupRuns.RunBound | crates/types/src/startup.rs:618-659 | a run accepts at most one transition plus two per distinct task, a ready run exactly that many |
| StartupRuns.PhaseForward | crates/types/src/startup.rs:457-481 | along every run the phase never moves backwards, and Ready or Failed is for good |
| StartupRuns.FailureTold | crates/types/src/startup.rs:483-495 | in every run the phase is Failed exactly when there is an error; it is the only message and the reason an accepted failure gave |
| StartupRuns.ReadinessLoop | crates/types/src/startup.rs:30-71 | with complete runbook entries, a client waiting for every execution waits exactly while startup is non-terminal, and never has to wait again afterwards |
| StartupHistory.ShownExecutions | crates/types/src/startup.rs:30-71 | in every run startup is shown as nothing once complete, as one completed execution with the one reason once failed, and as one incomplete execution otherwise |
| StartupWire.DecodeStatus | crates/types/src/startup.rs:377-416 | the two editing passes keep the first entry of each kind and sanitize each entry |
| StartupWire.RoundTrip | crates/types/src/startup.rs:365-416 | decoding the encoded status gives it back if and only if its table is canonical |
| StartupWire.RoundTripReachable | crates/types/src/startup.rs:365-416 | every reachable status survives encoding and decoding |
| StartupWire.DecodeStable | crates/types/src/startup.rs:377-416 | for arbitrary input, decode-encode-decode equals decode and the result is canonical |
| StartupWire.ReadyOnlyIfEarned | crates/types/src/startup.rs:342-356 | the result is ready if and only if the plan is sealed, the first entry of every kind succeeded and no top-level error came along |
| StartupWire.DecodeRefusals | crates/types/src/startup.rs:402-414 | input is refused exactly when a sealed status carries an error but no kind's first entry failed |
| StartupWire.EncodedFields | crates/types/src/startup.rs:365-375 | in every run the phase, the sealed flag, the table and the error that are sent are those the accepted moves stand for |
| StartupWire.DecodedInOrder | crates/types/src/startup.rs:383-404 | a sealed status decodes to the first entry of each kind in order, its reason kept, supplied or dropped as its state demands |
| StartupWire.DecodedComplete | crates/types/src/startup.rs:377-404 | no kind is lost; an unsealed status is a planning failure if it has an error and planning otherwise |
| Blockhash.TargetShape | crates/core/src/types.rs:1733-1744 | for every tip the text has 43 characters of the base-58 alphabet, the padding length does not underflow |
| Blockhash.TextAt | crates/core/src/types.rs:1733-1744 | each character of the text: the prefix, then the tip's hexadecimal digits, `x` for every zero |
| Blockhash.Alphabet | crates/core/src/types.rs:1746-1760 | the 58 digits, in order |
| Blockhash.HashIsNumeral | crates/core/src/types.rs:1746-1754 | the text always decodes, so the fallback is never taken, and to exactly 32 bytes |
| Blockhash.Base58RoundTrip | crates/core/src/types.rs:1746-1760 | every base-58 text, leading ones included, is what encoding its decoded bytes gives |
| Blockhash.BytesRoundTrip | crates/core/src/types.rs:1746-1760 | every byte string is what decoding its base-58 text gives |
| Blockhash.HashShowsText | crates/core/src/types.rs:1758-1760 | the hash prints as the readable text itself |
| Blockhash.TextTellsTip | crates/core/src/types.rs:1736-1744 | the tip can be read back off the text, although zero and padding share a character |
| Blockhash.DistinctTips | crates/core/src/types.rs:1733-1755 | distinct tips have distinct texts and distinct hashes |
| Blockhash.NewSyntheticBlockhash | crates/core/src/types.rs:1733-1755 | the copied 32 bytes are the whole decoded text |
| EpochSchedules.FirstSlotStep | crates/core/src/helpers/time_travel.rs:584-586 | every epoch begins where the one before ends, doubling or not |
| EpochSchedules.EpochLengths | crates/core/src/helpers/time_travel.rs:584-615 | epochs start at slot 0, double from 32 slots while warming up, and have their full length afterwards |
| EpochSchedules.EpochUnique | crates/core/src/helpers/time_travel.rs:16 | a slot's epoch is the only one that holds it |
| EpochSchedules.EpochMonotone | crates/core/src/helpers/time_travel.rs:16 | later slots have epochs no earlier |
| EpochSchedules.EpochOfFirstSlot | crates/core/src/helpers/time_travel.rs:156-158 | an epoch's first slot is in that epoch |
| EpochSchedules.LeaderScheduleNext | crates/core/src/helpers/time_travel.rs:25 | with an offset of one epoch the leader schedule is for the next epoch |
| EpochSchedules.LeaderScheduleAhead | crates/core/src/helpers/time_travel.rs:25 | for any offset: the next epoch while warming up, later the one that many slots ahead |
| EpochSchedules.WarmupShape | crates/core/src/helpers/time_travel.rs:584-615 | warm-up starts with epochs of 32, 64 and 128 slots, so epoch 3 starts at slot 224 and slot 100 is in epoch 2 |
| TimeTravel.SlotAgreesWithTimestamp | crates/core/src/helpers/time_travel.rs:48-124 | travelling to a slot is travelling to the time extrapolated for it |
| TimeTravel.EpochAgreesWithSlot | crates/core/src/helpers/time_travel.rs:96-172 | travelling to an epoch is travelling to the later of its first slot and the current one |
| TimeTravel.TimestampRoundTrip | crates/core/src/helpers/time_travel.rs:48-124 | from a time to its slot and back loses less than one slot time |
| TimeTravel.TimestampTravel | crates/core/src/helpers/time_travel.rs:48-82 | what travel to a time refuses and why, and the whole clock otherwise: the last slot begun by then, the time in seconds rounded down |
| TimeTravel.SlotTravel | crates/core/src/helpers/time_travel.rs:96-124 | what travel to a slot refuses, and the whole clock otherwise, the time saturating |
| TimeTravel.SlotAtTravel | crates/core/src/helpers/time_travel.rs:204-222 | the same for a slot at a given time |
| TimeTravel.EpochTravel | crates/core/src/helpers/time_travel.rs:139-172 | the same for an epoch |
| TimeTravel.KeptClock | crates/core/src/helpers/time_travel.rs:10-28 | over any visits the clock has the last visit's slot and time, the epoch that holds it and the next epoch's leader schedule |
| TimeTravel.NeverRewinds | crates/core/src/helpers/time_travel.rs:186-232 | no form rewinds the slot; time goes back only when `AbsoluteSlotAt` names an earlier second |
| TimeTravel.EpochTravelLands | crates/core/src/helpers/time_travel.rs:139-172 | the clock lands in the epoch asked for if and only if the chain is not past it |
| TimeTravel.EpochStartKept | crates/core/src/helpers/time_travel.rs:10-28 | over any slots in order, the clock's epoch start is the time of the first visited slot of its epoch |
| FifoMaps.FifoMap.Insert | crates/types/src/types.rs:1508-1523 | returns the replaced value and the evicted key, and keeps the map valid, whatever capacity the backing map reports |
| FifoMaps.FifoMap.Update | crates/types/src/types.rs:1529-1531 | a write through `get_mut` changes the value of a present key only |
| FifoMaps.FifoMap.Remove | crates/types/src/types.rs:1538-1540 | returns the removed value and closes the gap |
| FifoMaps.FifoMap.Clear | crates/types/src/types.rs:1496-1498 | leaves the map empty |
| FifoMaps.ApplyMeaning | crates/types/src/types.rs:1496-1540 | which keys each operation leaves in the map, and that it changes no value but the one it writes |
| FifoMaps.RunKeeps | crates/types/src/types.rs:1508-1523 | over any run and any reported capacities, keys are distinct and each has a value |
| FifoMaps.LengthBound | crates/types/src/types.rs:1508-1523 | if the reported capacity never exceeds a limit nor undercounts the keys held, the map never outgrows the limit, except that it takes one key at a limit of zero |
| FifoMaps.FixedCapacity | crates/types/src/types.rs:1508-1523 | a constant positive capacity bounds the map over every run |
| FifoMaps.PresentWasBorn | crates/types/src/types.rs:1508-1523 | a key in the map was born by a fresh insertion at the recorded time |
| FifoMaps.IterationIsBirthOrder | crates/types/src/types.rs:1542-1546 | over any run iteration is in order of fresh insertion; updates never move a key |
| FifoMaps.EvictionIsOldest | crates/types/src/types.rs:1513-1520 | a key is evicted exactly when a fresh one meets a full, non-empty map, and it is the one inserted longest ago |
| FifoMaps.GetIsLastWrite | crates/types/src/types.rs:1525-1527 | over any run, reading a key gives the last value written under it |
| Cheatcodes.CheatcodeConfig.LockMethods | crates/types/src/types.rs:2005-2019 | the loop locks each name in place or appends it locked |
| Cheatcodes.CheatcodeConfig.DisableAll | crates/types/src/types.rs:2044-2070 | the table is relisted and every lock outside the list survives |
| Cheatcodes.CheatcodeConfig.Disable | crates/types/src/types.rs:2072-2090 | appends an unlocked entry, or refuses and changes nothing |
| Cheatcodes.CheatcodeConfig.EnableAll | crates/types/src/types.rs:2032-2038 | keeps the locked entries only, or refuses and changes nothing |
| Cheatcodes.CheatcodeConfig.Enable | crates/types/src/types.rs:2092-2106 | removes the first entry of an unlocked method, or refuses and changes nothing |
| Cheatcodes.OperationMeaning | crates/types/src/types.rs:1999-2106 | for every operation and every method: whether the method is disabled and locked afterwards, in terms of before |
| Cheatcodes.AcceptedExactly | crates/types/src/types.rs:2032-2106 | when each operation is accepted, in terms of lockout and of what is disabled and locked |
| Cheatcodes.TableOrder | crates/types/src/types.rs:2005-2106 | where new methods go and what moves |
| Cheatcodes.DisableEnable | crates/types/src/types.rs:2072-2106 | enabling what was just disabled gives the table back |
| Cheatcodes.LockedForever | crates/types/src/types.rs:2005-2106 | whatever operations follow, a locked method stays locked and disabled |
| Cheatcodes.ReversibleUntilLockout | crates/types/src/types.rs:2072-2078 | in every run, while `lockout` is false nothing is locked and neither control method is disabled |
| Cheatcodes.NoRepeatsInRuns | crates/types/src/types.rs:2044-2070 | with repeat-free lists of available methods no method is ever listed twice |
| Cheatcodes.EnableClears | crates/types/src/types.rs:2092-2106 | a successful enable clears the method if and only if it was listed once, and touches no other |
| Cheatcodes.RepeatSurvivesEnable | crates/types/src/types.rs:2044-2062 | a repeated available method stays disabled after a successful enable |
| LoadedAddresses.TransactionLoadedAddresses.Insert | crates/core/src/types.rs:1655-1667 | a known table keeps its place, a new one goes last |
| LoadedAddresses.InsertedExact | crates/core/src/types.rs:1655-1667 | inserting writes one table, at its old place or last, and moves no other |
| LoadedAddresses.TransactionLoadedAddresses.FilterFromMembers | crates/core/src/types.rs:1627-1653 | builds a new map of the filtered tables without the emptied ones |
| LoadedAddresses.TransactionLoadedAddresses.LoadedAddressLists | crates/core/src/types.rs:1669-1676 | the two flattened address lists |
| LoadedAddresses.TransactionLoadedAddresses.AllLoadedAddresses | crates/core/src/types.rs:1678-1689 | every writable address, then every read-only one |
| LoadedAddresses.FilterFlatten | crates/core/src/types.rs:1628-1676 | filtering by membership then flattening is flattening then filtering, and a dropped table adds nothing |
| LoadedAddresses.FilterKeepsSurvivors | crates/core/src/types.rs:1648-1650 | the tables left are those with an address left, in their old order |
| LoadedAddresses.KeptPositions | crates/core/src/types.rs:1635-1646 | a filter keeps the members' index-address pairs, in their order, and no others |
| LoadedAddresses.FilteredPositions | crates/core/src/types.rs:1628-1653 | a filtered map has each surviving table in order, with the kept part of both lists |
| LoadedAddresses.LookupAt | crates/core/src/types.rs:1695-1712 | each table becomes one lookup at its place, under its key, with its indexes in order |
| LoadedAddresses.LookupsAligned | crates/core/src/types.rs:1669-1726 | concatenated lookup indexes and flattened addresses are the two halves of one list of pairs, of the reported length |
| Csv.ParseCsvLine | crates/types/src/verified_tokens.rs:20-46 | the loop with one character of lookahead computes the parse |
| Csv.WriteParse | crates/types/src/verified_tokens.rs:20-46 | any way to write the fields that conforms to section 2 of RFC 4180 parses back to each of them, trimmed |
| Csv.ParseWriteParse | crates/types/src/verified_tokens.rs:15-46 | parsing, writing and parsing again gives the first result |
| Csv.FieldCount | crates/types/src/verified_tokens.rs:20-46 | the number of fields is one plus the commas with an even number of quotes before them |
| Csv.ParsedField | crates/types/src/verified_tokens.rs:20-46 | for every line, conforming or not: each field is the kept characters between the commas outside quotes, trimmed |
| ConfigMerge.MergeInto | crates/cli/src/scaffold/anchor.rs:555-572 | the loop overwrites in place by key or pushes |
| ConfigMerge.ValidatorConfig.Merge | crates/cli/src/scaffold/anchor.rs:553-611 | merges the three lists and nothing else |
| ConfigMerge.TestTomlFile.Merge | crates/cli/src/scaffold/anchor.rs:308-366 | merges scripts and test section, keeping `extends` |
| ConfigMerge.MergeKeys | crates/cli/src/scaffold/anchor.rs:555-572 | the merged list has the keys of both, without repeats if the left list has none |
| ConfigMerge.MergeOrder | crates/cli/src/scaffold/anchor.rs:555-572 | for any two lists, the left order is kept and the right list's new keys follow, each once, in the order of their first entries |
| ConfigMerge.MergeLookup | crates/cli/src/scaffold/anchor.rs:555-572 | for any two lists and every key, the right list's last entry wins where it has one |
| ConfigMerge.AssociativeExactly | crates/cli/src/scaffold/anchor.rs:555-572 | for lists whose entries carry more than their key: the two groupings agree around a middle list, for all outer lists, if and only if it has no repeated key |
| ConfigMerge.KeyOnlyAssociative | crates/cli/src/scaffold/anchor.rs:591-608 | lists of entries that are only their key, as clones are, merge associatively whatever they repeat |
| ConfigMerge.MergeKeepsUnique | crates/cli/src/scaffold/anchor.rs:308-366 | merging files keeps their lists free of repeated keys |
| ConfigMerge.FileAssociativeExactly | crates/cli/src/scaffold/anchor.rs:308-366 | whole files: associative around a middle file, for all outer files, if and only if none of its lists that carry content repeats a key; clones never count, directories when their foreign type holds nothing else do not either |
| ConfigMerge.EmptyIdentity | crates/cli/src/scaffold/anchor.rs:266-278 | the empty file is an identity, except that `extends` is always the left file's |
| ConfigMerge.FoldResolves | crates/cli/src/scaffold/anchor.rs:271-278 | for any files, the left-to-right fold resolves every key of every list and every script from the file that last defines it: the first file to bring a list is taken as it is, and in a later one the last entry for the key wins |
| ConfigMerge.FoldIsLastDefiner | crates/cli/src/scaffold/anchor.rs:271-278 | when no file repeats a key, the fold is the last definer's one entry for every key, and repeats none |
| ScenarioStore.MergeScenarioPatch | crates/cli/src/http/mod.rs:262-285 | inserting the patch's fields in any order gives one outcome; a named unknown field is one |
| ScenarioStore.StrictExact | crates/cli/src/http/mod.rs:301-332 | strict decoding accepts exactly the objects with the five fields, no other, each understood without loss, and takes every field of the scenario from the object |
| ScenarioStore.LossExactly | crates/cli/src/http/mod.rs:308-332 | the check fails if and only if some path leads to a field that was supplied and is missing from what was understood |
| ScenarioStore.BodyExactly | crates/cli/src/http/mod.rs:179-189 | a posted body is read as a scenario exactly when it has its five fields, by name or in order |
| ScenarioStore.MergePatchExact | crates/cli/src/http/mod.rs:262-306 | a patch of a stored scenario is accepted exactly when it is valid, and changes the named fields and no others, the id staying the path's |
| ScenarioStore.FullPatchExact | crates/cli/src/http/mod.rs:287-306 | a patch for an unknown id creates a scenario exactly when it is a complete and sound document, and then the one it describes, under the path's id |
| ScenarioStore.PatchesCommute | crates/cli/src/http/mod.rs:262-285 | valid partial patches on disjoint fields commute |
| ScenarioStore.PatchIdempotent | crates/cli/src/http/mod.rs:262-285 | sending a patch twice is sending it once |
| ScenarioStore.LoadedScenarios.PostScenario | crates/cli/src/http/mod.rs:179-224 | posting a JSON body follows the request function |
| ScenarioStore.LoadedScenarios.PatchScenario | crates/cli/src/http/mod.rs:341-378 | patching follows the request function for any order of the patch's fields |
| ScenarioStore.LoadedScenarios.DeleteScenario | crates/cli/src/http/mod.rs:241-260 | deleting follows the request function |
| ScenarioStore.RequestMeaning | crates/cli/src/http/mod.rs:179-378 | what each request answers and what is then stored under the id it is about; a posted body that cannot be read is refused |
| ScenarioStore.RequestOrder | crates/cli/src/http/mod.rs:179-378 | new scenarios go last, changed ones stay in place, a deleted one leaves a gap that closes |
| ScenarioStore.RefusalChangesNothing | crates/cli/src/http/mod.rs:179-378 | a refused request changes nothing |
| ScenarioStore.RequestKeepsIds | crates/cli/src/http/mod.rs:179-378 | every request keeps ids unique and touches no scenario with another id |
| ScenarioStore.RepostAccepted | crates/cli/src/http/mod.rs:179-224 | posting a stored scenario as it is listed is accepted and changes nothing |
| ScenarioStore.StoreInvariant | crates/cli/src/http/mod.rs:179-378 | over every run of requests, whatever bodies they carry, ids stay unique and what is stored is in decoded form |

## Left out

- Materialize.OrderIndependent: two failing walks may report different errors, because the first refused entry depends on the order of the map.
- RawLayout.ValidateRawLayout: which of several clashing pairs an overlap error names is left open, as the unstable sort leaves it.
- TimeTravel.EpochAgreesWithSlot: the unchecked u64 arithmetic of the epoch form is a precondition; so is the slot sum of the timestamp form.
- EpochSchedules.EpochUnique: the schedule is defined over unbounded naturals; the foreign crate's saturating arithmetic near 2^64 is not modelled.
- Blockhash.NewSyntheticBlockhash: base-58 decoding and encoding are defined by value, not by the foreign crate's carry loop.
- PdaSeeds.ResolveLocal: address derivation is any function; that the foreign one panics on too many or too long seeds is not modelled.
- FifoMaps.FifoMap.Insert: the backing map's growth policy is foreign; the capacity it reports at the call is a parameter.
- StartupWire.DecodeStatus: JSON parsing of the wire object, with its defaults for missing fields, happens before the model starts.
- ScenarioStore.LoadedScenarios.PostScenario: the body is JSON already parsed, so text that repeats an object key is not modelled.
- ScenarioStore.MergePatchExact: the derived decoder of override instances is a parameter that must decode its own output to itself; JSON paths in messages are dropped.
- ConfigMerge.FileAssociativeExactly: what a directory entry holds besides its directory belongs to a foreign crate; the result covers both answers.
- ConfigMerge.FoldIsLastDefiner: reading files, nested `extends` and making paths absolute after a merge are left out; the fold is over the files already read.
- Error texts: each is a datatype constructor carrying the names the message shows.
- Locks, HTTP routing and status numbers around the scenario store and the cheatcode table.
- Transactions, accounts, RPC handlers, remote clients, storage backends and Geyser plugins: input and output, or code of foreign libraries.
- Terminal UI, command line, runbook execution, telemetry, Node bindings and build scripts.
- Feature flags, account snapshots and the template registry: field access and map lookups with no invariant across calls.
- IDL path resolution: it walks type definitions owned by the foreign IDL crate.
