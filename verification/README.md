# Verification of the market-data runtime

A Dafny model of the data structures and protocols under `mht/include`: the tables, rings, queues, parsers and codecs
through which market data passes.  Each module follows one component, in the form the component has: classes over
arrays where the source updates buffers in place, state machines of atomic steps where threads or processes share
memory, functions where it computes.  Methods are proved against specification functions, and the laws of each
component are proved about those.

| module | component | main result |
|---|---|---|
| `FlatHashMap` | Robin Hood hash table | any run of operations equals a finite map, through broken-off displacement chains and growth |
| `RingProtocol`, `RingBuffer` | multi-producer ring and message queue | in every interleaving tickets are published in order and read back as the pushed history |
| `ShmQueueProtocol`, `RecordRingProtocol`, `SlotRing` | shared-memory queue and per-instrument record ring | which copies are whole in every interleaving, and runs that show the bounds are needed |
| `MdRing` | time-range search over a wrapped ring | the binary searches equal a linear filter |
| `JsonReader`, `JsonGrammar` | recursive and table-driven JSON parsers | the two parsers agree on every token sequence; both accept exactly the grammar |
| `JsonDocument`, `JsonEquality`, `JsonHasher` | DOM handlers, `operator==`, schema hasher | events rebuild values; equality is equality of denoted maps; equal values have equal codes |
| `JsonNumbers`, `CsvIntegers`, `Decimal` | integer parsing | exact value or the overflow path, exactly when it does not fit |
| `CsvLineReader`, `CsvColumns` | CSV reader | the block buffer with its worker thread splits the text into its lines; quoting round trips in place |
| `PoolAllocator` | memory pool | blocks stay disjoint and contents are kept over any run |
| `Utf` | UTF-8 and UTF-16 codecs | exactly the characters of the standards; transcoding and back is the identity |
| `JsonPointer`, `JsonPointerFragment`, `JsonPointerTree` | JSON Pointer | both textual forms round trip; a fragment means its decoded text exactly if it encodes no slash; creation agrees with resolution |
| `Calendar` | packed timestamps | order and day steps are kept, offsets add up |
| `BitTricks`, `Powers`, `Modular`, `Slices`, `Wrappers` | shared arithmetic and helpers | |

Properties that turned out not to hold of the code have a member that shows it: a late reader of the shared-memory
queue (`LatePopIsTorn`) and of the record ring (`OneMoreIsTooLate`), more producers than slots
(`TooManyProducersLoseAPush`), a search shortcut out of reach, equal times and an empty ring (`ShortcutOneTooFarMisses`,
`TiesAreMissed`, `EmptyRingAnswers`), times reported in 32 bits (`ReportedTimesAreCut`, `PackedTimesAreNotReported`),
capacities above 2^30 (`CapacityIsAccepted`), `-1` equal to 2^64 - 1 and duplicate member names in `operator==`
(`NegativeEqualsHugeUnsigned`, `EqualNumbersHashApart`, `DuplicateNamesBreakEquality` and `FirstsEqual`, against the
comment at `mht/include/rapidjson/document.h:961`), percent-encoded slashes, large numerals and the appending dash in
JSON Pointers (`FragmentMeansDecodedText`, `IndexIsExact` and `LargeNumeralWraps`, `DashIsNotFoundAgain`).  Where the
code does meet the property is stated beside it for all inputs: `SafeExactlyForFewProducers`, `GetMdWithTies`,
`GetMdIsFilter`, `ReportedTimesAreCut`, `CapacityIsAccepted`, `EqualIsSameMeaning`, `EqualValuesHashEqual`,
`IndexIsExact`, `ResolvesExactlyWithoutDash`.

`dafny verify dfyconfig.toml` checks the whole project.

## Model

| member | source | states |
|---|---|---|
| FlatHashMap.FibonacciInRange | mht/include/flat_hash_map.hpp:1272-1275 | multiplying by the golden-ratio constant modulo 2^64 and shifting by 64 - k gives a slot below 2^k, for every hash |
| FlatHashMap.NextSizeIsRounded | mht/include/flat_hash_map.hpp:1281-1285 | the table size is the bit-smearing `next_power_of_two`, but at least 2; above 2^63 the rounding wraps and 2 is left |
| FlatHashMap.NextSizeIsPower | mht/include/flat_hash_map.hpp:1281-1285 | every table size is a power of two between 2 and 2^63, so that the shift is its exact logarithm |
| FlatHashMap.RunsBack | mht/include/flat_hash_map.hpp:541-551 | walking back from an entry the distances fall by at most one a slot: the property every probe relies on |
| FlatHashMap.ProbeStaysInside | mht/include/flat_hash_map.hpp:545-549 | a probe that goes on stands on a held slot before the end sentinel |
| FlatHashMap.StoredKeyIsOnProbePath | mht/include/flat_hash_map.hpp:541-551 | no slot between the home of a stored key and its slot stops the probe |
| FlatHashMap.TakeSlot | mht/include/flat_hash_map.hpp:834-839 | placing an entry over a vacant slot or one nearer to its home keeps the whole-table invariant |
| FlatHashMap.SwapStored | mht/include/flat_hash_map.hpp:841-858 | swapping the entry in hand into a held slot leaves exactly the other entry in hand, none lost or doubled |
| FlatHashMap.CloseGap | mht/include/flat_hash_map.hpp:676-681 | moving an entry back into the gap moves the gap one slot on and keeps the distance order outside it |
| FlatHashMap.OpenGap | mht/include/flat_hash_map.hpp:689-696 | vacating a stretch of slots leaves a table that is ordered except at the end of the gap |
| FlatHashMap.Table.constructor | mht/include/flat_hash_map.hpp:795-798 | a new table is valid and empty |
| FlatHashMap.Table.Probe | mht/include/flat_hash_map.hpp:577-589 | finds the key exactly if it is in the map; otherwise ends at the first slot nearer to its home, within the lookup limit and never past the sentinel |
| FlatHashMap.Table.Find | mht/include/flat_hash_map.hpp:541-551 | the entry of a key in the map, the end position for every other key |
| FlatHashMap.Table.Emplace | mht/include/flat_hash_map.hpp:577-589 | inserts a new key and leaves a present one alone, for any hash function and through any number of growths; it fails only for a new key when doubling the table exceeds the allocator |
| FlatHashMap.Table.TableIsSparse | mht/include/flat_hash_map.hpp:799-803 | at most half the buckets are used, and every stored key is less than max(4, log2 of the bucket count) slots behind its home |
| FlatHashMap.Table.EmplaceNewKey | mht/include/flat_hash_map.hpp:826-869 | the map gains exactly the new key, whether the slot was vacant, the chain found a place, or the chain hit the lookup limit and the table grew |
| FlatHashMap.Table.Displace | mht/include/flat_hash_map.hpp:841-868 | either the chain ends with every key stored and ordered, or the evicted value is put back and the table holds exactly the old map, out of order, ready to grow |
| FlatHashMap.Table.Chain | mht/include/flat_hash_map.hpp:845-868 | at every step all keys but the one in hand are stored once; a chain that stops hands back the last evicted entry with its value |
| FlatHashMap.Table.PutBack | mht/include/flat_hash_map.hpp:860-867 | after a broken chain the last evicted entry replaces the new one, and exactly the old pairs are stored |
| FlatHashMap.Table.Grow | mht/include/flat_hash_map.hpp:871-874 | growing restores the order of a table left by a broken-off chain, keeps the map and raises the bucket count |
| FlatHashMap.Table.Rehash | mht/include/flat_hash_map.hpp:626-659 | moving every entry to new buckets keeps the map, also when the refill grows the table again in between |
| FlatHashMap.Table.MoveIn | mht/include/flat_hash_map.hpp:648-656 | the refill loop ends with exactly the old pairs |
| FlatHashMap.Table.EraseAt | mht/include/flat_hash_map.hpp:672-683 | removes exactly the key of the slot and keeps the invariant by shifting back the run behind it |
| FlatHashMap.Table.EraseRange | mht/include/flat_hash_map.hpp:685-710 | removes exactly the keys in the range; the returned position holds the entry that was at the end of the range |
| FlatHashMap.Table.FillGap | mht/include/flat_hash_map.hpp:697-710 | the entries behind an emptied range move back until the whole table is ordered again |
| FlatHashMap.Table.DestroyRange | mht/include/flat_hash_map.hpp:689-696 | the first loop vacates exactly the range and removes its keys |
| FlatHashMap.Table.ShiftBack | mht/include/flat_hash_map.hpp:676-709 | behind a gap of any width the loop restores the whole-table order without losing an entry |
| FlatHashMap.Table.ShiftOne | mht/include/flat_hash_map.hpp:700-707 | one entry moves as far towards its home as the gap reaches; all other slots stay |
| FlatHashMap.Table.EraseKey | mht/include/flat_hash_map.hpp:712-722 | removes the key if present and counts it |
| FlatHashMap.Table.ClearAll | mht/include/flat_hash_map.hpp:724-734 | empties the table |
| FlatHashMap.Table.Run | mht/include/flat_hash_map.hpp:541-734 | any run of emplace, erase by key, erase by range, rehash and clear leaves the table equal to the finite map the run describes; without explicit rehash it fails only when doubling exceeds the allocator |
| FlatHashMap.Table.Do | mht/include/flat_hash_map.hpp:541-734 | one operation has its effect on the finite map: a range erasure removes exactly the keys that its slots hold |
| BitTricks.SmearDoubles | mht/include/flat_hash_map.hpp:255-266 | or-ing a number with itself shifted doubles the run of ones below its highest bit |
| BitTricks.NextPowerOfTwoIs | mht/include/flat_hash_map.hpp:255-266 | the least power of two not below the argument, for arguments from 1 to 2^63 |
| BitTricks.NextPowerOfTwoWraps | mht/include/flat_hash_map.hpp:255-266 | above 2^63 the result wraps to 0 |
| BitTricks.GetNextPowerOf2Is | mht/include/RT_ShmQueue.h:182-190 | the least power of two not below the argument, whether or not it is one already |
| BitTricks.ValidateCapacityIs | mht/include/RT_MQ.h:166-177 | the least power of two not below the capacity and 16, for every capacity up to 2^32 |
| RingBuffer.CapacityIsAccepted | mht/include/RT_MQ.h:192-192 | the ring accepts the rounded capacity, which reaches it as an int, if and only if the capacity is at most 2^30 |
| RingProtocol.InFlightBound | mht/include/RT_RingBuffer.h:93-129 | at most one claimed unpublished ticket per producer: head - tail never exceeds their number |
| RingProtocol.TicketsKept | mht/include/RT_RingBuffer.h:96-127 | every step keeps: claimed unpublished tickets are exactly tail+1..head, each held by the producer that claimed it, with its value |
| RingProtocol.TailRisesInOrder | mht/include/RT_RingBuffer.h:122-127 | tail rises only by one, to the next ticket, by the producer that owns it |
| RingProtocol.SlotsKept | mht/include/RT_RingBuffer.h:115-120 | every step keeps written tickets in their slots until a later claim reaches the same slot, for at most as many producers as slots |
| RingProtocol.ReadsKept | mht/include/RT_MQ.h:228-278 | every step keeps each subscriber that was not lapped reading exactly the history |
| RingProtocol.EveryRunKeepsInvariant | mht/include/RT_RingBuffer.h:93-129 | all of the above in every interleaving from an initialised ring |
| RingProtocol.PublishedIsFound | mht/include/RT_RingBuffer.h:252-258 | in every interleaving a published sequence number s with head < s + size is found in its slot with the value its producer pushed |
| RingProtocol.SubscriberReadsHistory | mht/include/RT_MQ.h:228-311 | a subscriber that is not lapped has read, by any mix of single reads and drains, the history from its start, each push once and in order |
| RingProtocol.LappedMeans | mht/include/RT_MQ.h:228-278 | a subscriber is lapped exactly by a read after a ticket a ring length later was claimed |
| RingProtocol.ReadAfterSkip | mht/include/RT_MQ.h:300-311 | after a skip to a published number the next read is the push after it; a skip beyond the tail changes nothing |
| RingProtocol.TooManyProducersLoseAPush | mht/include/RT_RingBuffer.h:93-129 | with more producers than slots, whatever their numbers, there is a run in which a published push inside the window is lost |
| RingProtocol.SafeExactlyForFewProducers | mht/include/RT_RingBuffer.h:93-129 | published pushes are found in every interleaving exactly if there are at most as many producers as slots |
| RingBuffer.MaskIsRemainder | mht/include/RT_RingBuffer.h:79-83 | the test for index mode 0 holds only where masking is the remainder |
| RingBuffer.Ring.Index | mht/include/RT_RingBuffer.h:115-118 | both index modes select slot number modulo size |
| RingBuffer.Ring.Push | mht/include/RT_RingBuffer.h:93-129 | a single producer appends to the history and publishes it |
| RingBuffer.Ring.GetBySequence | mht/include/RT_RingBuffer.h:252-258 | a sequence number of the last `size` pushes gives the value pushed under it |
| RingBuffer.Subscriber.TryReadNew | mht/include/RT_MQ.h:228-237 | reads the next number exactly if it is published |
| RingBuffer.Subscriber.GetAllPending | mht/include/RT_MQ.h:255-278 | returns everything up to the tail, which is the history if the subscriber is not more than `size` behind |
| RingBuffer.Subscriber.ReadOneByOne | mht/include/RT_MQ.h:228-237 | single reads repeated to the tail return the same as one drain |
| RingBuffer.PendingIsHistory | mht/include/RT_MQ.h:267-274 | the slots read by a drain are the pushed history when none is overtaken |
| SlotRing.PutWordKeeps | mht/include/RT_ShmQueue.h:158-160 | writing one word of a message disturbs no other message that is still in its slot |
| SlotRing.AnnounceKeeps | mht/include/RT_ShmQueue.h:162-163 | an announced message is whole in its slot |
| SlotRing.CopyWord | mht/include/RT_ShmQueue.h:139-141 | copying one more word stays right unless a message for the same slot has been begun |
| ShmQueueProtocol.PushKeeps | mht/include/RT_ShmQueue.h:148-164 | every step of the pusher keeps the invariant of the queue |
| ShmQueueProtocol.ClaimKeeps | mht/include/RT_ShmQueue.h:136-139 | a successful compare-and-swap gives the next index to exactly one consumer |
| ShmQueueProtocol.ReturnKeeps | mht/include/RT_ShmQueue.h:139-142 | a consumer that finished before the slot was begun anew returns the message of its index |
| ShmQueueProtocol.StepKeeps | mht/include/RT_ShmQueue.h:130-164 | every step of anyone keeps the invariant |
| ShmQueueProtocol.EveryRunIsSafe | mht/include/RT_ShmQueue.h:130-164 | in every interleaving 0 <= tail - head <= size, indices are claimed in order by one consumer each and accounted for, and timely copies are the messages pushed |
| ShmQueueProtocol.TimelyMeans | mht/include/RT_ShmQueue.h:139-142 | a pop is timely exactly if the push of the message a ring length later has not begun when it returns |
| ShmQueueProtocol.LatePopIsTorn | mht/include/RT_ShmQueue.h:130-164 | the timeliness is needed: in a queue of any size there is a run in which a pop returns half of one message and half of another |
| RecordRingProtocol.EveryRunIsSafe | mht/include/RT_ShmMdPlus.h:51-56 | in every interleaving a reader that took record c - 1 and finds current_index at most c + N - 2 after its copy has copied it whole; between writes each of the last N records is in its slot |
| RecordRingProtocol.StepKeeps | mht/include/RT_ShmMdPlus.h:592-597 | every step of the writer or a reader keeps this |
| RecordRingProtocol.OneMoreIsTooLate | mht/include/RT_ShmMdPlus.h:592-597 | the bound is the best possible: in a ring of any length the copy can be another record at c + N - 1 |
| MdRing.NarrowFinds | mht/include/RT_ShmMdPlus.h:456-475 | the binary search over slots ends at the first live index whose time reaches the asked one, or just before it |
| MdRing.GetMdWithTies | mht/include/RT_ShmMdPlus.h:423-519 | whatever the times, equal ones included: with the shortcut in reach the answer holds every live record strictly inside the asked range and none outside it, and reports the times of its ends modulo 2^32; a negative answer means there is none in range |
| MdRing.GetMdIsFilter | mht/include/RT_ShmMdPlus.h:423-519 | the range query equals the linear filter over the live records when each asked time is carried by at most one of them or lies at or beyond the end of the live window on its side, as the newest time does in the query by seconds |
| MdRing.GetMdByTpWithTies | mht/include/RT_ShmMdPlus.h:365-421 | whatever the times, the point query returns a live record after every earlier one, with the asked time if any has it, and nothing only if all are later; the time is reported modulo 2^32 |
| MdRing.GetMdByTpIsLast | mht/include/RT_ShmMdPlus.h:365-421 | when the asked time is not duplicated, or is at or after the newest, it is the last live record at or before the time |
| MdRing.ReportedTimesAreCut | mht/include/RT_ShmMdPlus.h:62-63 | the reported times are 32 bits wide: either query reports the time of its record if and only if that is below 2^32 |
| MdRing.PackedTimesAreNotReported | mht/include/RT_ShmMdPlus.h:62-63 | where records carry packed timestamps, no answer of either query reports the time of its record |
| MdRing.OneTimeIsCut | mht/include/RT_ShmMdPlus.h:385-385 | an example: the time 20240102093000000 is reported as 4286090560 |
| Calendar.TimestampIsLong | mht/include/RT_ShmMdPlus.h:266-274 | every packed timestamp is at least 2^32 |
| MdRing.ReachBySpan | mht/include/RT_ShmMdPlus.h:435-435 | the shortcut is in reach when it spans less than two rings or the ring is short of its second wrap, for every offset whose arithmetic does not overflow |
| MdRing.OffsetOfTimesFits | mht/include/RT_ShmMdPlus.h:435-435 | the offset between two packed timestamps never makes the shortcut overflow |
| MdRing.ShortcutOneTooFarMisses | mht/include/RT_ShmMdPlus.h:435-475 | the reach is the best possible in rings of every length: with the shortcut one record further back the query answers with a dead index |
| MdRing.TiesAreMissed | mht/include/RT_ShmMdPlus.h:459-462 | an example: a record with the asked time is outside the answer, so that inside the live window the linear filter can fail at a time that two records share |
| MdRing.EmptyRingAnswers | mht/include/RT_ShmMdPlus.h:432-433 | on an instrument without records the index wraps: the answers of both queries, exactly |
| MdRing.InstrumentRing.OnRtnData | mht/include/RT_ShmMdPlus.h:592-597 | appends the record to the history |
| MdRing.InstrumentRing.GetCur | mht/include/RT_ShmMdPlus.h:51-56 | the newest record exactly if there is one |
| MdRing.InstrumentRing.GetRange | mht/include/RT_ShmMdPlus.h:423-519 | the imperative query computes the function the theorems are about, reported times included |
| MdRing.InstrumentRing.GetByTp | mht/include/RT_ShmMdPlus.h:365-421 | the same for the point query |
| Calendar.DayNumberIsCivil | mht/include/RT_Common.h:618-636 | the day number of every date from 1970 on is that of the closed formula of the Gregorian calendar, without month tables or leap-year test |
| Calendar.DateToSeconds | mht/include/RT_Common.h:627-636 | the year and month loops compute the seconds that the closed formula gives |
| Calendar.MonthsAreYear | mht/include/RT_Common.h:618-625 | the month lengths of a year add up to 365 or 366 |
| Calendar.DaysFollow | mht/include/RT_Common.h:627-636 | consecutive dates differ by exactly 86400 seconds over every end of a month and year |
| Calendar.SecondsOrdered | mht/include/RT_Common.h:627-636 | a later date and time has more seconds |
| Calendar.TimestampsOrdered | mht/include/RT_Common.h:639-650 | packed timestamps in order are seconds in order, strictly for different seconds |
| Calendar.CalOffsetSec | mht/include/RT_Common.h:638-656 | the 64-bit difference, for ordered timestamps that of the closed formula |
| Calendar.OffsetsAdd | mht/include/RT_Common.h:638-656 | for ordered timestamps the subtraction never wraps and offsets add up |
| JsonReader.ParsersAgree | mht/include/rapidjson/reader.h:1828-2208 | for every token sequence, flags and handler the table-driven parser gives the same verdict, the same events with the same counts, and on acceptance the same end as the recursive one |
| JsonReader.ValueSimulated | mht/include/rapidjson/reader.h:1995-2144 | from any state that expects a value, with any stack below, the table machine does what `ParseValue` does and returns to the state after it |
| JsonReader.Reader.ParseValue | mht/include/rapidjson/reader.h:1736-1749 | the recursive parser computes its specification function |
| JsonReader.Reader.ParseObject | mht/include/rapidjson/reader.h:738-803 | the same for objects, with the member count |
| JsonReader.Reader.ParseArray | mht/include/rapidjson/reader.h:806-851 | the same for arrays, with the element count |
| JsonReader.Reader.ParseRecursively | mht/include/rapidjson/reader.h:557-594 | the same for a whole text, with or without stopping when done |
| JsonReader.Reader.TransitTo | mht/include/rapidjson/reader.h:1995-2144 | one transition on the stack, the handler and the input |
| JsonReader.Reader.ParseIteratively | mht/include/rapidjson/reader.h:2176-2208 | the table-driven parser with its in-place stack gives the verdict, events and end of the recursive parser |
| JsonGrammar.PrintedValueRead | mht/include/rapidjson/reader.h:738-851 | every printed value is read, with the events of the value it denotes |
| JsonGrammar.ReadValueIsPrinted | mht/include/rapidjson/reader.h:738-851 | whatever is read is a printed value with those events |
| JsonGrammar.TextIsAccepted | mht/include/rapidjson/reader.h:557-594 | both parsers accept every text of the grammar, trailing commas where the flag allows them |
| JsonGrammar.AcceptedTextIsPrinted | mht/include/rapidjson/reader.h:557-594 | both parsers accept only texts of the grammar, with those events |
| JsonDocument.EventsRebuild | mht/include/rapidjson/document.h:2467-2507 | feeding the events of a value to the handlers leaves the stack as it was with that value on top |
| JsonDocument.EventsDetermineValue | mht/include/rapidjson/document.h:1898-1935 | different values send different events |
| JsonDocument.TextIsUnambiguous | mht/include/rapidjson/reader.h:738-851 | a text denotes one value, with or without trailing commas |
| JsonDocument.DocumentOfText | mht/include/rapidjson/document.h:2289-2298 | parsing succeeds exactly on texts of the grammar and leaves one root, the value the text denotes |
| JsonDocument.Document.EndObject | mht/include/rapidjson/document.h:2495-2499 | the top entries become the members of the object below them |
| JsonDocument.Document.EndArray | mht/include/rapidjson/document.h:2503-2507 | the top entries become the elements of the array below them |
| JsonDocument.Document.Accept | mht/include/rapidjson/document.h:1898-1935 | sending a value to a document pushes that value |
| JsonEquality.FindMember | mht/include/rapidjson/document.h:1284-1292 | the first member with the name, or the end |
| JsonEquality.Compare | mht/include/rapidjson/document.h:965-1004 | the recursive comparison decides the equality the theorems are about |
| JsonEquality.EqualIsSameMeaning | mht/include/rapidjson/document.h:965-1004 | on values without duplicate names equality is equality of the finite maps they denote, numbers modulo 2^64, whatever the member order |
| JsonEquality.EqualIsSameReading | mht/include/rapidjson/document.h:965-1004 | the same for every reading of the numbers that separates what their stored bits separate |
| JsonEquality.EqualIsSymmetricAndTransitive | mht/include/rapidjson/document.h:965-1004 | equality is an equivalence on values without duplicate names |
| JsonEquality.NumbersEqual | mht/include/rapidjson/document.h:989-999 | integers compare equal exactly if they are equal or 2^64 apart |
| JsonEquality.NegativeEqualsHugeUnsigned | mht/include/rapidjson/document.h:989-999 | -1 compares equal to 2^64 - 1 |
| JsonEquality.DuplicateNamesBreakEquality | mht/include/rapidjson/document.h:958-988 | every value with a duplicate name breaks symmetry: there is another one that it equals, or that equals it, in one direction only |
| JsonEquality.FirstsEqual | mht/include/rapidjson/document.h:958-988 | every value is equalled by some value, so comparison with duplicate names is not always false as the documentation says |
| JsonHasher.Hasher.EndObject | mht/include/rapidjson/schema.h:252-259 | the codes of the members become one code by order-free combination |
| JsonHasher.Hasher.EndArray | mht/include/rapidjson/schema.h:262-269 | the codes of the elements become one chained code |
| JsonHasher.Hasher.Accept | mht/include/rapidjson/schema.h:245-271 | a value leaves one code on the stack, whatever is below |
| JsonHasher.XorIsOrderFree | mht/include/rapidjson/schema.h:255-256 | xor is a combination that does not depend on the order of members |
| JsonHasher.EqualValuesHashEqual | mht/include/rapidjson/schema.h:252-269 | values that compare equal have the same code, for any mixing function and any order-free combination, unless a number of one is 2^64 away from a number of the other |
| JsonHasher.EqualNumbersHashApart | mht/include/rapidjson/schema.h:228-231 | -1 and 2^64 - 1 compare equal and have different codes, because the code takes in the double beside the bits |
| JsonHasher.MeaningDeterminesCode | mht/include/rapidjson/schema.h:252-269 | the code depends only on the map a value denotes, with exact numbers |
| JsonHasher.MemberValueCounts | mht/include/rapidjson/schema.h:252-259 | the value of every member counts: if mixing and combining lose nothing, changing the code of one value changes that of the object |
| JsonHasher.MemberNameCounts | mht/include/rapidjson/schema.h:252-259 | and so does every name |
| JsonHasher.ElementCounts | mht/include/rapidjson/schema.h:262-269 | and every element of an array, in its place |
| JsonNumbers.ParseInteger | mht/include/rapidjson/reader.h:1476-1559 | takes all digits, or a leading zero alone; the number the event carries is the signed value exactly, and it is Int, Uint, Int64, Uint64 or Double exactly in its range; no machine word wraps |
| JsonNumbers.NarrowestIs | mht/include/rapidjson/reader.h:1715-1727 | the event chosen carries the number, sign included, and is the one for its range |
| Decimal.PrintedIsRead | mht/include/rapidjson/reader.h:1476-1508 | reading the decimal digits of a number gives the number, for every number |
| JsonNumbers.Accumulate32 | mht/include/rapidjson/reader.h:1483-1508 | stops before a digit exactly when the value would exceed the limit |
| JsonNumbers.ParseWide | mht/include/rapidjson/reader.h:1534-1559 | from the first digit that does not fit 32 bits on |
| CsvLineReader.LineReader.constructor | mht/include/csv.h:347-362 | the first two blocks are read and a byte order mark is dropped |
| CsvLineReader.LineReader.WorkerServes | mht/include/csv.h:204-241 | the worker delivers the next bytes to the third block and exits on an empty read |
| CsvLineReader.LineReader.TakeThird | mht/include/csv.h:457-462 | takes over the third block without losing a byte; finishing is never asked of a worker that has exited |
| CsvLineReader.LineReader.Shift | mht/include/csv.h:453-463 | moving the blocks forward keeps the bytes that remain |
| CsvLineReader.LineReader.NextLine | mht/include/csv.h:444-493 | null exactly at the end of the data, the length error exactly when the line does not fit a block, and otherwise the next line, NUL-terminated, with the rest remaining |
| CsvLineReader.LineReader.ReadAll | mht/include/csv.h:444-493 | a whole run, with the worker running as it likes: it ends well exactly if every line is shorter than a block, and then the lines are those of the text |
| CsvLineReader.TextIsClosedLines | mht/include/csv.h:465-489 | every text, with any carriage returns, is its lines with their endings: a newline, with a return before it exactly where one stands, which the last line may lack |
| CsvLineReader.OnlyItsLines | mht/include/csv.h:465-489 | no other lines with such endings make up the text |
| CsvLineReader.ReturnsDoNotMatter | mht/include/csv.h:486-488 | lines that end in no return are read the same whether closed by CR LF or by LF |
| CsvLineReader.FittingMeans | mht/include/csv.h:470-475 | all lines fit exactly if there is a newline among any block length of bytes in a row |
| CsvLineReader.FittingIsFront | mht/include/csv.h:470-475 | the lines read before the length error are those of the text up to the first line that does not fit |
| CsvLineReader.BomIsDropped | mht/include/csv.h:352-354 | the byte order mark is dropped once, and nothing else |
| CsvLineReader.LinesRebuildText | mht/include/csv.h:465-489 | without carriage returns the lines closed by newlines are the text |
| CsvLineReader.LinesHaveNoNewline | mht/include/csv.h:465-489 | and no line holds a newline |
| CsvColumns.FindNextColumnEnd | mht/include/csv.h:771-787 | the loops over quoted parts find the end of the column, or throw exactly if a quote is not closed |
| CsvColumns.Trim | mht/include/csv.h:701-707 | trims both ends in place and closes the text |
| CsvColumns.ColumnIsPadded | mht/include/csv.h:701-707 | every column is trimmed characters, a middle with none at its ends, and trimmed characters; the middle alone is decoded |
| CsvColumns.TrimmedIs | mht/include/csv.h:701-707 | however a column is so cut, its middle is what is decoded |
| CsvColumns.UndoubleInPlace | mht/include/csv.h:795-804 | the in-place loop writes the text with doubled quotes made single, behind what it has read |
| CsvColumns.UnescapeInPlace | mht/include/csv.h:789-807 | decodes a quoted column in place, leaves others alone and touches nothing outside |
| CsvColumns.DecodeColumn | mht/include/csv.h:874-876 | the decoded column stands as a C string inside its old place |
| CsvColumns.ChopNextColumn | mht/include/csv.h:845-860 | cuts one column off the line |
| CsvColumns.ParseLine | mht/include/csv.h:863-883 | the outcome is that of splitting the line; on a full row every wanted column is found decoded through its entry |
| CsvColumns.ColumnEndIs | mht/include/csv.h:771-787 | a column ends at the first separator with an even number of quotes before it, or at the end |
| CsvColumns.SplitIs | mht/include/csv.h:863-883 | a line splits into given columns exactly if each is closed and they make up the line with the separators between them |
| CsvColumns.OtherCounts | mht/include/csv.h:863-883 | a line of n columns has too many for fewer and too few for more |
| CsvColumns.OpenLine | mht/include/csv.h:863-883 | a line that splits into no number of columns has an unclosed quote, reported exactly when its column is reached |
| CsvColumns.QuotedEnds | mht/include/csv.h:771-787 | a quoted field ends at its closing quote, whatever it holds |
| CsvColumns.UndoubleDoubled | mht/include/csv.h:795-804 | making doubled quotes single undoes doubling |
| CsvColumns.UndoubleKeepsSingle | mht/include/csv.h:795-804 | quotes that do not stand in pairs stay |
| CsvColumns.JoinedSplits | mht/include/csv.h:845-883 | fields written quoted or plain, padded with characters to be trimmed, and joined split into exactly the written columns, which decode to the fields (section 2 of RFC 4180) |
| CsvColumns.JoinedHasNoNul | mht/include/csv.h:863-883 | a written line holds no NUL, so the text of the buffer at its start is the whole line |
| CsvColumns.WrittenLineIsReadBack | mht/include/csv.h:863-883 | what the parser delivers for a written line are its fields |
| CsvColumns.ParseWrittenLine | mht/include/csv.h:863-883 | the round trip: parsing a written line succeeds and leaves every wanted entry at its field |
| CsvIntegers.ParseUnsigned | mht/include/csv.h:962-978 | the exact value, or the overflow policy exactly when it does not fit; a non-digit counts only if the digits before it fit |
| CsvIntegers.ParseSigned | mht/include/csv.h:990-1011 | the same with either sign, down to the least value of the type |
| CsvIntegers.MeaningOfColumn | mht/include/csv.h:962-1011 | by the longest front part of digits that fits: the number if it is all, no digit if the next character is none, and otherwise the error, that part, or the bound, as the policy says |
| CsvIntegers.DigitsMeaning | mht/include/csv.h:962-1011 | on digit strings the throwing policy throws exactly out of range and set-to-max clamps |
| PoolAllocator.AddBlock | mht/include/rapidjson/allocators.h:194-201 | a block cut from the head chunk is disjoint from all blocks handed out, at a multiple of eight bytes |
| PoolAllocator.OnlyLastBlockPasses | mht/include/rapidjson/allocators.h:219-219 | the address test of `Realloc` holds only of the true last block of the head chunk, wherever the chunks lie |
| PoolAllocator.GrowBlock | mht/include/rapidjson/allocators.h:219-225 | growing the last block in place keeps all blocks disjoint |
| PoolAllocator.Pool.AddChunk | mht/include/rapidjson/allocators.h:250-264 | a new head chunk apart from the others, or nothing changed |
| PoolAllocator.Pool.Malloc | mht/include/rapidjson/allocators.h:189-202 | a new disjoint block, from the head chunk exactly if it fits there; null leaves the pool as it was |
| PoolAllocator.Pool.Realloc | mht/include/rapidjson/allocators.h:204-235 | the old contents are a prefix of the result, no byte of any block changes, and only the last block grows in place, exactly when there is room; without an original it is an allocation |
| PoolAllocator.Pool.CopyBytes | mht/include/rapidjson/allocators.h:229-232 | the copied bytes and no others are written |
| PoolAllocator.Pool.Clear | mht/include/rapidjson/allocators.h:158-166 | gives back all chunks but the user buffer, which becomes empty |
| PoolAllocator.Pool.Size | mht/include/rapidjson/allocators.h:181-186 | the bytes used are the bytes of the blocks, none lost between them |
| PoolAllocator.CopyKeeps | mht/include/rapidjson/allocators.h:229-232 | writing to the newest block changes no other |
| Utf.TableIsGrammar | mht/include/rapidjson/encodings.h:204-222 | the byte classes and masks accept exactly the characters of the grammar in section 4 of RFC 3629 |
| Utf.Decode8 | mht/include/rapidjson/encodings.h:146-176 | accepts exactly those characters, computes their value and takes their bytes |
| Utf.Validate8 | mht/include/rapidjson/encodings.h:179-202 | accepts the same characters, takes the same bytes and puts them |
| Utf.Encode8 | mht/include/rapidjson/encodings.h:102-121 | puts the bytes of a code point |
| Utf.EncodedIsChar | mht/include/rapidjson/encodings.h:102-121 | the bytes of a scalar value are one character with that value, those of a surrogate are none |
| Utf.CharIsEncoded | mht/include/rapidjson/encodings.h:146-176 | every character is the encoding of its value, a scalar value |
| Utf.CodePointOrder | mht/include/rapidjson/encodings.h:102-121 | the bytes of characters are in the order of their code points |
| Utf.Decode16 | mht/include/rapidjson/encodings.h:307-322 | accepts a unit that is no surrogate or a surrogate pair, with its value (section 2.2 of RFC 2781) |
| Utf.Encode16 | mht/include/rapidjson/encodings.h:276-289 | puts the units of a scalar value (section 2.1 of RFC 2781) |
| Utf.EncodedIsChar16 | mht/include/rapidjson/encodings.h:276-322 | decoding undoes encoding |
| Utf.CharIsEncoded16 | mht/include/rapidjson/encodings.h:307-322 | encoding undoes decoding |
| Utf.UnitsAre | mht/include/rapidjson/encodings.h:276-289 | a code point from 0x10000 on is a high and a low surrogate with ten bits each, any other is its unit |
| Utf.Transcode | mht/include/rapidjson/encodings.h:661-667 | one character from UTF-8 to UTF-16, or nothing put |
| Utf.Transcode16 | mht/include/rapidjson/encodings.h:661-667 | one character from UTF-16 to UTF-8, or nothing put |
| Utf.TranscodeAll | mht/include/rapidjson/reader.h:1046-1052 | the loop over a string succeeds exactly if it is well-formed UTF-8 and then has put the whole string in UTF-16 |
| Utf.TranscodeAll16 | mht/include/rapidjson/reader.h:1046-1052 | the same from UTF-16 to UTF-8 |
| Utf.ThereAndBack8 | mht/include/rapidjson/encodings.h:658-667 | transcoding a well-formed UTF-8 string to UTF-16 and back is the identity |
| Utf.ThereAndBack16 | mht/include/rapidjson/encodings.h:658-667 | and so is the way from UTF-16 to UTF-8 and back |
| JsonPointer.NamesAreMeant | mht/include/rapidjson/pointer.h:897-953 | section 4 of RFC 6901: the names of an accepted text are its parts between the slashes, with every ~1 replaced by a slash and then every ~0 by a tilde |
| JsonPointerFragment.FragmentNamesAreMeant | mht/include/rapidjson/pointer.h:897-953 | the same for a fragment, each part percent-decoded first |
| JsonPointerFragment.NamesOfSource | mht/include/rapidjson/pointer.h:863-993 | the tokens of an accepted source in either form; a fragment that encodes no slash may be decoded as a whole before it is cut |
| JsonPointer.PointerRoundTrips | mht/include/rapidjson/pointer.h:863-1033 | every list of names is recovered from its text, and every list of UTF-8 names from its URI fragment (sections 3 and 6 of RFC 6901) |
| JsonPointerFragment.FragmentIsBytewise | mht/include/rapidjson/pointer.h:1010-1030 | in a fragment a byte is a triplet exactly if it needs one, and tilde and slash are escaped |
| JsonPointer.TripletIsHex | mht/include/rapidjson/pointer.h:1057-1077 | a triplet is its byte in hexadecimal, the high digit first |
| JsonPointer.UnreservedAre | mht/include/rapidjson/pointer.h:851-853 | the characters that need no triplet are those of section 2.3 of RFC 3986 |
| JsonPointer.ParsedText | mht/include/rapidjson/pointer.h:863-1033 | every accepted text that is no fragment is written again as it was |
| JsonPointer.FragmentIsUtf8 | mht/include/rapidjson/pointer.h:1018-1025 | a name can be written as a fragment exactly if it is UTF-8 |
| JsonPointer.NamePerSlash | mht/include/rapidjson/pointer.h:874-879 | an accepted text has as many tokens as slashes |
| JsonPointerFragment.FragmentMeansDecodedText | mht/include/rapidjson/pointer.h:901-925 | an accepted fragment means what its percent-decoded text means if and only if it encodes no slash |
| JsonPointerFragment.FragmentIsAccepted | mht/include/rapidjson/pointer.h:901-953 | a fragment is accepted exactly if it is empty or starts with a slash, every character is encoded where it must be, in whole UTF-8 characters, and every tilde is followed by a plain 0 or 1 |
| JsonPointerFragment.TextIsAccepted | mht/include/rapidjson/pointer.h:892-953 | a plain text is accepted exactly if it is empty or starts with a slash, and every tilde is followed by 0 or 1 |
| JsonPointerFragment.DecodedTextButNotFragment | mht/include/rapidjson/pointer.h:901-953 | of the fragments whose decoded text is accepted, exactly those with a badly encoded character, an encoded digit after a tilde, or an encoded slash in front are rejected |
| JsonPointer.EncodedSlashIsPartOfName | mht/include/rapidjson/pointer.h:908-925 | a percent-encoded slash does not separate tokens |
| JsonPointer.IndexIsExact | mht/include/rapidjson/pointer.h:955-979 | a token has its number as index if and only if its name is a numeral without leading zero below 2^32 - 1 |
| JsonPointer.OtherIndices | mht/include/rapidjson/pointer.h:955-979 | every other token has no index, or for a larger numeral its remainder modulo 2^32 |
| JsonPointer.LargeNumeralWraps | mht/include/rapidjson/pointer.h:967-974 | the overflow test misses some larger numerals: the token 6000000000 has the index 1705032704 |
| JsonPointer.TakeTriplet | mht/include/rapidjson/pointer.h:1057-1077 | decodes one percent triplet or reports it invalid |
| JsonPointer.DecodePercent | mht/include/rapidjson/pointer.h:909-925 | decodes and validates a percent-encoded character in the name buffer |
| JsonPointer.TakeChar | mht/include/rapidjson/pointer.h:904-953 | one character of a name into the buffer |
| JsonPointer.TakeName | mht/include/rapidjson/pointer.h:904-953 | the inner loop reads exactly the name and knows whether it is a number |
| JsonPointer.ToIndex | mht/include/rapidjson/pointer.h:955-979 | the array index of a name, in 32-bit arithmetic |
| JsonPointer.FillTokens | mht/include/rapidjson/pointer.h:897-981 | the outer loop fills exactly the token table, every name NUL-terminated in the buffer |
| JsonPointer.Pointer.constructor | mht/include/rapidjson/pointer.h:863-993 | valid exactly for texts of the grammar, with a token for every slash; for a text the tokens are its parts with the escapes replaced; names fit a buffer as long as the text |
| JsonPointer.Pointer.Stringify | mht/include/rapidjson/pointer.h:1002-1033 | writes the text or fragment of the tokens; a fragment fails exactly if a name is not UTF-8 |
| JsonPointerTree.TokenMeans | mht/include/rapidjson/pointer.h:544-566 | section 4 of RFC 6901: a token resolves to the element of its number or the first member of its name |
| JsonPointerTree.NodeBecomes | mht/include/rapidjson/pointer.h:466-505 | what `Create` makes of a node: an object keeps its members, an array its elements, filled up with nulls; what cannot take the token is replaced |
| JsonPointerTree.CreateIsGet | mht/include/rapidjson/pointer.h:461-508 | `Create` reports existence exactly if `Get` finds the value, and then changes nothing; otherwise the result is a null at the path |
| JsonPointerTree.GetAfterCreate | mht/include/rapidjson/pointer.h:461-568 | after `Create` along a path on which no dash appends, the same pointer resolves to the value |
| JsonPointerTree.DashIsNotFoundAgain | mht/include/rapidjson/pointer.h:461-568 | after `Create` along a path on which a dash appends, the same pointer does not resolve |
| JsonPointerTree.ResolvesExactlyWithoutDash | mht/include/rapidjson/pointer.h:461-568 | after `Create` the same pointer resolves if and only if, before it, no front part of the pointer resolved to an array with a dash as the next token |
| JsonPointerTree.DashByResolving | mht/include/rapidjson/pointer.h:461-508 | resolving alone tells before the call whether a dash will append; what `Create` makes on its way is never an array under a dash |
| JsonPointerTree.OthersStay | mht/include/rapidjson/pointer.h:461-508 | everything off the way stays where it is, below objects always, and below arrays unless the token is a name |

## Left out

- Weak memory: every volatile or atomic access, and every word of a copy, is one sequentially consistent step; sequence and index counters are unbounded where the source has 64-bit (ring, record ring) or 32-bit (queue) counters.
- Hash table: the load factor is the rational 1/2; the allocator is a limit on the number of buckets, and when it refuses, the operation fails and nothing more is promised of that table; move and copy of elements cannot throw; the de Bruijn lookup of `log2` is replaced by the exponent it computes; other hash policies, reserve, shrink, copying and iterators as objects.
- FlatHashMap.Table.Emplace: promises success only while doubling stays within the allocator's limit, because with many equal hashes growth need not end.
- MdRing.GetMdIsFilter: the condition on the shortcut is sufficient, not necessary; a shortcut that reaches further back is still right when it falls on the slot of a record that orders it correctly; which back reaches do so depends on the remainders of all probed indices.  At a time that several records inside the live window share it promises only `GetMdWithTies`: whether the search stops at the outermost of them depends on the indices it probes.
- MdRing.InstrumentRing.GetRange: offsets from about 2^61 on, where the signed arithmetic of the shortcut overflows and the language gives it no meaning.
- MdRing: the map from symbols to rings, so collisions of the 64-bit symbol hash; `get_md` over seconds before the newest record (`mktime`); the comparison callback of `on_rtn_data`.
- ShmQueueProtocol.EveryRunIsSafe: all messages have the same number of words; the length field, which no consumer reads, is not modelled, and neither is a message shorter than the type that is popped.
- Ring: `get_new`, `zero` during pushes, `get_all`; the retry of a full ring is a retry of the whole claim, as in the source.
- Opening, mapping and initialising shared memory, `try_pop` of the queue.
- JSON parsers: texts are token sequences; white space, comments, escapes, the spelling of leaves, error codes and offsets, and parsing token by token (`IterativeParseNext`) are not modelled.
- JSON numbers: fractions, exponents, NaN and infinities; a double holds its value without rounding; equality and hashing of doubles.
- JsonHasher.EqualValuesHashEqual: promises nothing where a number of one value is 2^64 away from a number of the other, or for duplicate names; whether two such codes coincide depends on the mixing function.
- CSV: comment policies, header lines, float columns, reading errors of the byte source, file names in error messages; a byte source is short only at its end.
- CsvLineReader.LineReader.ReadAll: shows each line up to its first NUL byte, as a C string does.
- PoolAllocator: sizes near 2^64, where aligning or adding wraps; chunk headers occupy memory but their bytes are not modelled; the old size passed to `Realloc` is not above the block's.
- PoolAllocator.Pool.Realloc: names the block by a ghost number, because a pointer the pool has not handed out is outside its contract.
- Utf.TranscodeAll: the loop over characters that need no escape; the escape sequences of the reader and the writer are not modelled.
- Utf: reading past the end gives zeros, as the memory stream does; units have exactly 16 bits; other encodings and byte order marks.
- JsonPointer: error codes and offsets; an empty text is not read past its end; reads behind a malformed last character give zeros.
- JsonPointerTree: the tree is a value and the result a new tree, so aliasing of the moved pointer is not captured; removal, assignment and the document's allocator.
- Calendar: validity of dates before 1970 and after 9999.
- WebSocket client, exchange feeds, strategy runner, logging, CPU affinity, configuration and the schema validator: input and output over libraries that are not part of this model.
