# Proofs about libutils, libcutils and the HiSilicon common layer

This project models the parts of Android's libutils and libcutils and of the HiSilicon common
layer that rest on a non-trivial invariant, and proves that the invariant holds.

| module | models |
|---|---|
| `RefBase` | the lock-free strong/weak reference count, one step per atomic operation, any number of threads |
| `CInt`, `Calendar` | C integer arithmetic; the proleptic Gregorian calendar as a day count |
| `TimeSub`, `LocalSub`, `Normalize`, `Time2Sub`, `SkippedTime`, `ZoneRules` | the calendar engine of tztime.c: time to date, zone lookup with the 400-year fold, normalisation, the search behind mktime, POSIX TZ rules |
| `IsoWeek` | the %V/%G/%g week loop and `_yconv` of tzstrftime.c |
| `SharedVector`, `VectorPolicy`, `VectorSort` | copy-on-write vectors over counted buffers, their growth policy and its cost, sorting and the sorted vector |
| `XMem` | the splitting and coalescing free-list allocator inside one buffer |
| `HashMap` | the chained hash table against a plain map |
| `RecordStream` | length-prefixed records over arbitrarily chunked reads |
| `MsgQueue` | the semaphore and mutex message pool, one pointer access per step |
| `Utf8Lead`, `JavaUtf8`, `JavaUnicode` | Java's modified UTF-8 to and from 16-bit units, and how it differs from UTF-8 |
| `Unicode`, `Transcoders` | UTF-8, UTF-16 and UTF-32 conversions: their meaning, and the loops over buffers |
| `Basics`, `Links`, `Arithmetic` | options and bytes, linked lists, powers and facts about division |

The form follows the code. What changes fields in place is a class (`Hashmap`, `Allocator`,
`RecordStream`, `Vector`, `SharedBuffer`); loops are methods with loops, over arrays where the code
writes to a buffer; concurrent code is a state machine whose main theorems quantify over every run.
Integers are mathematical. Where the code checks, casts or relies on a width the model wraps or
tests explicitly, reading an overflow of a signed type as wrap-around (`Wrap32`, `Wrap64`,
`IncrementOverflow`, `U32`, `AddSize`, `Word`). The widths are those of the targets the code was
written for:

| modules | widths |
|---|---|
| `TimeSub`, `LocalSub`, `Normalize`, `Time2Sub`, `SkippedTime`, `ZoneRules`, `IsoWeek` | 32-bit int, 64-bit long and time_t |
| `HashMap` | 32-bit int, 64-bit size_t |
| `SharedVector`, `VectorPolicy` | a size_t of any number of values, item and header size: constants of `World` |
| `MsgQueue` | a 32-bit counter of the time polled |
| `XMem` | 32-bit pointers and lengths, a block header of 8 bytes |
| `RefBase` | 32-bit counts that never reach the bias again |
| `JavaUtf8` | 32-bit int, any SIZE_MAX of at least 65535, a parameter |
| `Unicode`, `Transcoders` | 8-, 16- and 32-bit units; a shift by more than 31 bits gives what the machine gives, a parameter (`Wide`) |
| `RecordStream` | an address space of any size from 2^32 bytes, a parameter of `EndIsExact` |

What the code promises and does not keep is stated with the exact condition:

- `Time2Sub.Search`: the search finds nothing unless the year shown one second before the epoch, less
  the year asked for, fits an int; then it finds every request that no change of offset skips, and so
  time2sub inverts localsub in a zone of fixed offset if and only if that difference fits
  (`InvertsFixedZones`). `tmcomp` subtracts years as ints, so for the earliest years the very first
  probe goes the wrong way; `EarliestYearIsLost` gives such a request, and `SkippedIsLost` one that is
  skipped.
- `TimeSub.WeekdayByRemainders`, `TimeSub.BrokenDownIsTheDate`, `LocalSub.LocalTimeIsTheDate`: the
  weekday is right if and only if the year, less 1970, fits an int; in the seventy earliest years of
  a struct tm it is four days late. `EarliestYearIsLost` shows that as well.
- `LocalSub.FoldTime`: the fold by 400-year cycles is right if and only if the distance from the
  table, less one, fits a time_t; `FoldCanMiss` gives a table and a time for which the return marked
  "cannot happen" is taken. localsub as a whole still answers as it should, with NULL.
- `ZoneRules.TableIsZone`: the table of a TZ string can be searched if and only if the later change
  of each year does not come after the earlier change of the next; `YearsOutOfOrder` gives rules
  for which it does.
- `ZoneRules.RulesAreInForce`: a TZ string is obeyed in every year if and only if the types agree at the end
  of the table; `SeamShowsStandardTime` gives rules for which they do not.
- `IsoWeek.Week`: for a tm_yday outside its year the week is right if and only if its Thursday is not
  past the first week of the next year; `LateDay` gives days for which it is.
- `HashMap.RoomIsExact`: hashmapCreate makes room for the capacity asked for if and only if it is less
  than 2^62; `RoomCanWrap` shows what happens there.
- `VectorPolicy.RequestIsEnough`: growing to more than four items asks for enough memory if and only if
  neither the new capacity nor its bytes wrap; `GrowthWraps` gives the size. `ShrinkTestIsRight` is the
  same for the test of `_shrink`, and `ShrinkWraps` its input.
- `XMem.AlignedFits`: the allocator keeps to its buffer if and only if that has at most 0xfffffff3 bytes;
  `WholeBufferGoesWrong` gives a request for every longer one.
- `RecordStream.EndIsExact`: a pointer sum that passes the end of the address space makes a record
  seem complete; `HeaderWraps` gives the header.
- `JavaUtf8.CountIsEnough`: strlen8to16 counts enough for every text in which no run of extension bytes
  is too long for an int, and for text without four-byte sequences only then; `CountFallsShort` gives a
  text for which it does not.
- `JavaUnicode.SameAsUtf8ToUtf16`: strcpy8to16 converts well-formed UTF-8 to UTF-16 if and only if no code
  point is past 0x10fffd; `PastLimitIsReplaced` gives the two that are.
- `Unicode.DecodersAgree`: the converters of Unicode.cpp read the same value from the same bytes if and
  only if the first is no extension byte.
- `SharedVector.RemovalGuard`: removeItemsAt tests its bounds right if and only if index plus count
  does not wrap around to a size that the vector has; `GuardWraps` gives such a sum.
- `MsgQueue.MessageInit`: a pool of no elements gets a message without a token.
- `MsgQueue.TimedOutTakesNothing`: a timed wait polls limit / 10 + 1 times if and only if its limit is at
  most 0xfffffffa.
- `MsgQueue.InterruptedWait`: a wait that a signal ends finds no message if and only if there is none.
- `Unicode.LengthShortfall`: utf16_to_utf8_length equals what utf16_to_utf8 writes if and only if no
  even, positive run of high surrogates ends in a low one; `ShortfallExample` gives the least case.
- `RefBase.OverlapRemovesTheBiasTwice`: a first incStrong and an attemptIncStrong that overlap can
  both subtract the bias. The runs of the model therefore let attemptIncStrong start only when no
  such incStrong is in flight.

The comment above record_stream_get_next speaks of a 16-bit length prefix; the code reads 32 bits, and
the model follows the code.

`dafny verify dfyconfig.toml` checks the project.

## Model

| member | source | states |
|---|---|---|
| `RefBase.ApplyKeepsInv` | base/utils/RefBase.cpp:322-606 | every atomic step of incStrong, decStrong, incWeak, decWeak, attemptIncStrong, attemptIncWeak and ~RefBase, by any of any number of threads, keeps the invariant that ties mStrong and mWeak to the references held and in flight |
| `RefBase.RunKeepsInv` | base/utils/RefBase.cpp:322-606 | the invariant holds in every state of every interleaving from a new object |
| `RefBase.NoDoubleDeleteNoUseAfterFree` | base/utils/RefBase.cpp:322-606 | in every interleaving the object, weakref_impl and the bias are each removed at most once; the object is not deleted while a strong reference is held (strong lifetime) or any reference is held (extended lifetime); weakref_impl goes after the object and no thread can touch it later |
| `RefBase.QuiescentCounts` | base/utils/RefBase.cpp:322-606 | with no call in flight mStrong is the strong references plus the bias exactly while there never was one, mWeak is strong plus weak, and when the last reference is gone the object and weakref_impl have each been deleted exactly once |
| `RefBase.ZeroIsFinal` | base/utils/RefBase.cpp:431-533 | strong lifetime: once mStrong is 0 it stays 0 and no later promotion succeeds |
| `RefBase.FirstSeesTheBias` | base/utils/RefBase.cpp:322-339 | the first incStrong sees exactly the bias |
| `RefBase.CallsCount` | base/utils/RefBase.cpp:322-606 | in every interleaving incStrong, incWeak and attemptIncWeak that have returned gave their caller exactly one reference, decStrong and decWeak took exactly one, references handed over by others aside |
| `RefBase.PromotionIsRefusedOrGiven` | base/utils/RefBase.cpp:431-533 | in every interleaving attemptIncStrong gives its caller a strong reference if and only if no reading of mStrong refused it, for lack of a strong reference or of the consent of onIncStrongAttempted |
| `RefBase.PromotionSucceedsWhileAlive` | base/utils/RefBase.cpp:431-533 | in every interleaving of the strong lifetime attemptIncStrong succeeds if and only if mStrong is not 0 when it returns |
| `RefBase.ExtendedPromotionFailsOnlyIfRefused` | base/utils/RefBase.cpp:476-492 | in every interleaving of the extended lifetime it fails only if onIncStrongAttempted did not agree at a moment when mStrong was 0 or the bias |
| `RefBase.UndisturbedCallsReturn` | base/utils/RefBase.cpp:322-606 | in every interleaving no thread takes more than six steps of its calls in a row: a call that nobody disturbs returns |
| `RefBase.OverlapRemovesTheBiasTwice` | base/utils/RefBase.cpp:322-533 | the assumption on the first strong reference is needed: from every reachable state with the first incStrong in flight, a promotion that starts now can also subtract the bias, leaving mStrong negative with two references |
| `CInt.IncrementOverflow` | base/cutils/tztime.c:1577-1592 | reports overflow exactly when the int sum does not fit, and else the sum |
| `CInt.LongIncrementOverflow` | base/cutils/tztime.c:1594-1609 | the same for a 64-bit long |
| `Calendar.LeapsFloor` | base/cutils/tztime.c:1389-1395 | leaps_thru_end_of is the floor formula for negative years too |
| `Calendar.LeapsCountsLeapYears` | base/cutils/tztime.c:1389-1395 | it grows by one exactly at each leap year, for every integer year |
| `Calendar.DaysToYearClosed` | base/cutils/tztime.c:1460-1463 | the day count by leaps_thru_end_of equals counting year by year |
| `Calendar.TmUnique` | base/cutils/tztime.c:1496-1524 | two valid broken-down times of the same second are the same |
| `Calendar.TmRepeats` | base/cutils/tztime.c:1221-1231 | moving a time by whole 400-year cycles changes nothing but the year of its date |
| `TimeSub.FindYear` | base/cutils/tztime.c:1442-1465 | the accelerated year loop ends for every day count with the year that contains it, or stops exactly when that year, or the year before it, does not fit an int |
| `TimeSub.LeapDays` | base/cutils/tztime.c:1460-1463 | the leap days of a step are those of the calendar, except for a step to INT_MIN, where the year before wraps around and they are too many by the leap years of all ints |
| `TimeSub.StepYear` | base/cutils/tztime.c:1446-1464 | one round never passes the year looked for and keeps the day |
| `TimeSub.CarrySeconds` | base/cutils/tztime.c:1477-1485 | the offset loops bring the second of the day into range; the day is the exact carry, wrapped to an int |
| `TimeSub.CarryBack` | base/cutils/tztime.c:1486-1490 | a negative day of the year is carried into the year that contains it, or refused exactly when that year does not fit |
| `TimeSub.CarryAhead` | base/cutils/tztime.c:1491-1495 | the same for a day past the end of the year |
| `TimeSub.WeekdayByRemainders` | base/cutils/tztime.c:1503-1511 | tm_wday in int arithmetic is the weekday of the day count if and only if the year less 1970 fits an int; else it is four days late |
| `TimeSub.FindMonth` | base/cutils/tztime.c:1520-1523 | the month loop finds the month and day of the month of a day of the year |
| `TimeSub.Fields` | base/cutils/tztime.c:1496-1524 | the fields written denote exactly the given year, day and second; they are a valid date but for the weekday, and with it if and only if the year less 1970 fits an int |
| `TimeSub.Compute` | base/cutils/tztime.c:1397-1529 | timesub ends for every time and offset and returns the fields of time plus the offset that a long sum and an int day count leave, or NULL exactly when a year does not fit |
| `TimeSub.BrokenDownIsTheDate` | base/cutils/tztime.c:1397-1529 | a non-NULL answer has the fields of the only valid date of time plus offset, weekday aside, and equals it if and only if the year less 1970 fits an int; NULL exactly when its year does not fit |
| `TimeSub.OffsetIsUsed` | base/cutils/tztime.c:1477-1485 | for every long the offset is used as it is if and only if the long sum and the int day count hold it |
| `TimeSub.IntOffsetIsUsed` | base/cutils/tztime.c:1477-1485 | every offset that fits an int, as all offsets of zones do, is used as it is |
| `LocalSub.InitialType` | base/cutils/tztime.c:1234-1240 | the type that FirstStandardFrom names |
| `LocalSub.FirstStandardFrom` | base/cutils/tztime.c:1234-1240 | a type that is not daylight saving time with none before it, or 0 if there is none at all |
| `LocalSub.SearchTransition` | base/cutils/tztime.c:1241-1253 | the binary search finds the last transition at or before the time |
| `LocalSub.FoldTime` | base/cutils/tztime.c:1195-1219 | in 64-bit arithmetic the time reached is the fold, inside the table, if and only if the distance from the table less one fits a time_t, and only then is the return marked "cannot happen" dead for sure; otherwise the table or the year is too far to show |
| `LocalSub.FoldCanMiss` | base/cutils/tztime.c:1202-1219 | a table of one cycle from one second after the epoch and the earliest time_t: the distance wraps and that return is taken |
| `LocalSub.TooFarIsNull` | base/cutils/tztime.c:1202-1231 | a distance that does not fit leaves nothing to show, as a year does not fit an int |
| `LocalSub.InsideTable` | base/cutils/tztime.c:1234-1270 | inside the table the answer is the date of the time in the type in force |
| `LocalSub.Local` | base/cutils/tztime.c:1178-1271 | for every time_t localsub answers as the 400-year periodic extension of the table does, in 64-bit arithmetic |
| `LocalSub.LocalTimeIsTheDate` | base/cutils/tztime.c:1178-1271 | what is shown is the date of the time plus the offset in force, with its tm_isdst; the weekday is right if and only if the year of the time in the table less 1970 fits an int |
| `LocalSub.LocalOfFold` | base/cutils/tztime.c:1220-1232 | the date of a folded time is that of the time it folds to with the year moved, or NULL exactly when the year does not fit |
| `LocalSub.FoldChangesOnlyTheYear` | base/cutils/tztime.c:1195-1233 | a folded time shows the date of a time in the table with nothing but the year changed |
| `Normalize.NormalizeOverflow` | base/cutils/tztime.c:1611-1624 | carries units into tens rounding down, keeps the denoted sum, and reports overflow exactly when tens does not fit an int |
| `Normalize.CarriedDenotesTheSame` | base/cutils/tztime.c:1679-1690 | carrying the time-of-day and month fields keeps the denoted second, in range or not |
| `Normalize.CarryMonthDay` | base/cutils/tztime.c:1697-1719 | the day-of-month loops end at a valid month and day on the same day; the year overflow checks in them cannot fire |
| `Normalize.TimeFields` | base/cutils/tztime.c:1679-1687 | the time of day is carried into the day, refused exactly when a carry overflows an int |
| `Normalize.ActualYear` | base/cutils/tztime.c:1688-1696 | months are carried into the year in a long, without overflow |
| `Normalize.NormalizeFields` | base/cutils/tztime.c:1677-1724 | the normalised request is a valid date on the denoted day with the carried time of day; refused exactly when a carry or the year overflows an int |
| `Time2Sub.TmCompOrders` | base/cutils/tztime.c:1641-1655 | tmcomp orders broken-down times as their seconds wherever the int difference of the years does not wrap |
| `Time2Sub.Search` | base/cutils/tztime.c:1755-1793 | in any zone the binary search over the whole time_t range ends (hi - lo shrinks) and finds only times with the fields asked for; it finds nothing if the first year difference does not fit an int, and otherwise every request that no change of offset skips, provided that times shown as NULL are extreme, as the code assumes |
| `Time2Sub.DirectionIsRight` | base/cutils/tztime.c:1761-1793 | in any zone, under that condition, every probe inside the bracket sends the search to the side on which the second sought lies |
| `Time2Sub.OverflowGoesUp` | base/cutils/tztime.c:1641-1655 | in any zone, without it, the first probe sends the search up although every time from there on shows a later year |
| `SkippedTime.SkippedIsLost` | base/cutils/tztime.c:1755-1793 | a zone whose clock goes forward over a second and back over it, and a request for that second: localsub shows it at 205, and the probes end without it |
| `Time2Sub.EarliestYearIsLost` | base/cutils/tztime.c:1641-1655 | such a request exists: the first second of the earliest year of a struct tm in UTC is shown by localsub, with a weekday four days late, and not found by time2sub |
| `Time2Sub.LateWeekday` | base/cutils/tztime.c:1503-1511 | in each of the seventy earliest years the weekday shown is four days late |
| `Time2Sub.Hunt` | base/cutils/tztime.c:1794-1831 | the hunt takes the guess of the last pair of types that shows the right fields and tm_isdst, and gives up only if no pair does |
| `Time2Sub.SaveSeconds` | base/cutils/tztime.c:1725-1743 | the second sought is in 0..59 and adds up with the saved seconds to the one asked for; refused exactly when setting them aside overflows an int |
| `Time2Sub.Prepare` | base/cutils/tztime.c:1677-1743 | everything before the search; refused exactly when a carry, the year or the seconds overflow, and a request in range is sought unchanged |
| `Time2Sub.Finish` | base/cutils/tztime.c:1832-1839 | found exactly when time plus saved seconds is a time_t that localsub shows, and then the answer is what it shows |
| `Time2Sub.MakeTime` | base/cutils/tztime.c:1657-1840 | time2sub for any zone: refused exactly if the request cannot be normalised, the search finds nothing, tm_isdst is not met and no pair of types leads to a time that meets it, or localsub does not show that time moved by the saved seconds; otherwise that is the answer |
| `Time2Sub.InvertsFixedZones` | base/cutils/tztime.c:1657-1840 | in a zone of fixed offset time2sub inverts localsub if and only if the first year difference fits an int |
| `Time2Sub.FixedIsClear` | base/cutils/tztime.c:1755-1793 | in a zone of fixed offset nothing that is shown is skipped, and it is shown once |
| `Time2Sub.OrdinaryYearsAreShown` | base/cutils/tztime.c:1765-1775 | in every zone with its table in representable years, and for every year but the 2000 first and last, the first year difference fits and the assumption on NULL holds |
| `Time2Sub.FoundAroundOneType` | base/cutils/tztime.c:1755-1793 | and if one type is in force wherever an offset of the zone could lead to the request, it is not skipped, so the search finds it, at the one time that shows it |
| `Time2Sub.NothingSaved` | base/cutils/tztime.c:1761-1839 | with nothing saved, localsub of the answer equals the normalised request, denotes the same second, and matches tm_isdst when that was given |
| `ZoneRules.ZellerIsWeekday` | base/cutils/tztime.c:877-888 | for every year from 1 Zeller's congruence is the weekday of the day count |
| `ZoneRules.NthWeekday` | base/cutils/tztime.c:869-909 | Mm.n.d names the n-th such weekday of the month, and for 5 the last |
| `ZoneRules.JulianDayIsFixed` | base/cutils/tztime.c:847-858 | Jn names the same month and day in every year, never February 29 |
| `ZoneRules.DayOfYearIsYday` | base/cutils/tztime.c:860-867 | n names the day whose tm_yday is n, for 365 in a common year January 1 of the next |
| `ZoneRules.TransTime` | base/cutils/tztime.c:831-919 | transtime is the midnight of the day named plus the time of the rule and the offset |
| `ZoneRules.RulesRepeat` | base/cutils/tztime.c:831-919 | a rule names the same day 400 years later, by the calendar cycle |
| `ZoneRules.RuleTable` | base/cutils/tztime.c:1021-1051 | janfirst stays at January 1, so the table holds both changes of each of 600 years from 1970, ordered within the year |
| `ZoneRules.TableRepeats` | base/cutils/tztime.c:611-618 | table entries 800 apart are the same change 400 years later, as goback and goahead demand |
| `ZoneRules.TableIsSorted` | base/cutils/tztime.c:1024-1051 | the table is sorted if and only if the later change of each year does not come after the earlier change of the next |
| `ZoneRules.TableIsZone` | base/cutils/tztime.c:1011-1051 | under the same condition, and only then, it is a zone that localsub can search and fold, with goback and goahead set |
| `ZoneRules.RulesAreInForce` | base/cutils/tztime.c:1011-1051 | the zone obeys its rules in every year before, in and after the table - from the start to the end rule daylight saving time with its offset and tm_isdst 1, otherwise standard time with 0 - if and only if the types agree at the end of the table |
| `ZoneRules.StrictSeamAgrees` | base/cutils/tztime.c:1011-1051 | they do if the changes on either side of it do not coincide |
| `ZoneRules.SeamShowsStandardTime` | base/cutils/tztime.c:1011-1051 | they do not for daylight saving time all year round: the second at the end of the table shows standard time |
| `ZoneRules.YearsOutOfOrder` | base/cutils/tztime.c:1024-1051 | J365/167 and J1/0 give a table that is not |
| `IsoWeek.LeapSumIsLeap` | base/cutils/tzstrftime.c:420-422 | the leap test on a sum of two ints that avoids overflow is the leap test of the sum |
| `IsoWeek.Week` | base/cutils/tzstrftime.c:404-452 | for every tm_yday and tm_wday the ISO week loop ends with a number in 1..53, within two rounds from a day not before its year; for a weekday in range it gives the year and number of the week's Thursday if and only if that is not past the first week of the next year |
| `IsoWeek.LateDay` | base/cutils/tzstrftime.c:438-442 | day 400 of any common year is such a day: the loop says week 1, and its week is the fifth or sixth |
| `IsoWeek.IsoYearBounds` | base/cutils/tzstrftime.c:420-437 | bot and top are the Mondays on which the ISO year and the next one begin |
| `IsoWeek.YConvIsTheYear` | base/cutils/tzstrftime.c:677-713 | the two halves printed make up the year for all ints and never differ in sign |
| `SharedVector.SharedBuffer.Acquire` | base/utils/SharedBuffer.cpp:95-97 | one more owner |
| `SharedVector.SharedBuffer.Release` | base/utils/SharedBuffer.cpp:99-109 | one owner less; freed exactly when it was the last |
| `SharedVector.World.New` | base/utils/VectorImpl.cpp:43-46 | a new vector is empty and changes no other |
| `SharedVector.World.Clone` | base/utils/VectorImpl.cpp:48-55 | the copy shares the storage, holds the same items and changes no other vector |
| `SharedVector.World.NothingLeaks` | base/utils/VectorImpl.cpp:355-364 | mRefs being the number of vectors at a buffer, every buffer is freed once all vectors have let go |
| `SharedVector.World.StorageIsLive` | base/utils/SharedBuffer.cpp:44-109 | storage in use is counted and not freed; a count of one means one owner |
| `SharedVector.Vector.EditArray` | base/utils/VectorImpl.cpp:84-98 | afterwards the storage belongs to this vector alone; its contents and all other vectors are as before |
| `SharedVector.Vector.EditResize` | base/utils/SharedBuffer.cpp:57-75 | resizing keeps the items, in place for an only owner and else in a copy |
| `SharedVector.Vector.Grow` | base/utils/VectorImpl.cpp:366-420 | opens a gap at where, keeps all items around it and every other vector, and takes the capacity of the policy; for a size that fits the storage or for which neither the capacity nor its bytes wrap |
| `SharedVector.Vector.Shrink` | base/utils/VectorImpl.cpp:422-477 | takes exactly the given items out, keeps every other vector, and takes the capacity of the policy, where the test for that is right |
| `SharedVector.Vector.InsertArrayAt` | base/utils/VectorImpl.cpp:118-132 | inserts the items at the index, or refuses an index past the end and changes nothing; sizes as for Grow |
| `SharedVector.Vector.Push` | base/utils/VectorImpl.cpp:228-231 | appends the item and changes no other vector |
| `SharedVector.Vector.Pop` | base/utils/VectorImpl.cpp:217-221 | drops the last item, if any |
| `SharedVector.Vector.RemoveItemsAt` | base/utils/VectorImpl.cpp:271-281 | removes the stretch or refuses one past the end, for sums that the bounds test gets right |
| `SharedVector.RemovalGuard` | base/utils/VectorImpl.cpp:277-278 | the bounds test in a size_t is right if and only if index plus count does not wrap around to a size that the vector has |
| `SharedVector.GuardWraps` | base/utils/VectorImpl.cpp:277-278 | one item, index 1 and SIZE_MAX items to remove: the test lets them pass |
| `SharedVector.Vector.Clear` | base/utils/VectorImpl.cpp:290-293 | no items, other vectors as before |
| `SharedVector.Vector.ReplaceAt` | base/utils/VectorImpl.cpp:248-269 | replaces one item in this vector only, or refuses the index |
| `SharedVector.Vector.Finish` | base/utils/VectorImpl.cpp:283-288 | gives the storage up |
| `SharedVector.Vector.LetGo` | base/utils/VectorImpl.cpp:355-364 | release_storage: the count goes down, and the buffer is freed exactly with its last owner |
| `SharedVector.Vector.Assign` | base/utils/VectorImpl.cpp:66-82 | the contents of the right side without copying, self-assignment included; no other vector changes |
| `SharedVector.Vector.Sort` | base/utils/VectorImpl.cpp:164-215 | the contents become the stable sort of the old contents, in storage of its own |
| `SharedVector.Vector.SortedAdd` | base/utils/VectorImpl.cpp:577-587 | keeps strict order; the new item stands for its equals and every other item stays |
| `SharedVector.Vector.PushPop` | base/utils/VectorImpl.cpp:217-231 | any run of push and pop on a new vector moves at most five items per operation and keeps the count within a capacity of at most max(4, 3 * count) |
| `VectorPolicy.StepCost` | base/utils/VectorImpl.cpp:366-477 | one push or pop costs at most five by the potential and keeps the capacity bounds |
| `VectorPolicy.AmortisedMoves` | base/utils/VectorImpl.cpp:366-477 | from an empty vector every run of pushes and pops keeps the capacity bounds and moves at most five items per operation |
| `VectorPolicy.RequestIsEnough` | base/utils/VectorImpl.cpp:376-388 | for more than four items that fit the memory, what _grow asks for holds them if and only if neither three times their number plus one nor the bytes of the new capacity wrap |
| `VectorPolicy.GrowthWraps` | base/utils/VectorImpl.cpp:376-388 | 0x55555556 one-byte items in a 32-bit size_t: 20 bytes are asked for, a header and four items |
| `VectorPolicy.ShrinkTestIsRight` | base/utils/VectorImpl.cpp:433-437 | the test of _shrink is right if and only if three times the size does not wrap to less than the capacity |
| `VectorPolicy.ShrinkWraps` | base/utils/VectorImpl.cpp:433-437 | 3 * 2^30 items of one byte in a 32-bit size_t: the test says that the storage is too large, and the new capacity would be less than the items |
| `VectorSort.Sort` | base/utils/VectorImpl.cpp:164-215 | the in-place insertion sort computes the specification sort and leaves the rest of the array alone |
| `VectorSort.Lift` | base/utils/VectorImpl.cpp:177-204 | an out-of-order item is lifted to its place among the sorted items before it |
| `VectorSort.ShiftUp` | base/utils/VectorImpl.cpp:193-201 | exactly the greater items move up one place |
| `VectorSort.SortedIsStableSort` | base/utils/VectorImpl.cpp:164-215 | the specification sort is ordered, a permutation, and keeps the order of items that compare equal |
| `VectorSort.IndexOrderOf` | base/utils/VectorImpl.cpp:551-575 | the search finds the item, or the place with everything before less and everything after greater |
| `VectorSort.AddKeepsOrder` | base/utils/VectorImpl.cpp:577-587 | adding there keeps the order strict and replaces exactly the equal item |
| `XMem.Scan` | base/common/xmem.c:101-131 | the scan stops at the first snug block or else at the first of the shortest that fit; none only if all are too short |
| `XMem.AlignedFits` | base/common/xmem.c:94-97 | in a buffer of up to 0xfffffff3 bytes the first limit does not wrap for a request that fits, so a piece to be cut off is no longer than its block, and what is taken serves the request |
| `XMem.WholeBufferGoesWrong` | base/common/xmem.c:94-146 | in every longer buffer a request for all of it wraps the first limit, and a piece longer than the block, or of no length, is cut off |
| `XMem.Allocator.constructor` | base/common/xmem.c:288-331 | one free block over the whole buffer |
| `XMem.Allocator.Reset` | base/common/xmem.c:333-347 | the same again |
| `XMem.Allocator.Take` | base/common/xmem.c:109-120 | unlinks the block from the free list into use; layout and lengths stay |
| `XMem.Allocator.Split` | base/common/xmem.c:137-146 | the end of a free block becomes a block in use, and both tile what was one |
| `XMem.Allocator.Alloc` | base/common/xmem.c:88-167 | fails exactly when every free block is too short; else it takes the first snug or else the first of the shortest blocks, the block wastes at most 50 bytes, was not in use, and no other block in use changes; what is left of a block that is cut is at least twice the threshold if and only if the limit for that does not wrap; the tiling is kept |
| `XMem.Allocator.JoinBefore` | base/common/xmem.c:195-201 | the freed block is joined to the free block before it |
| `XMem.Allocator.JoinBehind` | base/common/xmem.c:202-216 | the freed block takes in the free block behind it and its place in the list |
| `XMem.Allocator.Push` | base/common/xmem.c:172-176 | without a free neighbour the block goes to the head of the list |
| `XMem.Allocator.Free` | base/common/xmem.c:181-237 | the block is joined to the first free block of the list that lies just before or just behind it, one block over both with their lengths and a header, or else goes to the head of the list; no other block in use changes, and the tiling is kept |
| `XMem.Allocator.FreeInfo` | base/common/xmem.c:383-398 | the number of free blocks and the sum of their lengths |
| `XMem.Allocator.BlocksInUse` | base/common/xmem.c:88-237 | two blocks in use never overlap, lie inside the buffer, are long enough, waste at most 50 bytes and are not free |
| `XMem.Allocator.NothingIsLost` | base/common/xmem.c:88-331 | headers, free bytes and used bytes always add up to the buffer |
| `XMem.TilesApart` | base/common/xmem.c:88-237 | blocks that tile the buffer do not overlap and stay inside it |
| `HashMap.IndexInRange` | base/cutils/hashmap.c:97-99 | for a power of two the mask is the remainder of the unsigned hash, so the index is a bucket |
| `HashMap.RoomIsExact` | base/cutils/hashmap.c:53-59 | for every size_t, a number of buckets that the doubling loop can stop at has room for initialCapacity keys if and only if the product with four does not wrap |
| `HashMap.RoomCanWrap` | base/cutils/hashmap.c:53-59 | 2^62 keys: the product wraps to 0, one bucket is made, and three quarters of it hold nothing |
| `HashMap.Hashmap.constructor` | base/cutils/hashmap.c:43-75 | an empty map with a power of two of buckets; three quarters of them take initialCapacity keys if and only if four times that many fit a size_t |
| `HashMap.Hashmap.Locate` | base/cutils/hashmap.c:189-219 | the walk along a chain finds the one stored key that equals the key, or there is none |
| `HashMap.Hashmap.Get` | base/cutils/hashmap.c:221-234 | the value of the equal stored key, or none |
| `HashMap.Hashmap.ContainsKey` | base/cutils/hashmap.c:236-249 | true exactly when some stored key equals the key |
| `HashMap.Hashmap.Put` | base/cutils/hashmap.c:189-219 | refines the map update, keeping an equal stored key, and returns the old value; resizes only past three quarters |
| `HashMap.Hashmap.Memoize` | base/cutils/hashmap.c:251-282 | the stored value, or the initial value, now stored |
| `HashMap.Hashmap.Remove` | base/cutils/hashmap.c:284-304 | refines removal from the map and returns the value removed |
| `HashMap.Hashmap.ExpandIfNecessary` | base/cutils/hashmap.c:101-130 | keeps the map, restores size <= 3/4 of the buckets, and does nothing up to that load |
| `HashMap.Hashmap.Rehash` | base/cutils/hashmap.c:112-123 | every entry, and nothing else, sits in the bucket of its hash among twice as many |
| `HashMap.Hashmap.Fill` | base/cutils/hashmap.c:43-75 | adding as many keys as there is room for never resizes, and all of them are there |
| `RecordStream.EndIsFrame` | base/cutils/record_stream.c:70-90 | an end is found if and only if the bytes begin with the frame of some record; it is the end of that frame, and the bytes between are that record |
| `RecordStream.EndIsExact` | base/cutils/record_stream.c:70-90 | the pointer sum finds that end if and only if it does not pass the end of the address space |
| `RecordStream.HeaderWraps` | base/cutils/record_stream.c:79-90 | a header of 0xfffffffc with 32-bit pointers: the record seems to end where it begins |
| `RecordStream.HeaderIsBigEndian` | base/cutils/record_stream.c:79-80 | the header of a length is its four base-256 digits, the most significant first |
| `RecordStream.ParseFrames` | base/cutils/record_stream.c:70-109 | parsing the frames of records gives the records back, whatever follows |
| `RecordStream.ParsedIsFrame` | base/cutils/record_stream.c:70-109 | a complete frame is the frame of its body |
| `RecordStream.DeliveredIsPrefix` | base/cutils/record_stream.c:124-183 | for every cut of the stream the records delivered are a prefix of those sent, in order, and all of them once nothing is to come and no complete frame is pending |
| `RecordStream.PendingOfFrames` | base/cutils/record_stream.c:70-90 | the header pending is that of the next record to deliver |
| `RecordStream.RecordStream.constructor` | base/cutils/record_stream.c:44-61 | an empty stream with room for the longest record and its header |
| `RecordStream.RecordStream.NextRecord` | base/cutils/record_stream.c:92-109 | hands out the next frame exactly if it is complete, and takes exactly that off the pending bytes |
| `RecordStream.RecordStream.Compact` | base/cutils/record_stream.c:150-161 | the pending bytes move to the beginning unchanged |
| `RecordStream.RecordStream.Receive` | base/cutils/record_stream.c:163-171 | bytes read arrive behind the pending ones |
| `RecordStream.RecordStream.GetNext` | base/cutils/record_stream.c:124-183 | for any answers of read(): a pending frame is handed out without reading; otherwise it gives up exactly with a full buffer, and else asks once, for all the room there is; end of file and errors are passed on, bytes join the input, and a record is handed out exactly if they complete the frame |
| `RecordStream.RecordStream.TakeIn` | base/cutils/record_stream.c:163-182 | what follows one answer of read() |
| `RecordStream.RecordStream.Drain` | base/cutils/record_stream.c:111-183 | a caller that goes on until the end of the stream, however read() cuts the text and fails in between, gets exactly the records of the text, and all records sent if none is longer than maxRecordLen |
| `RecordStream.RecordStream.NeverTooLong` | base/cutils/record_stream.c:139-148 | with every record at most maxRecordLen the full-buffer assertion is unreachable |
| `MsgQueue.LinkHeaders` | base/common/hi_msg_queue.c:192-205 | the linking loop chains headers that are Needed bytes apart, all different, and links one even for no elements |
| `MsgQueue.MessageInit` | base/common/hi_msg_queue.c:174-221 | the pool starts with all messages free and an empty queue; every message has its token, and the invariant holds, if and only if there is an element at all |
| `MsgQueue.ApplyKeepsInv` | base/common/hi_msg_queue.c:26-93 | every step of add, remove and timed remove, one pointer access at a time, keeps the invariant of lists, tokens, mutexes and places |
| `MsgQueue.RunKeepsInv` | base/common/hi_msg_queue.c:26-93 | the invariant holds and the pool stays the same in every interleaving from message_init_generic |
| `MsgQueue.PoolIsPartitioned` | base/common/hi_msg_queue.c:26-93 | in every interleaving the free list, the queue, the calls in flight and the clients partition the original pool |
| `MsgQueue.RemoverFindsMessage` | base/common/hi_msg_queue.c:75-84 | a remover that got its token finds a non-empty list with head set |
| `MsgQueue.InterruptedWait` | base/common/hi_msg_queue.c:75-84 | a sem_wait that a signal interrupts, whose result is not looked at, leads to a NULL head if and only if the list is empty |
| `MsgQueue.RemovalIsSafeAndInOrder` | base/common/hi_msg_queue.c:65-93 | in every interleaving removers find head set, and messages leave a list in the order in which they were linked |
| `MsgQueue.OnlyLocksBlock` | base/common/hi_msg_queue.c:26-93 | in every interleaving a thread inside a call waits for nothing but a mutex or a semaphore: no pointer it follows is NULL |
| `MsgQueue.NoDeadlock` | base/common/hi_msg_queue.c:26-93 | in every interleaving in which no thread can go on, every thread inside a call waits for a message at a semaphore that is 0: the mutexes never deadlock |
| `MsgQueue.TokensMatchMessages` | base/common/hi_msg_queue.c:26-93 | in every interleaving the list length is the semaphore plus the credits in flight |
| `MsgQueue.TimedOutTakesNothing` | base/common/hi_msg_queue.c:271-332 | in every interleaving each poll of a timed remove that gives up found the semaphore at 0 and touched nothing of the pool; there were exactly limit / 10 + 1 of them, and more only for the five longest limits, at which the 32-bit counter wraps |
| `MsgQueue.PollsCounted` | base/common/hi_msg_queue.c:271-297 | the number of polls, over every trace of the poll loop alone |
| `MsgQueue.FinishedAddHasLinked` | base/common/hi_msg_queue.c:26-63 | in every interleaving a finished add on a half has, in exactly one step, appended its message to the list of that half, and touched no list otherwise |
| `MsgQueue.FinishedRemoveHasTaken` | base/common/hi_msg_queue.c:65-93 | in every interleaving a finished remove on a half has, in exactly one step, taken the first message off the list of that half and given it to its client; a timed one has done so or touched no list |
| `MsgQueue.CallsAreShort` | base/common/hi_msg_queue.c:26-93 | in every interleaving a call takes at most six steps, polls aside |
| `Utf8Lead.TableLength` | base/cutils/strdup8to16.c:27-28 | the shifted constant gives 1 to 4 by the leading one bits of every byte |
| `JavaUtf8.CopyFitsCount` | base/cutils/strdup8to16.c:68-174 | for every byte string, valid or not, strcpy8to16 writes at most the units strlen8to16 counts |
| `JavaUtf8.CopySplits` | base/cutils/strdup8to16.c:110-174 | text that starts at a sequence boundary converts as it would alone, whatever broken bytes precede it |
| `JavaUtf8.CountSplits` | base/cutils/strdup8to16.c:68-99 | the length pass splits at the same places |
| `JavaUtf8.EncodeIsCString` | base/cutils/strdup16to8.c:105-135 | no byte written before the terminator is zero; one to three bytes per unit |
| `JavaUtf8.RoundTrip` | base/cutils/strdup16to8.c:105-135 | strcpy8to16 of what strncpy16to8 writes is the original string of units, surrogates and zeros included, and strlen8to16 counts it exactly |
| `JavaUtf8.StrLen8To16` | base/cutils/strdup8to16.c:68-99 | the loop, with its counter of expected bytes in an int, computes the count; it is exact if and only if no run of extension bytes is too long for an int, as never in 2^31 bytes; then it is enough for the copy, and without four-byte sequences only then |
| `JavaUtf8.CountIsExact` | base/cutils/strdup8to16.c:75-87 | the count in an int equals the count without bound if and only if every run of extension bytes fits |
| `JavaUtf8.CountIsEnough` | base/cutils/strdup8to16.c:68-174 | the count in an int is enough for the copy if every run of extension bytes fits, and without first bytes of 0xf0 and more only then |
| `JavaUtf8.CountFallsShort` | base/cutils/strdup8to16.c:68-174 | 2^31 + 1 stray extension bytes: 2^31 units are counted and one more is written |
| `JavaUtf8.NextUtf32` | base/cutils/strdup8to16.c:110-140 | the decoder never passes the end and stops at a byte that does not continue the sequence |
| `JavaUtf8.StrCpy8To16` | base/cutils/strdup8to16.c:148-174 | in any destination that holds the converted text every write lands inside and makes up that text, and nothing behind it changes |
| `JavaUtf8.StrDup8To16` | base/cutils/strdup8to16.c:43-60 | for every text: refuses exactly when the size of the request would overflow; overruns its buffer exactly when the count falls short of the copy, which it never does where CountIsExact holds; else a fresh copy |
| `JavaUnicode.CompleteIsPoint` | base/cutils/strdup8to16.c:110-140 | a first byte with all its extension bytes, well formed or not, is read as the value that utf8_to_utf32_codepoint reads |
| `JavaUnicode.BrokenIsReplaced` | base/cutils/strdup8to16.c:110-140 | a broken sequence or a stray extension byte becomes one replacement, and the byte that breaks it is read anew |
| `JavaUnicode.CompleteOrBroken` | base/cutils/strdup8to16.c:110-140 | every sequence is one or the other |
| `JavaUnicode.WellFormedIsConverted` | base/cutils/strdup8to16.c:148-174 | well-formed UTF-8 becomes the UTF-16 of its code points, surrogate pairs in order, with replacements past 0x10fffd |
| `JavaUnicode.SameAsUtf8ToUtf16` | base/cutils/strdup8to16.c:148-174 | strcpy8to16 writes what utf8_to_utf16 writes if and only if no code point is past 0x10fffd |
| `JavaUnicode.PastLimitIsReplaced` | base/cutils/strdup8to16.c:161-171 | the two code points past it are inputs for which they differ |
| `JavaUtf8.StrNLen16To8` | base/cutils/strdup16to8.c:28-92 | fast and slow path alike give the exact length, held at SIZE_MAX - 1 |
| `JavaUtf8.WatchedLength` | base/cutils/strdup16to8.c:67-91 | the slow path detects every wrap-around |
| `JavaUtf8.StrNCpy16To8` | base/cutils/strdup16to8.c:105-135 | writes exactly the bytes counted and one terminator, and nothing behind it |
| `JavaUtf8.StrNDup16To8` | base/cutils/strdup16to8.c:141-166 | refuses exactly the saturated lengths; else a fresh terminated copy |
| `JavaUnicode.UnitIsUtf8` | base/cutils/strdup16to8.c:105-135 | a unit is written as UTF-8 does, but zero as c0 80 and a surrogate in three bytes of its own |
| `JavaUnicode.SameAsUtf16ToUtf8` | base/cutils/strdup16to8.c:105-135 | text of the basic plane without zeros is written as utf16_to_utf8 writes it |
| `Unicode.EncodingIsUtf8Char` | base/utils/Unicode.cpp:79-115 | a scalar value is written as a UTF8-char of section 4 of RFC 3629 and read back |
| `Unicode.Utf8CharIsEncoding` | base/utils/Unicode.cpp:489-517 | every UTF8-char is read as a scalar value whose encoding it is |
| `Unicode.OnesAreRead` | base/utils/Unicode.cpp:146-151 | the mask loop counts the leading one bits of every byte |
| `Unicode.MarksVanish` | base/utils/Unicode.cpp:135-157 | for every first byte of two to six leading one bits the value is the payload of the first byte and six bits of each byte behind it, without bound |
| `Unicode.DecodersAgree` | base/utils/Unicode.cpp:135-157 | the decoders of the UTF-32 and the UTF-16 converter agree on the same bytes, well formed or not, if and only if the first is no extension byte |
| `Unicode.SamePoint` | base/utils/Unicode.cpp:135-157 | on UTF8-chars the decoder of the UTF-32 converter agrees with that of the UTF-16 converter |
| `Unicode.Decoded8` | base/utils/Unicode.cpp:191-206 | scalar values written as UTF-8 are well formed and read back |
| `Unicode.Encoded8` | base/utils/Unicode.cpp:489-517 | well-formed UTF-8 reads as scalar values that are written back as the same bytes |
| `Unicode.Encoded16` | base/utils/Unicode.cpp:332-357 | every string of units, lone surrogates included, is what its code points are written as |
| `Unicode.Decoded16` | base/utils/Unicode.cpp:545-569 | scalar values written as UTF-16 are well formed and read back |
| `Unicode.Utf8RoundTrip` | base/utils/Unicode.cpp:332-569 | well-formed UTF-8 survives the way to UTF-16 and back |
| `Unicode.Utf16RoundTrip` | base/utils/Unicode.cpp:332-569 | well-formed UTF-16 survives the way to UTF-8 and back |
| `Unicode.Utf32RoundTrip` | base/utils/Unicode.cpp:191-487 | scalar values survive the way to UTF-8 and back |
| `Unicode.Utf8ThroughUtf32` | base/utils/Unicode.cpp:191-487 | well-formed UTF-8 survives the way to UTF-32 and back |
| `Unicode.LengthShortfall` | base/utils/Unicode.cpp:406-425 | utf16_to_utf8_length is short by exactly four bytes for each low surrogate that ends an even run of high ones, so it equals what utf16_to_utf8 writes if and only if there is none |
| `Unicode.WellFormedHasNoRuns` | base/utils/Unicode.cpp:406-425 | well-formed UTF-16 has none |
| `Unicode.ShortfallExample` | base/utils/Unicode.cpp:406-425 | high, high, low: nothing measured, four bytes written |
| `Transcoders.WriteCodepoint` | base/utils/Unicode.cpp:105-115 | writing backwards through the cases gives the encoding of the code point and nothing else |
| `Transcoders.Utf32To8Length` | base/utils/Unicode.cpp:177-189 | for every input exactly the bytes utf32_to_utf8 writes, or -1 for none |
| `Transcoders.Utf32To8` | base/utils/Unicode.cpp:191-206 | writes the encoding and a terminator; for an empty source nothing |
| `Transcoders.Utf16ToUtf8` | base/utils/Unicode.cpp:332-357 | writes the encoding of the code points and a terminator; for an empty source nothing |
| `Transcoders.Utf16To8Length` | base/utils/Unicode.cpp:406-425 | the loop with its early step; exact if and only if no even run of high surrogates ends in a low one |
| `Transcoders.ReadPoint32` | base/utils/Unicode.cpp:135-157 | reads the bytes of the leading one bits of every first byte and keeps the payload bits only; of seven and eight bytes what the machine leaves |
| `Transcoders.Utf8To32Length` | base/utils/Unicode.cpp:447-470 | counts the first bytes it lands on, for all bytes |
| `Transcoders.CountsPoints32` | base/utils/Unicode.cpp:447-487 | that is the number of code points utf8_to_utf32 writes, even where the last sequence runs past the text |
| `Transcoders.PointsOfText32` | base/utils/Unicode.cpp:472-487 | on text that ends with a whole sequence nothing behind it is read |
| `Transcoders.Utf8To32` | base/utils/Unicode.cpp:472-487 | writes the code points read from the memory and a terminator |
| `Transcoders.Utf8To16Length` | base/utils/Unicode.cpp:519-543 | -1 exactly when the announced lengths do not end at the end of the text, else exactly the units the converter writes |
| `Transcoders.Utf8ToUtf16` | base/utils/Unicode.cpp:545-574 | writes the units of the code points read from the memory and a terminator; for text that ends with a whole sequence those of the text |
| `Transcoders.PointsOfText` | base/utils/Unicode.cpp:545-569 | on text that ends with a whole sequence nothing behind it is read |
| `Transcoders.FittedIsPrefix` | base/utils/Unicode.cpp:576-604 | what fits is the text of a prefix of whole code points, and no longer such prefix fits |
| `Transcoders.Utf8ToUtf16N` | base/utils/Unicode.cpp:576-604 | returns the end of the whole code points that fit, for every readable memory, and writes nothing past the buffer; on framed text that is the longest such prefix |

## Left out

- Leap seconds (base/cutils/tztime.c:1414-1441): the model has none, as for a zone with leapcnt 0.
- Loading zone files, parsing TZ strings, the zone cache, time1 and time2: input and output, text parsing, and guesses over daylight saving types; a sorted table is the input.
- Time2Sub.Search: of a request that some change of offset skips and that another time shows nevertheless, it is not said exactly when it is found, only where the probes lead (`Leads`), as that depends on every probe; `SkippedIsLost` gives one that is not.
- RefBase.RunKeepsInv: sequentially consistent steps and fewer than 2^28 - 1 references; no extendObjectLifetime while references exist, no forceIncStrong, no DEBUG_REFS tracking, no virtual callbacks.
- XMem.Allocator.Alloc: the handle table, the counters behind x_get_mem_status, the mutex and x_release_mem are not modelled.
- XMem.Allocator.constructor: buffers up to 0xfffffff3 bytes; `WholeBufferGoesWrong` shows that the code does not work in a longer one.
- XMem.Allocator.Free: a block that is in use, or NULL, as x_free expects; an address that was never handed out is not modelled.
- Maximal coalescing in xmem.c: freeing joins one neighbour, by XMem.Allocator.Free, so two free blocks may lie side by side.
- HashMap.Hashmap.Put: allocation succeeds, so there are fewer than 2^61 buckets and three times their number fits a size_t; hashmapLock, hashmapFree, hashmapForEach and the scrambling in hashKey are not modelled (the scrambled hash is the hash of the model).
- SharedVector.Vector.InsertArrayAt: the items do not lie inside the vector itself; setCapacity, resize and the merge of sorted vectors are not modelled.
- SharedVector.Vector.Grow: sizes for which `RequestIsEnough` shows that the memory asked for is enough; beyond them the code writes memory that is not its own, for which there is no answer to model.
- SharedVector.Vector.Shrink: sizes for which `ShrinkTestIsRight` shows the test to be right; the same.
- SharedVector.Vector.RemoveItemsAt: sums that `RemovalGuard` shows to be tested right; the same.
- SharedVector.Vector.Sort: item constructors and destructors are not modelled, and allocation succeeds; the sort of the items runs on a copy of the buffer that is then written back.
- RecordStream.RecordStream.GetNext: errno and the file descriptor are not modelled; read() is any function from the room asked for to bytes, end of file or an error; the buffer lies where no header makes the pointer sum of `EndIsExact` wrap.
- MsgQueue.RunKeepsInv: pools of at least one element; creation, deletion and the NULL-argument checks of the public functions are not modelled, mutex operations succeed, and no signal interrupts sem_wait; `InterruptedWait` says what one would do.
- JavaUtf8.StrDup8To16: where the count falls short it says that the buffer is overrun, and nothing about the memory behind it.
- JavaUtf8.StrNLen16To8: for every SIZE_MAX of at least 65535, the least that C99 allows.
- strcpylen8to16 (base/cutils/strdup8to16.c:182-208): the same loop with another end test.
- Transcoders.ReadPoint32: for the first bytes 0xfe and 0xff the code shifts by more than the width of a word, which the language leaves undefined; the model takes it to give some value of the machine, any one.
- Transcoders.Utf8To32: a memory in which the bytes announced can be read, if need be behind the text.
- Transcoders.Utf8ToUtf16: a memory in which the bytes announced can be read, if need be behind the text; reading an unmapped address has no answer to model.
- Transcoders.Utf8ToUtf16N: the same.
- utf8_length, strlen16, strcmp16 and their kin in base/utils/Unicode.cpp: plain scans in which nothing rests on an invariant.
- Sockets, ashmem, properties, scheduling, logging, timers, directory hashing and the Binder and Parcel headers: input, output and declarations without code.
