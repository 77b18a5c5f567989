# Rabbit contest record manager and election simulation: the sequential core

This is a Dafny model of two small C programs and the logic they run between their process plumbing.

- **handin/main.c** is a text-menu record manager for rabbits entered in an egg-collecting contest.
  - It keeps a global list of nullable record pointers: `list.iterator`, with `count` slots in use, `freed` of them NULL tombstones, and capacity `size`.
  - Records are added, removed and changed at a prompt, and every text a prompt takes is screened by a checker.
  - Deletion leaves tombstones. Once `MANAGE_LIMIT` (5) tombstones have piled up, the list is compacted and shrunk.
  - The contest sends each live record to whichever of two inspectors covers its area. The inspectors answer with an egg count per rabbit, and the judge keeps the first result with the strictly largest count.
- **practice/main.c** is an election simulation.
  - The president generates voters into a `t_batch`, a vector that doubles its capacity when full.
  - The first child marks each voter valid or invalid.
  - The second child counts the valid voters and casts one vote per valid voter.
  - The president tallies the votes per party and names the first party with the most votes.

The files are:

- `common.dfy` (module `Common`) holds what both programs share:
  - the nullable slot `Option`;
  - the C remainder;
  - `randomBetween`, with the value `rand()` returned as a parameter;
  - the "first strict maximum" rule both winner loops follow.
- `records.dfy` (module `Records`) holds:
  - the record `Person`;
  - the validators;
  - the view of a slot array as the sequence of live records it holds (`LiveOf`), with its tombstone count (`NullCount`).
- `store.dfy` (module `RecordStore`) holds the class `Store`: the global list with its `array<Option<Person>>` and three counters.
  - Its invariant `Valid()` states three things: `size` is the array length, `count < size`, and `freed` is the number of NULL slots among the first `count`.
  - The operations that add, remove or change records are stated both on the slots and on the ghost view `Live()`. `GrowTo` and `MoveLiveToFront`, the internal steps of growing and compacting, are stated on the slots.
- `contest.dfy` (module `Contest`) holds the judge's routing loop and winner loop, and `startContest` assembled from them.
- `election.dfy` (module `Election`) holds the class `Batch` (`t_batch`) and the election's data flow.
  - Each stage is a specification function over sequences: `Generated`, `Marked`, `ValidVoters`/`SumValid`, `CastOf`, `CountParty`.
  - The loop that runs the stage is a method proved against that function.
  - `RunElection` chains the stages the way the processes do.

Interactive input is modelled by the text the user finally gives. The prompt function `checkedReadIntoBuffer` asks again while a checker refuses the input, until the user declines. So an input that fails its checker means the user gave up, and the operation is abandoned without changes.

Random numbers enter as parameters. A draw is the non-negative value one `rand()` call returned.

## Model

| member | source | states |
|---|---|---|
| Common.CRem | handin/main.c:764 | C `%` with a non-negative dividend lies between 0 and the divisor's magnitude (exclusive) and is the dividend itself when that is smaller than the divisor |
| Common.RandomBetween | handin/main.c:763-765 | `randomBetween(lower, upper)` lies in `[lower, upper]` for every non-negative `rand()` value when `lower <= upper` (practice/main.c:424-426 is the same function) |
| Common.RandomBetweenCovers | practice/main.c:424-426 | every value of `[lower, upper]` is produced by some `rand()` value |
| Common.FirstMaxUnique | practice/main.c:295-302 | a strictly-greater scan from below every element settles on one index only: the first maximum is unique |
| Records.LengthChecker | handin/main.c:174-177 | `lengthChecker` accepts exactly the texts whose length lies within `args[0]..args[1]` |
| Records.DecimalPositiveIffNonZeroDigit | handin/main.c:221-225 | a non-empty all-digit text has a positive `atoi` value iff one of its digits is not '0' |
| Records.DigitsAccepted | handin/main.c:212-226 | `lengthAndOnlyDigitsAndIsPositiveChecker` accepts exactly: the length bounds hold, and the text is empty or all digits with a positive value |
| Records.DigitsOkMeaning | handin/main.c:212-226 | both directions: a non-empty input is accepted iff it is in bounds, all digits and not all zeros; the empty input is accepted iff the bounds allow length 0 |
| Records.ZeroCountsRefused | handin/main.c:215-225 | "0" and "000" are refused, "007" is accepted as 7, and "" is accepted with `{0, 5}` but refused with `{1, 5}` |
| Records.AreaAccepted | handin/main.c:193-204 | `validAreaChecker` accepts exactly the seven listed area names |
| Records.AreaOrEmptyAccepted | handin/main.c:206-210 | `validAreaOrEmptyChecker` accepts exactly the empty text and the seven area names |
| Records.LiveLength | handin/main.c:665-667 | live records plus NULL slots make up all used slots, so `count - freed` is the number of live records |
| Records.MoveKeepsLive | handin/main.c:626-629 | moving a record into an earlier NULL slot over only NULL slots, and nulling its old slot, keeps the live records and their order |
| Records.FreeLiveSlot | handin/main.c:432-434 | nulling a live slot drops that one record from the live view and adds one NULL slot |
| Records.ReplaceLiveSlot | handin/main.c:494-498 | overwriting a live record in place replaces it at its position in the live view and leaves the NULL count alone |
| Records.LiveHasName | handin/main.c:184-188 | some used non-NULL slot holds the name iff some live record has it |
| Records.FirstNamed | handin/main.c:461-462 | the first used non-NULL slot with the name, or `count` when there is none; no earlier slot matches |
| Records.TombAllLive | handin/main.c:430-437 | freeing every slot named `name` leaves exactly the live records with other names, in order, and adds one tombstone per dropped record |
| Records.WithoutNameDropsExactly | handin/main.c:430-437 | after the deletion loop no live record has the name, every other record is kept, and nothing new appears |
| RecordStore.Store.constructor | handin/main.c:129-131 | the initial `growIterator(INIT_SIZE)`: capacity 10, no slot used, nothing freed |
| RecordStore.Store.EntryCount | handin/main.c:665-667 | `getEntryCount` is the number of live records |
| RecordStore.Store.GrowTo | handin/main.c:640-651 | `growIterator` gives capacity `newSize`, keeps the slots both sizes share, and the counters are unchanged |
| RecordStore.Store.Append | handin/main.c:713-716 | the record goes to slot `count`, `count` rises by one, earlier slots are unchanged, `size` grows by 5 exactly when the list became full, `count < size` again, and the live view gains the record at its end |
| RecordStore.Store.AddItem | handin/main.c:380-417 | the record is appended iff the name is 1..127 long and unused, the area is valid and the count is 1..5 digits with a positive value; on success `count` rises by one into the new record's slot, `freed` is unchanged and `size` grows by 5 exactly when the list became full; otherwise the slots and counters are unchanged; distinct names stay distinct |
| RecordStore.Store.NameAccepted | handin/main.c:179-191 | `lengthAndAlreadyExistsChecker` accepts iff the length bounds hold and no live record has the name |
| RecordStore.Store.Tombstone | handin/main.c:428-437 | every live slot with the name becomes NULL and the others are unchanged; `freed` and `dropped` rise by exactly the number of records dropped |
| RecordStore.Store.MoveLiveToFront | handin/main.c:620-631 | the nested compaction loops put the live records, in their order, into slots `[0, count - freed)` and leave NULL behind them |
| RecordStore.Store.Compact | handin/main.c:617-638 | `manageAllocatedSpace` changes nothing while `freed < 5`; otherwise the live records fill `[0, count - freed)` in order, `count` drops by `freed`, `freed` becomes 0 and `size` becomes `size - freed + 1`; the live records are unchanged in both cases |
| RecordStore.Store.Remove | handin/main.c:419-449 | a name the prompt refuses deletes nothing; otherwise exactly the records with that name disappear, the others stay in order, none with the name is left, and `dropped` is how many went; a refused name leaves slots and counters unchanged; after a deletion the counters are compacted (`count` and `size` lose the tombstones, `freed` is 0) exactly when the tombstones reach 5, so after any deletion fewer than 5 remain; without compaction every used slot holding the name becomes NULL and the others are untouched, and after compaction the used slots hold the live records one per slot in order |
| RecordStore.Store.RemoveAll | handin/main.c:718-731 | no live record is left and `getEntryCount() == 0`; the counters are compacted exactly when there were live records and at least 5 used slots |
| RecordStore.Store.FindNamed | handin/main.c:461-462 | the search of `changeItem` stops at the first used slot with the name, or at `count` |
| RecordStore.Store.Change | handin/main.c:451-511 | the record changes iff the target is found and every new value passes its checker; only the first matching slot is written, so the changed record keeps its place in the live view and the other records are unchanged; an empty name, area or count keeps the old value |
| Contest.InspectorResults | handin/main.c:303-309 | an inspector answers one result per contestant, in order, with the contestant's name and 1..100 eggs |
| Contest.RoutingCoversValid | handin/main.c:258-260 | a record with a valid area reaches exactly one inspector, so the two inspectors together receive every live record |
| Contest.Route | handin/main.c:323-334 | inspector `j` is sent exactly the live records whose area it lists, in slot order, and `contestantCount[j]` is how many |
| Contest.RoutedTo | handin/main.c:325-334 | what an inspector is sent is never more than the live records |
| Contest.RoutedNames | handin/main.c:328-329 | every record an inspector receives is a live record |
| Contest.ResultsFromLive | handin/main.c:303-309 | every result the judge reads from the two inspectors names a live record and counts 1..100 eggs |
| Contest.PickWinner | handin/main.c:347-366 | the winner is the first result with the strictly largest count, or has count -1 when no result beats -1 |
| Contest.WinningCountOrderIndependent | handin/main.c:348-371 | the winning egg count does not depend on the order the inspectors finish in |
| Contest.StartContest | handin/main.c:257-378 | no contest without live records; otherwise the winner is the first result with the strictly largest count among the two inspectors' results in the order they finish, when no result beats -1 (in particular when neither inspector is sent a record) the winner keeps `collected == -1`; and with every area valid it is a live record's name with 1..100 eggs |
| Election.Batch.Init | practice/main.c:343-350 | `batchInit` gives size 0 and capacity 10 |
| Election.Batch.Add | practice/main.c:352-364 | the item is stored after the earlier ones, which are kept; size rises by one; capacity doubles exactly when the batch was full; `size <= cap` always holds |
| Election.Batch.Destroy | practice/main.c:366-372 | `batchDestroy` sets size and capacity to 0 and the buffer to NULL |
| Election.Generated | practice/main.c:239-245 | `count` voters (none for `count <= 0`), each with `voted_for == -1`, `is_valid == 0` and an id in `[10000, 99999]` |
| Election.GenerateVoters | practice/main.c:239-245 | the president's loop fills a fresh batch with exactly the generated voters |
| Election.ValidityOf | practice/main.c:121 | `randomBetween(1, 100) > 20` marks a voter valid (1) exactly when the draw's last two decimal digits are at least 20, and invalid (0) otherwise |
| Election.EightyOfEveryHundred | practice/main.c:121 | of any 100 consecutive draw values (`start` to `start + 99`) exactly 80 mark a voter valid |
| Election.Marked | practice/main.c:120-122 | validation keeps every id and `voted_for` and sets each `is_valid` to 0 or 1 |
| Election.MarkValidity | practice/main.c:120-122 | the loop updates the first child's buffer in place to the marked batch |
| Election.SumValidCounts | practice/main.c:179-181 | with 0/1 flags, summing `is_valid` counts the valid voters, never more than the batch |
| Election.Tabulate | practice/main.c:178-182 | `valid_votes` is the sum of the flags, `valid + invalid` is the batch size, and with 0/1 flags `valid_votes` is the number of valid voters |
| Election.CastMatchesValid | practice/main.c:195-202 | exactly one vote per valid voter, in batch order, with that voter's id, none for an invalid voter, and every party in `1..6` |
| Election.CastVotes | practice/main.c:195-202 | the second child's loop emits exactly the votes `CastOf` describes |
| Election.Tally | practice/main.c:279-287 | after reading `valid_votes` votes, `results[p]` counts the votes for party `p + 1` and the totals sum to `valid_votes` |
| Election.PickWinnerParty | practice/main.c:295-302 | the winner is the first party with the maximum total, by strictly-greater comparison; -1 only when no total exceeds -1 |
| Election.ExampleWinner | practice/main.c:295-302 | totals `[3, 5, 5, 2, 0, 1]` make party 2 the winner |
| Election.CountCastTally | practice/main.c:178-302 | from a validated batch: valid plus invalid is the batch size, valid is the number of valid voters, each total counts its party's votes, the totals sum to the valid count, and the winner is a party in `1..6` with the first maximum total |
| Election.RunElection | practice/main.c:239-302 | end to end: valid plus invalid is the voter count, valid is the number of voters found valid, each total counts its party's votes, the totals sum to the valid count, and the winner is a party in `1..6` with the first maximum total |

## Left out

- Processes and synchronisation are not modelled. This covers `fork`, the unnamed pipes and FIFOs, `kill`, `sigqueue`, `pause`, the signal handlers and the `sigCount` barrier, `waitpid`, the SysV semaphore "rest gate" (`goOut`, `sem_create`, `sem_op`, `sem_destroy`) and `getPipeName`.
  - The data carried over a pipe is modelled as a sequence copied from one buffer to the next.
  - The order in which the two inspectors finish becomes the parameter `finishOrder` of `Contest.StartContest`.
- Terminal I/O is not modelled: `run`, `checkedReadIntoBuffer`, `askYesNo`, `emptyBuffer`, `listItems`, `listItemsWithArea` and the manual. A prompt's outcome is modelled as described above.
- File I/O is not modelled: `linkToFile`, `unlinkFile`, `reopenFile`, `loadDataFromFile`, `saveDataToFile` and the election's stats file. No save/load round trip is claimed. The loader's `fscanf` format skips whitespace and its loop runs until EOF, so reading back a saved file does not in general give back the saved records.
- Randomness and timing are not modelled beyond their values. The `rand()` results are parameters, and the seeding and the `sleep`/`usleep` calls are left out.
  - In the C program, the calls used by the sleeps and by `goOut` take values from the same `rand()` stream. The model gives each use its own draw sequence instead.
  - `Election.CastOf` takes party draws indexed by voter. Only the draws of valid voters are used.
- Common.RandomBetween: draws are unbounded natural numbers, while `rand()` never exceeds `RAND_MAX`. `Common.RandomBetweenCovers` uses draws up to `upper - lower` (89999 for voter ids), which C produces only when `RAND_MAX` is at least that large: true for glibc's `RAND_MAX`, not for the standard's minimum of 32767. The model does not bound the draws by `RAND_MAX`.
- Allocation failure is not modelled. `malloc`/`realloc` always succeed, and the `noMemoryError`/`freeAllocated` paths are left out.
- Integer width is not modelled. Counters and ids are unbounded integers, so `int` or `size_t` overflow is not represented. No reachable input overflows them, except a voter count near the range of `int`, which is not modelled.
- `RecordStore.Store.GrowTo` gives the slots that `realloc` adds the value NULL. In C they are uninitialised. `MoveLiveToFront` reads slot `count` before testing the bound, as `manageAllocatedSpace` does. Both C outcomes of that read stop the scan at `count`, so the model's choice does not change the result.
- Texts are sequences of `char`, one per Unicode code point, where C's `strlen` counts UTF-8 bytes. Length bounds are stated on the code points. Area names such as "Barátfa" (7 code points, 8 bytes) are only compared for equality, so no verdict about areas changes. A name with non-ASCII letters is measured shorter than C measures it against the 127 limit.
- Contest.PickWinner: when no result beats -1 the model's winner has the empty name. In C `winner.name` is then uninitialised. This happens when there are live records but none has an area either inspector lists, which records loaded from a file can have because `loadDataFromFile` does not check areas. C then prints that uninitialised name "with -1 eggs". The model does not represent the uninitialised text.
- The model follows the code in three places where one might expect otherwise:
  - a voter count of zero or less is not rejected and gives an empty batch;
  - `voted_for` is never written and stays -1;
  - voter ids are not made unique.
