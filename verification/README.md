# MySQL 5.0.15: six algorithms, verified

This project models the parts of MySQL 5.0.15 whose correctness is not visible from one function, and
proves what they are for.  `dafny verify dfyconfig.toml` checks all of it.

**Replacement automaton** (`extra/replace.c`).  `init_replace` builds an automaton for all
from-strings by subset construction, `replace_strings` runs it over a line with back-up in output and
input.  `LeftmostLongest` says what a replacement is, without automata; `FollowTable` and `MatchStates`
say what a cell and a bit set stand for; `Automaton` and `Construction` are the construction with its
set and found tables; `Replace` links and runs the machine.  Main results: the construction ends, its
tables are large enough, merging sets by their bits is safe, and the output is leftmost-longest
replacement for every list of plain strings and every line: the pieces of the line between occurrences, each
occurrence the best one behind the one before it, with the to-strings in their places.

**HEAP hash index and table** (`heap/hp_write.c`, `hp_delete.c`, `hp_hash.c`, `_check.c`).  A linear hash
table whose chains live in the slot array itself.  `HashChains` has the address function and the effect
of every relinking step on the chains, `HashIndex` is the deletion, `HashWrite` the insertion,
`CheckKey` the checking scan, `HeapTable` and `HeapShare` are the table with rows, free list and several
keys, `CheckCircles` says when the checking scan ends and `HeapCheck` what it does not see.  Main results:
writes and deletes, failed and undone ones included, keep the table invariant, and deleted rows are used again,
the last one first, before the table grows; the invariant holds exactly if
the check accepts the table, with all links in use, and five more things hold that the check leaves open.

**HEAP block tree** (`heap/hp_block.c`).  A growing array made of a tree whose inner nodes are packed into
the chunk of a new leaf.  `BlockTree` has the invariant, `HeapBlock` the operations.  Main results: every
position is found in the leaf of the right allocation, nodes and records lie inside the memory allocated for
them, and clearing frees every chunk once.

**mysqltest control flow** (`client/mysqltest.c`).  `Blocks` has a flat machine with a block stack and
jumps, and the nested programs it is to run; `LineCache` is that machine with lines that keep the note of
their first reading, `SteadyScripts` tells scripts on which that makes no difference from their text;
`LoopRules` says what loops of nested programs are, without bounds on their rounds;
`Interpreter` is the main loop with the line cache;
`Delimiter` the delimiter recogniser.  Commands and tests are arbitrary state changes, so equal final
states mean equal commands in equal order.  Main result: the flat machine runs exactly the nested program,
and dies of nesting exactly where the program has no room for another open block; with the cache it still does
exactly as long as no command minds that its note is an old one.

**Batch line reader** (`client/readline.cc`): `LineReader`; the lines it returns, each with a newline, are the file
again.  **Completion index** (`client/completion_hash.cc`): `Completion`.

**Profile analyser** (`dbug/dbug_analyze.c`).  `NameTable` is the search tree of names, `ProfileLedger` a
reference run over the records and the books that the stack keeps for it, `Profiler` the analyser, `StackMarks` the
stack addresses in the report.  `ProfileOwners` says what the reference run means: the time between two records
belongs to the function entered last, or else to the next function that is left without having been entered, and every
function gets exactly the time that belongs to it.

Properties that turned out to need a condition:

- `check_one_key` accepts some indexes that are not sound (`CheckKey.StaleLinkAccepted`).  It does not see
  that a link leaves the slots in use.  `CheckKey.CheckExact` has the exact condition: with all links of
  the slots in use staying among them, it accepts exactly the sound indexes.
- `check_one_key` does not always end, even if all links stay among the slots in use
  (`CheckCircles.CircleNeverChecked`).  `CheckCircles.EndsExactly` has the exact condition: it ends exactly
  when no head's links run into a circle without a record of its chain before one record too many was found.
- `heap_check_heap` accepts tables that are not in order: an index that has one row twice and another not at
  all (`HeapCheck.DoubledRowAccepted`), counters that add up to fewer rows than there are
  (`HeapCheck.WrongTotalAccepted`), a deleted row that the free list has lost (`HeapCheck.LostRowAccepted`), two
  rows with the same unique key (`HeapCheck.DuplicateAccepted`).  `HeapCheck.IndexExact` and
  `HeapCheck.TableExact` have the exact condition: what is accepted is in order exactly if blength is right, the
  counters add up to the number of rows, the links from del_link run through as many deleted rows as counted, the
  slots of every index have rows in use only and none twice, and no unique key occurs twice.
- `end_of_query` compares what `fgetc` returns, 0 to 255, with signed characters.  A delimiter with a byte
  from 128 on is never found where it stands in a file (`Delimiter.FoundInFile`;
  `Delimiter.SectionSignNotFound`), the end of
  the file is taken for a byte 255 of the delimiter (`Delimiter.EndIsFound`), a byte from 128 on that was
  looked at comes back negative (`Delimiter.ByteComesBackNegative`), and the end of the file comes back as a
  character (`Delimiter.EndComesBack`).  `Delimiter.FoundExactly` and `Delimiter.Unchanged` have the exact
  conditions.
- A program that comes to its end is run to its end as a script exactly when its nesting is at most 31
  (`Blocks.RunsToEnd`); blocks that are skipped count as well, so 32 blocks of which the first is skipped are
  too many (`Interpreter.ThirtyTwoBlocks`).
- `read_query` stores with a line the errors that are expected when it is first read.  A command behind an
  `error` line in an `if` that is skipped in the first round of a loop and run in the second has kept that no
  error is expected, and the script stops where the nested program goes on (`LineCache.LateErrorStops`).
  `LineCache.CacheExact` has the exact condition on a run.  `SteadyScripts.SteadyIsStructured` has one on the text:
  no command behind an `error` line in a block inside a loop, and abort_on_error as it was.

- The report says that the stack was used "from highstack down to lowstack".  A record with a new highest address is
  not compared with lowstack, so with one stack record lowstack stays the largest number
  (`StackMarks.OneRecordNoLow`).  `StackMarks.LowExactly` has the exact condition: lowstack is the lowest address
  exactly if some later address is at most the first one, or the first one is 0 or the largest number.

`char` is signed, as on the usual platforms.

Numbers are mathematical integers, memory allocation succeeds where no result says otherwise, and calls into the
server, files and clocks are parameters.

## Model

| member | source | states |
|---|---|---|
| `LeftmostLongest.FirstIsBest` | trunk/mysql-5.0.15/extra/replace.c:20-25 | trying start positions from left to right, longest string first, finds the occurrence that is to be replaced: the leftmost one, the longest there, the lowest index among equal strings; none is found only if no string occurs |
| `LeftmostLongest.BestUnique` | trunk/mysql-5.0.15/extra/replace.c:20-25 | that occurrence is unique, so the specification of a replacement is a function of the line |
| `LeftmostLongest.ReplacedByItself` | trunk/mysql-5.0.15/extra/replace.c:881-925 | replacing every string by itself leaves every line as it is |
| `LeftmostLongest.ReplacedExactly` | trunk/mysql-5.0.15/extra/replace.c:881-925 | the specified output is exactly the text that consists of pieces of the line, with the to-string of an occurrence behind each but the last: every occurrence is the best one behind the one before it, and there is none in the last piece |
| `FollowTable.BuildFollow` | trunk/mysql-5.0.15/extra/replace.c:450-519 | the loop fills the follow table with one cell per string and prefix length, and the start bits are exactly the cells with nothing matched |
| `FollowTable.TableWellFormed` | trunk/mysql-5.0.15/extra/replace.c:450-519 | cells are in order of string and prefix length, neighbours extend each other by one character, and the character 0 marks exactly the completed strings |
| `FollowTable.CellUnique` | trunk/mysql-5.0.15/extra/replace.c:510-517 | a cell is determined by its string and its prefix length |
| `MatchStates.TerminalBits` | trunk/mysql-5.0.15/extra/replace.c:588-615 | in a bit set that stands for a text, the completed cells are exactly the one of the best occurrence so far |
| `MatchStates.MergeSafe` | trunk/mysql-5.0.15/extra/replace.c:812-824 | two texts with the same bits have the same pending string, equally far back: comparing bits only loses nothing |
| `MatchStates.StepNothingCompleted` | trunk/mysql-5.0.15/extra/replace.c:571-587 | when a character completes no string, the best occurrence stays and the live cells are those that advance |
| `MatchStates.StepCompleted` | trunk/mysql-5.0.15/extra/replace.c:588-615 | when it completes some, the longest and lowest of them is the new best occurrence, and only cells that start no later stay alive |
| `MatchStates.FinalStays` | trunk/mysql-5.0.15/extra/replace.c:616-622 | a match with no live cell left is the best one in every longer text |
| `MatchStates.OffsetBound` | trunk/mysql-5.0.15/extra/replace.c:534-535 | the distance to the start of a pending match is at least 1 and below the longest string |
| `Automaton.FoundFits` | trunk/mysql-5.0.15/extra/replace.c:431-432 | the found entries are never more than max_length times the number of strings, the size of their array |
| `Automaton.SetsBounded` | trunk/mysql-5.0.15/extra/replace.c:522-630 | the number of sets is bounded by the number of bit sets, so the construction ends |
| `Automaton.RepSets.FindSet` | trunk/mysql-5.0.15/extra/replace.c:812-824 | the first set with the bits of the last one; the last one is dropped if it is not new |
| `Automaton.FoundSets.FindFound` | trunk/mysql-5.0.15/extra/replace.c:835-847 | the entry for a string and an offset, appended only if it is new and only inside the array |
| `Automaton.GetNextBit` | trunk/mysql-5.0.15/extra/replace.c:787-805 | the smallest member above the last position, 0 if there is none |
| `Automaton.Followers` | trunk/mysql-5.0.15/extra/replace.c:571-587 | the bits reached by a character, and the length of the longest string that it completes |
| `Automaton.Prune` | trunk/mysql-5.0.15/extra/replace.c:588-615 | exactly the bits that start no later than the longest completed string stay, with one completed cell among them, whose string is recorded |
| `Automaton.CompletedMeaning` | trunk/mysql-5.0.15/extra/replace.c:571-622 | the pruned set stands for the longer text, or has one bit left exactly when the match is final; the recorded string and offset are those of the best occurrence |
| `Automaton.AdvanceNone` | trunk/mysql-5.0.15/extra/replace.c:525-540 | when nothing follows, a pending match is final, and without one the text is as good as empty |
| `Automaton.EndMeaning` | trunk/mysql-5.0.15/extra/replace.c:571-615 | at the end of a line the pending match is recorded with its string and length |
| `Construction.AddSet` | trunk/mysql-5.0.15/extra/replace.c:564-568 | the number given to a candidate set denotes a set that stands for every text the candidate stands for |
| `Construction.NextState` | trunk/mysql-5.0.15/extra/replace.c:558-629 | the entry of next[] is right for every text the state stands for: a state for the longer text, or the entry of the final match |
| `Construction.ProcessSet` | trunk/mysql-5.0.15/extra/replace.c:522-630 | all 256 transitions of a state are right; sets and found entries only grow |
| `Construction.BuildSets` | trunk/mysql-5.0.15/extra/replace.c:522-630 | the construction ends with every transition of every set in place and every next[] entry denoting an existing set or found entry |
| `Replace.InitReplace` | trunk/mysql-5.0.15/extra/replace.c:393-672 | an error exactly when a from-string is empty, otherwise an automaton that on every line reaches the entry of its best occurrence, or the entry for none |
| `Replace.MachineCorrect` | trunk/mysql-5.0.15/extra/replace.c:632-666 | the linked tables are such an automaton: offsets in the reached entry lead back to the start of the match and to the byte behind it |
| `Replace.MachineSafe` | trunk/mysql-5.0.15/extra/replace.c:658-665 | every reference is inside the tables and the end of a line always leaves the states |
| `Replace.Scan` | trunk/mysql-5.0.15/extra/replace.c:891-903 | the inner loop copies exactly the bytes read, growing the buffer when needed, and stops at the entry that the automaton reaches |
| `Replace.Substitute` | trunk/mysql-5.0.15/extra/replace.c:906-921 | cutting back, writing the replacement and stepping back in the input leaves the output of the rest to be appended |
| `Replace.ReplaceStrings` | trunk/mysql-5.0.15/extra/replace.c:881-925 | the output is the line with all occurrences replaced, leftmost-longest and not overlapping; updated exactly when there was one |
| `Replace.ReplaceLine` | trunk/mysql-5.0.15/extra/replace.c:103-146 | building the automaton and running it over a line, from the pairs to the final text, error case included; the text is the line in pieces with the to-strings in the places of the occurrences |
| `HashChains.MaskShrink` | trunk/mysql-5.0.15/heap/hp_hash.c:194-199 | with one record less the last address is folded onto one other, and no other address changes |
| `HashChains.MaskGrow` | trunk/mysql-5.0.15/heap/hp_hash.c:194-199 | with one record more exactly the entries of one address with the new bit set move to the new address |
| `HashChains.MaskDouble` | trunk/mysql-5.0.15/heap/hp_hash.c:194-199 | doubling blength of a full table changes no address |
| `HashChains.BitsAre` | trunk/mysql-5.0.15/heap/hp_hash.c:194-199 | the low bits of the hash number are its remainder by a power of two, and the bit above them the parity of the quotient |
| `HashChains.MaskIs` | trunk/mysql-5.0.15/heap/hp_hash.c:194-199 | the address is the remainder by blength if that is a used one, else the remainder by its half |
| `HashChains.UnlinkHead` | trunk/mysql-5.0.15/heap/hp_delete.c:138-148 | moving the second entry over a removed head keeps all chains of the remaining entries |
| `HashChains.MoveInner` | trunk/mysql-5.0.15/heap/hp_delete.c:165-171 | moving an entry to a free slot and relinking its predecessor keeps all chains |
| `HashChains.Merge` | trunk/mysql-5.0.15/heap/hp_delete.c:183-192 | hanging the chain of the last address behind the head of the one it is folded onto gives one acyclic chain with every entry of both |
| `HashIndex.LengthRoundTrip` | trunk/mysql-5.0.15/heap/hp_delete.c:35-36 | the blength that hp_delete_key works out is the one from before the delete, and the halved one is right for one record less |
| `HashIndex.RecoversLength` | trunk/mysql-5.0.15/heap/hp_delete.c:108-110 | undoing the adjustment gives a blength that is right for one record more |
| `HashIndex.MoveLink` | trunk/mysql-5.0.15/heap/hp_hash.c:208-217 | walks to the entry that links to a slot and changes only that link |
| `HashIndex.Find` | trunk/mysql-5.0.15/heap/hp_delete.c:114-127 | finds the slot of the record and its predecessor in the chain, or ends at its last entry if the record is not there |
| `HashIndex.Relocate` | trunk/mysql-5.0.15/heap/hp_delete.c:153-192 | after the last slot was moved away, every remaining entry is in the chain of its new address and hash_buckets is the number of chains |
| `HashIndex.DeleteKey` | trunk/mysql-5.0.15/heap/hp_delete.c:101-193 | HA_ERR_CRASHED exactly when the record is not indexed, and then nothing changes; otherwise a sound index of one record less, whose records are the old ones minus exactly this one |
| `HashWrite.SplitChain` | trunk/mysql-5.0.15/heap/hp_write.c:218-327 | the chain is split by the new bit into two linked lists, at the old and at the new address, that share out all its entries and leave one slot free |
| `HashWrite.MakeAddress` | trunk/mysql-5.0.15/heap/hp_write.c:199-327 | the new address keeps the index sound on the remaining slots, hash_buckets grows exactly when both lists have entries |
| `HashWrite.Insert` | trunk/mysql-5.0.15/heap/hp_write.c:328-354 | the new entry becomes the head of its chain; an entry of another chain in its place is moved and relinked |
| `HashWrite.WriteKey` | trunk/mysql-5.0.15/heap/hp_write.c:182-371 | a sound index of one record more, whose records are the old ones plus this one; a duplicate is reported exactly when the key is unique and some indexed record has it |
| `CheckKey.CheckOneKey` | trunk/mysql-5.0.15/heap/_check.c:93-147 | the scan with its counters, as the function whose verdict the next rows are about |
| `CheckKey.AcceptedIsValid` | trunk/mysql-5.0.15/heap/_check.c:93-147 | if no slot in use links to an unused one, an accepted index has every slot in exactly one acyclic chain that starts at its own address, and the right number of buckets |
| `CheckKey.ValidIsAccepted` | trunk/mysql-5.0.15/heap/_check.c:93-147 | every such index is accepted |
| `CheckKey.CheckExact` | trunk/mysql-5.0.15/heap/_check.c:93-147 | both together: the check accepts exactly the sound indexes, among those whose links stay in use |
| `CheckKey.StaleLinkAccepted` | trunk/mysql-5.0.15/heap/_check.c:104-119 | without that condition the check accepts an index in which a record cannot be found: it counts an unused slot in its place |
| `HeapTable.Doubled` | trunk/mysql-5.0.15/heap/hp_write.c:55-56 | growing blength after a write disturbs no index |
| `HeapTable.Taken` | trunk/mysql-5.0.15/heap/hp_write.c:125-142 | taking a position from the free list, or at the end, keeps row counts, flags and free list in agreement |
| `HeapTable.Freed` | trunk/mysql-5.0.15/heap/hp_delete.c:47-50 | putting a row on the free list keeps them in agreement |
| `HeapTable.WriteKeys` | trunk/mysql-5.0.15/heap/hp_write.c:49-53 | all keys get the record, or the loop stops at the first key on which it is a duplicate |
| `HeapTable.UndoKeys` | trunk/mysql-5.0.15/heap/hp_write.c:76-81 | the keys written so far, last one first, index the old records again |
| `HeapTable.DeleteKeys` | trunk/mysql-5.0.15/heap/hp_delete.c:40-44 | all keys lose the record, or it was in none and nothing changed |
| `HeapShare.HpShare.NextFreePos` | trunk/mysql-5.0.15/heap/hp_write.c:125-159 | the row deleted last, which leaves the free list, or else the first position behind all rows; HA_ERR_RECORD_FILE_FULL or the failing allocation exactly when a new block is needed and a limit is reached or no memory is left, and then nothing changes |
| `HeapShare.HpShare.Write` | trunk/mysql-5.0.15/heap/hp_write.c:32-89 | keeps the table invariant; stores the record if there is room and it is no duplicate, in the row deleted last or, if none is free, behind all rows, and changes no other row; else reports the full table, the failing allocation or the first key with a duplicate, leaves the contents as they were and puts the position that was taken on the free list |
| `HeapShare.HpShare.Delete` | trunk/mysql-5.0.15/heap/hp_delete.c:21-61 | keeps the table invariant and removes exactly the row, which becomes the first of the free list; if the row is not indexed, records and blength are set back and nothing has changed |
| `HeapShare.CountRows` | trunk/mysql-5.0.15/heap/_check.c:55-78 | the scan block by block counts every row once |
| `HeapShare.CountsAgree` | trunk/mysql-5.0.15/heap/_check.c:80-84 | in a table in order the counts from the flags are the stored ones |
| `HeapShare.TableIsSound` | trunk/mysql-5.0.15/heap/_check.c:40-88 | the invariant that the operations keep implies what heap_check_heap looks for |
| `HeapCheck.IndexExact` | trunk/mysql-5.0.15/heap/_check.c:93-147 | with right counters that add up to all rows, an accepted index with its links in use has exactly the rows in use, each once, if and only if its slots have rows in use only and none twice |
| `HeapCheck.RowsExact` | trunk/mysql-5.0.15/heap/_check.c:55-84 | with right counters, the links from del_link run through all deleted rows, each once, if and only if they run through as many deleted rows as counted to an end |
| `HeapCheck.TableExact` | trunk/mysql-5.0.15/heap/_check.c:40-88 | a table is in order if and only if the check finds it sound and what the check leaves open holds |
| `HeapCheck.DoubledRowAccepted` | trunk/mysql-5.0.15/heap/_check.c:93-147 | an index with one row twice and another, live one not at all is accepted |
| `HeapCheck.DuplicateAccepted` | trunk/mysql-5.0.15/heap/_check.c:40-88 | two rows with the same unique key are accepted |
| `HeapCheck.WrongTotalAccepted` | trunk/mysql-5.0.15/heap/_check.c:55-84 | a row behind those that the counters add up to is not seen, and no free list puts the table in order |
| `HeapCheck.LostRowAccepted` | trunk/mysql-5.0.15/heap/_check.c:55-84 | a deleted row that is not on the free list is not missed |
| `CheckCircles.WalkHangs` | trunk/mysql-5.0.15/heap/_check.c:111-123 | links that come back to a slot with no record of the chain on the way, before one record too many was found, are followed for ever |
| `CheckCircles.WalkEnds` | trunk/mysql-5.0.15/heap/_check.c:111-123 | without such a circle the walk ends, within as many steps as there are slots for every record found |
| `CheckCircles.EndsExactly` | trunk/mysql-5.0.15/heap/_check.c:93-147 | the whole scan comes to a verdict exactly when no head has such a circle behind it |
| `CheckCircles.NoVerdictExactly` | trunk/mysql-5.0.15/heap/_check.c:93-147 | with that bound on the walks or a larger one there is no verdict exactly if some head has such a circle |
| `HeapCheck.CheckEndsExactly` | trunk/mysql-5.0.15/heap/_check.c:40-88 | the check of a table has no verdict exactly if some head of some key has such a circle |
| `CheckCircles.CircleNeverChecked` | trunk/mysql-5.0.15/heap/_check.c:111-123 | two slots whose links stay in use and on which the scan never ends |
| `HeapShare.HpShare.Check` | trunk/mysql-5.0.15/heap/_check.c:40-88 | no verdict exactly if the check of some key has none; otherwise 1 exactly if some key is rejected or the flags of the first records + deleted rows do not give the counters, else 0; if links stay among the slots in use, it is 0 exactly for sound tables |
| `BlockTree.InitBlock` | trunk/mysql-5.0.15/heap/hp_create.c:221-225 | the table has the number of records under a node of every level |
| `BlockTree.FindBlock` | trunk/mysql-5.0.15/heap/hp_block.c:30-41 | record pos is slot pos mod records_in_block of leaf pos div records_in_block |
| `BlockTree.LinkedGrows` | trunk/mysql-5.0.15/heap/hp_block.c:97-112 | the slots written by an allocation make every slot of every node lead to the right node, also of the nodes that share the new chunk |
| `BlockTree.OneEachGrows` | trunk/mysql-5.0.15/heap/hp_block.c:77-116 | an allocation adds exactly one node at the start of a chunk |
| `HeapBlock.FindLevel` | trunk/mysql-5.0.15/heap/hp_block.c:61-63 | the level found is the lowest with a free slot, all levels below are full; within the block limit it is inside the level table |
| `HeapBlock.AddChain` | trunk/mysql-5.0.15/heap/hp_block.c:104-116 | the new nodes lie one behind the other in the chunk, each with the next as its first child, and the level table points at them |
| `HeapBlock.FreeLevel` | trunk/mysql-5.0.15/heap/hp_block.c:124-146 | frees exactly the chunk starts at or under a node, each once, never a node inside a chunk, and reads no node after its chunk was freed |
| `HeapBlock.ChainFits` | trunk/mysql-5.0.15/heap/hp_block.c:77-116 | the nodes of an allocation and the leaf behind them are inside the memory allocated for them |
| `HeapBlock.InsideGrows` | trunk/mysql-5.0.15/heap/hp_block.c:77-116 | every node and leaf of the tree stays inside its chunk |
| `HeapBlock.HpBlock.GetNewBlock` | trunk/mysql-5.0.15/heap/hp_block.c:56-120 | keeps the tree invariant and appends one leaf in a new chunk; the length that is allocated is that of a leaf and of as many nodes as the lowest level with a free slot says; also after a clear, whatever the level table holds from before |
| `HeapBlock.HpBlock.Find` | trunk/mysql-5.0.15/heap/hp_block.c:30-41 | finds the record in the leaf of the right allocation and inside its chunk, at any time in the life of a block |
| `HeapBlock.HpBlock.Clear` | trunk/mysql-5.0.15/heap/hp_clear.c:31-33 | every chunk allocated since the last clear is freed exactly once at its start |
| `Blocks.HoldsBetween` | trunk/mysql-5.0.15/client/mysqltest.c:2246-2296 | the lines of a nested program, blocks closed by end lines, wherever they stand in a script |
| `Blocks.Skips` | trunk/mysql-5.0.15/client/mysqltest.c:2260-2268 | a skipped program runs no command and leaves the state and the enclosing stack alone, or dies in that state if it is nested too deeply; nothing is expected there |
| `Blocks.Simulates` | trunk/mysql-5.0.15/client/mysqltest.c:3997-4256 | the flat machine comes out behind a program in the state that the structured meaning gives, stops or dies where that does, and runs on at least as long |
| `Blocks.FlatIsStructured` | trunk/mysql-5.0.15/client/mysqltest.c:3997-4256 | with notes taken when commands are executed, for every nested program, all commands and tests, every start state and every stack size: the flat machine reaches an end exactly when the program does with room for as many open blocks, with the same commands, order and state, death of nesting included |
| `Blocks.RoomSuffices` | trunk/mysql-5.0.15/client/mysqltest.c:2253-2255 | with room for its deepest block a program means what it means without a limit |
| `Blocks.RoomNeeded` | trunk/mysql-5.0.15/client/mysqltest.c:2253-2255 | without that room it never comes to its end; where it would without a limit, it is nested too deeply |
| `Blocks.FlatIsStructuredWhenShallow` | trunk/mysql-5.0.15/client/mysqltest.c:3997-4256 | a script whose blocks fit on the stack ends exactly as the nested program without any limit |
| `Blocks.NeverDies` | trunk/mysql-5.0.15/client/mysqltest.c:2219-2258 | such a script never dies of nesting, stray or missing ends |
| `Blocks.RunsToEnd` | trunk/mysql-5.0.15/client/mysqltest.c:2253-2255 | a script is run to its end exactly when its blocks fit on the stack and the program comes to its end |
| `Blocks.DiesTooDeep` | trunk/mysql-5.0.15/client/mysqltest.c:2253-2255 | where the program comes to its end without a limit, the script dies of nesting exactly when its depth, skipped blocks included, is over the limit |
| `Blocks.NestedDies` | trunk/mysql-5.0.15/client/mysqltest.c:2253-2268 | blocks inside a skipped block: the script ends or dies by their number alone, in the state after the one test |
| `Blocks.StrayEndDies` | trunk/mysql-5.0.15/client/mysqltest.c:2221-2227 | an end line without block is fatal when it is reached |
| `Blocks.MissingEndDies` | trunk/mysql-5.0.15/client/mysqltest.c:2403-2407 | so is the end of the file inside a block, run or skipped |
| `Blocks.WorldAfter` | trunk/mysql-5.0.15/client/mysqltest.c:2592-2598 | a command or a test leaves its world whether it goes on or ends the run, and nothing expected; only a command of which no error is expected aborts |
| `LoopRules.LoopExactly` | trunk/mysql-5.0.15/client/mysqltest.c:2219-2243 | a loop of a nested program comes to its end exactly through a sequence of rounds, each with a test that succeeds and a body that ends, followed by a test that fails |
| `LoopRules.MoreFuel` | trunk/mysql-5.0.15/client/mysqltest.c:2219-2243 | the bound on the rounds of loops does not matter for what ends within it |
| `LoopRules.OnlyErrorLinesExpect` | trunk/mysql-5.0.15/client/mysqltest.c:4245-4253 | after a step errors are expected only as an executed error line says, or as before a skipped one |
| `LineCache.CacheExact` | trunk/mysql-5.0.15/client/mysqltest.c:2566-2598 | the machine with the cache is where the machine without it is, round by round, exactly when every command that is executed does the same with the note of its first reading as with the one it would get now |
| `LineCache.CachedIsStructured` | trunk/mysql-5.0.15/client/mysqltest.c:3997-4256 | then it reaches an end exactly when the nested program does |
| `LineCache.LateErrorStops` | trunk/mysql-5.0.15/client/mysqltest.c:2592-2598 | a loop of two rounds with an expected error in an `if` that only the second round runs: the nested program comes to its end, the script stops at the command |
| `SteadyScripts.ReadKeeps` | trunk/mysql-5.0.15/client/mysqltest.c:2566-2598 | reading a line keeps that everything from the line of a running loop on has the note for its place in the text |
| `SteadyScripts.RoundKeeps` | trunk/mysql-5.0.15/client/mysqltest.c:3997-4256 | so does every round, and a command that is executed has that note |
| `SteadyScripts.SteadyIsHarmless` | trunk/mysql-5.0.15/client/mysqltest.c:2592-2598 | where no command behind an `error` line stands in a block inside a loop, other than the loop itself, and nothing changes abort_on_error, the cache is without effect |
| `SteadyScripts.SteadyIsStructured` | trunk/mysql-5.0.15/client/mysqltest.c:3997-4256 | such a script runs as the nested program, both directions |
| `SteadyScripts.LateErrorNotSteady` | trunk/mysql-5.0.15/client/mysqltest.c:2592-2598 | the script above is not such a one |
| `Interpreter.Session.ReadQuery` | trunk/mysql-5.0.15/client/mysqltest.c:2566-2598 | the current line of the script, read before or not, with the expected errors and abort_on_error of its first reading |
| `Interpreter.Session.DoBlock` | trunk/mysql-5.0.15/client/mysqltest.c:2246-2296 | one step of the flat machine, on the stack as an array |
| `Interpreter.Session.DoDone` | trunk/mysql-5.0.15/client/mysqltest.c:2219-2243 | one step of the flat machine at an end line |
| `Interpreter.Session.Round` | trunk/mysql-5.0.15/client/mysqltest.c:3997-4256 | one round of the main loop is one step of the machine with the cache, pending errors cleared by all but `error` lines |
| `Interpreter.Session.MainLoop` | trunk/mysql-5.0.15/client/mysqltest.c:3997-4256 | the main loop is the flat machine with the cache, with jumps only to lines that are in it |
| `Interpreter.RunScript` | trunk/mysql-5.0.15/client/mysqltest.c:3997-4256 | the session is the machine with the cache from start to end; if the cache is harmless, and on a script whose text says so it is, a script that ends does so as the nested program with room for 31 open blocks, to its end only if the nesting is at most 31, dead only if it is deeper |
| `Interpreter.ThirtyTwoBlocks` | trunk/mysql-5.0.15/client/mysqltest.c:2253-2268 | 32 blocks, the first skipped, die of nesting; 31 do not |
| `Delimiter.MatchedIs` | trunk/mysql-5.0.15/client/mysqltest.c:2330-2336 | the first reading that differs decides |
| `Delimiter.NarrowIs` | trunk/mysql-5.0.15/client/mysqltest.c:2316-2319 | the character that is pushed back is the one that differs by a multiple of 256 |
| `Delimiter.FoundExactly` | trunk/mysql-5.0.15/client/mysqltest.c:2327-2336 | a delimiter that stands in the text is found exactly if it is read without bytes from 128 on; what is found stands there, unless the text ends and the delimiter goes on with bytes 255 |
| `Delimiter.FoundInFile` | trunk/mysql-5.0.15/client/mysqltest.c:2327-2336 | out of the file, a delimiter is found where it stands exactly if all its bytes are below 128 |
| `Delimiter.Unchanged` | trunk/mysql-5.0.15/client/mysqltest.c:2338-2341 | pushing back leaves the text as it was exactly if the first reading that differs is the first of all or a byte below 128 |
| `Delimiter.SectionSignNotFound` | trunk/mysql-5.0.15/client/mysqltest.c:2327-2328 | the delimiter 0xA7 is not found in a text that is 0xA7 |
| `Delimiter.ByteComesBackNegative` | trunk/mysql-5.0.15/client/mysqltest.c:2316-2319 | behind `;`, the byte 200 comes back as -56 |
| `Delimiter.EndComesBack` | trunk/mysql-5.0.15/client/mysqltest.c:2338-2341 | behind `;`, the end of the file comes back as a character |
| `Delimiter.EndIsFound` | trunk/mysql-5.0.15/client/mysqltest.c:2330-2336 | the end of the file is found as the second byte of a delimiter `;` 255 |
| `Delimiter.Verdict` | trunk/mysql-5.0.15/client/mysqltest.c:2322-2343 | the answer and the text after it in all cases, from the number of readings that agree |
| `Delimiter.Reader.GetChar` | trunk/mysql-5.0.15/client/mysqltest.c:2309-2314 | the next of the pushed back characters and then of the bytes of the file; EOF at its end |
| `Delimiter.Reader.UngetChar` | trunk/mysql-5.0.15/client/mysqltest.c:2316-2319 | the next reading is what was pushed back, cast to a signed character |
| `Delimiter.Reader.EndOfQuery` | trunk/mysql-5.0.15/client/mysqltest.c:2322-2343 | for all bytes and all delimiters, the empty one included: true exactly when the readings from here on are those of the delimiter, and then it is read; else what was looked at is back as signed characters, and the text is unchanged exactly when the first difference is at once or a byte below 128; the push-back buffer is never full |
| `LineReader.WholeBlocks` | trunk/mysql-5.0.15/client/readline.cc:149-151 | the read count is 0 exactly when no whole block fits |
| `LineReader.LineBuffer.Grow` | trunk/mysql-5.0.15/client/readline.cc:144-159 | the unfinished line survives the growing of the buffer, and a block fits behind it in the end |
| `LineReader.LineBuffer.FillBuffer` | trunk/mysql-5.0.15/client/readline.cc:136-185 | the buffer holds the unfinished line and what was read behind it, or a made up newline at the end of the file; 0 exactly when nothing is left |
| `LineReader.LineBuffer.InternReadLine` | trunk/mysql-5.0.15/client/readline.cc:189-215 | the next line, or a piece of max_size bytes or more of a longer one, or nothing exactly when nothing is left |
| `LineReader.LineBuffer.BatchReadline` | trunk/mysql-5.0.15/client/readline.cc:46-58 | the same without the newline; what is still to come is exactly the rest |
| `LineReader.ReadAll` | trunk/mysql-5.0.15/client/readline.cc:46-58 | for every way the reads split the file: if all lines are shorter than max_size, the lines returned are those of the file, an unterminated last one included; each with a newline, they are the file again |
| `LineReader.LinesJoin` | trunk/mysql-5.0.15/client/readline.cc:46-58 | the lines of a text, each with a newline, are the text, with one newline more if its last line was not terminated |
| `LineReader.LinesSplit` | trunk/mysql-5.0.15/client/readline.cc:46-58 | lines without newlines, each terminated, are the lines of the text they make |
| `LineReader.LinesCount` | trunk/mysql-5.0.15/client/readline.cc:46-58 | there are as many lines as newlines, and one more if the last line is not terminated |
| `NameTable.SearchFinds` | trunk/mysql-5.0.15/dbug/dbug_analyze.c:266-312 | the search in the tree finds a name exactly when it is there |
| `NameTable.HoldsInsert` | trunk/mysql-5.0.15/dbug/dbug_analyze.c:278-279 | linking the new node below the last one visited gives the array of the tree with the name inserted |
| `NameTable.Locate` | trunk/mysql-5.0.15/dbug/dbug_analyze.c:266-312 | the loop ends at the node of the name, or at the node and side for a new one |
| `NameTable.AddName` | trunk/mysql-5.0.15/dbug/dbug_analyze.c:248-314 | one node per name: the position of a known name, or a new node in a table that is a search tree again; fails exactly when a new name does not fit |
| `NameTable.LessExactly` | trunk/mysql-5.0.15/dbug/dbug_analyze.c:266-268 | a name is less exactly if at the first difference it has the smaller character or ends |
| `NameTable.InorderSorted` | trunk/mysql-5.0.15/dbug/dbug_analyze.c:542-568 | inorder means strictly increasing names, in the order of the alphabet |
| `ProfileLedger.AdvanceLedger` | trunk/mysql-5.0.15/dbug/dbug_analyze.c:355-367 | when time passes, it runs for the function on top of the stack, or for nobody |
| `ProfileLedger.PushLedger` | trunk/mysql-5.0.15/dbug/dbug_analyze.c:340-345 | an entry is a call of its function and costs nobody time |
| `ProfileLedger.PopLedger` | trunk/mysql-5.0.15/dbug/dbug_analyze.c:355-367 | popping gives a function exactly the time that has run for it, and its caller none of it |
| `ProfileLedger.UnmatchedLedger` | trunk/mysql-5.0.15/dbug/dbug_analyze.c:378-385 | an exit without entry gives the function exactly the time that has run for nobody, and a call |
| `ProfileLedger.EnterAgrees` | trunk/mysql-5.0.15/dbug/dbug_analyze.c:340-345 | after an entry stack, functions and totals agree with the reference |
| `ProfileLedger.ExitAgrees` | trunk/mysql-5.0.15/dbug/dbug_analyze.c:346-386 | so they do after an exit, matched or not |
| `ProfileLedger.StackAgrees` | trunk/mysql-5.0.15/dbug/dbug_analyze.c:387-421 | and after a stack record: the largest stack use |
| `ProfileLedger.AllPaid` | trunk/mysql-5.0.15/dbug/dbug_analyze.c:428-444 | with nothing on the stack every function has its time, calls and stack use, and the total is all time but the idle one |
| `ProfileLedger.LastInIs` | trunk/mysql-5.0.15/dbug/dbug_analyze.c:351-371 | the entry that an exit is matched with is the last open one of its name; there is none exactly if no open entry has the name |
| `ProfileOwners.OpenAfter` | trunk/mysql-5.0.15/dbug/dbug_analyze.c:340-386 | what an entry and an exit do to the functions open: an exit leaves those below the last entry of its name, or none if no open entry has it |
| `ProfileOwners.TimeIsOwned` | trunk/mysql-5.0.15/dbug/dbug_analyze.c:320-445 | the time of a function is the sum of the stretches between records that it owns: those after which it was entered last and not left, and those without any function open before its next unmatched exit; idle is what nobody owns |
| `ProfileOwners.CallsAre` | trunk/mysql-5.0.15/dbug/dbug_analyze.c:340-385 | the calls of a function are its entries and its exits without entry |
| `ProfileOwners.UseIsLargest` | trunk/mysql-5.0.15/dbug/dbug_analyze.c:387-411 | the stack use of a function is the largest one recorded for it |
| `ProfileOwners.OccursExactly` | trunk/mysql-5.0.15/dbug/dbug_analyze.c:248-314 | the functions of the table are those that some record is about |
| `StackMarks.MarksStep` | trunk/mysql-5.0.15/dbug/dbug_analyze.c:412-419 | one more record takes highstack and lowstack to those of one record more: the largest address, and the smallest of those that were not above all before them |
| `StackMarks.LowExactly` | trunk/mysql-5.0.15/dbug/dbug_analyze.c:412-419 | lowstack is the lowest address exactly if some later one is at most the first one, or the first one is 0 or the largest number |
| `StackMarks.OneRecordNoLow` | trunk/mysql-5.0.15/dbug/dbug_analyze.c:412-419 | with one stack record lowstack is the largest number |
| `Profiler.Analyser.Add` | trunk/mysql-5.0.15/dbug/dbug_analyze.c:248-314 | adds a function with no time and no calls exactly when its name is new; fails exactly when it is new and the table is full |
| `Profiler.Analyser.Push` | trunk/mysql-5.0.15/dbug/dbug_analyze.c:139-156 | an entry with no child time on top of the stack, or the exit on overflow exactly when as many functions are open as fit |
| `Profiler.Analyser.Settle` | trunk/mysql-5.0.15/dbug/dbug_analyze.c:355-367 | popping a function keeps the books: what each function has and what has run for its open entries is its account |
| `Profiler.Analyser.SettleUnmatched` | trunk/mysql-5.0.15/dbug/dbug_analyze.c:378-385 | an exit without entry keeps the books with the idle time charged to the function |
| `Profiler.Analyser.PopTo` | trunk/mysql-5.0.15/dbug/dbug_analyze.c:351-372 | an exit leaves the last open entry of the function and all above it; all entries if there is none with that name |
| `Profiler.Analyser.Leave` | trunk/mysql-5.0.15/dbug/dbug_analyze.c:346-386 | an exit takes the books to those of one more record |
| `Profiler.Analyser.Process` | trunk/mysql-5.0.15/dbug/dbug_analyze.c:320-445 | ends regularly exactly when the functions open and the functions at all always fit, and otherwise with the message for the first record where they do not; then the table has every function of the records once, each with the time, the calls and the stack use of the reference run over the records, and highstack and lowstack are those of the stack records |
| `Profiler.OutBody` | trunk/mysql-5.0.15/dbug/dbug_analyze.c:542-568 | visits the modules of a tree inorder and adds up their calls and times |
| `Profiler.Output` | trunk/mysql-5.0.15/dbug/dbug_analyze.c:574-588 | no report exactly without functions; otherwise every function once, in the order of the alphabet; the sums are the totals |
| `Completion.MatchesHave` | trunk/mysql-5.0.15/client/completion_hash.cc:160-173 | the reference answer for a prefix has exactly the words with that prefix |
| `Completion.MatchesAre` | trunk/mysql-5.0.15/client/completion_hash.cc:160-173 | it has them in the order in which they were added, the newest first, each as often as it was added |
| `Completion.LongerKey` | trunk/mysql-5.0.15/client/completion_hash.cc:194-200 | a longer prefix has as many matches exactly when all matches have it |
| `Completion.LookupStored` | trunk/mysql-5.0.15/client/completion_hash.cc:62-113 | a word added under a key changes the answer for that key only |
| `Completion.StoredHolds` | trunk/mysql-5.0.15/client/completion_hash.cc:62-113 | for every hash function and table size: the table answers like the reference with one word more under one key |
| `Completion.HashTable.AddWord` | trunk/mysql-5.0.15/client/completion_hash.cc:221-227 | after adding a word every prefix has exactly the words added so far that have it, newest first |
| `Completion.HashTable.FindAllMatches` | trunk/mysql-5.0.15/client/completion_hash.cc:160-173 | those words and their number; nothing exactly for the empty key or when there are none |
| `Completion.HashTable.FindLongestMatch` | trunk/mysql-5.0.15/client/completion_hash.cc:175-204 | the length of the longest common prefix of all words with the given one |

## Left out

- Replace.InitReplace: from-strings are plain, without backslash, because the word and line escapes of replace have boundary rules of their own; the `short` entries of next[] are integers here, so fewer than 32768 states are assumed.
- Bit sets of replace.c are sets of positions; the packing into machine words (`extra/replace.c:751-800`) is not modelled.
- File handling of replace (`convert_pipe`, `convert_file`) and its pointer arrays; the same automaton in `client/mysqltest.c:4560-5087` is modelled once, from replace.c.
- HashIndex.DeleteKey: the slots of an index are a sequence that the operation replaces, so aliasing of slot pointers is not modelled; the correction of current_ptr and current_hash_ptr is left out.
- HashWrite.WriteKey: the same for slots; the hash number is any function of the key and the comparison is equality of key values.
- HeapShare.HpShare.Write: whether the lengths have reached their limit and whether a block can be allocated are parameters; failing allocations of index blocks, auto-increment and the file descriptor state are left out.
- HeapShare.HpShare.Delete: the check for a changed record (`hp_rectest`) is left out.
- CheckKey.CheckOneKey: a bound on the length of walks stands for walks that never end, and CheckCircles says which do; statistics for printing are left out.
- Red-black tree keys (`hp_rb_write_key`, `hp_rb_delete_key`, `check_one_rb_key`): they wrap a tree library that is not part of this model.
- HeapBlock.HpBlock.GetNewBlock: node contents are a map from slots to places in chunks, not bytes; signals are left out.
- Interpreter.Session.MainLoop: a bound on the number of rounds stands for scripts that run forever; server commands, variables and `source` are inside the abstract commands; a result file that stays with a line after its execution (`record_file`, `require_file`) is left out, and so are lines read while parsing is disabled.
- Interpreter.Session.ReadQuery: the splitting of the file into lines by read_line, with quotes and comments, is not modelled.
- Delimiter.Reader.EndOfQuery: it is called as after a reading, which leaves room in the buffer; the push-back of multi-byte characters by read_line is left out.
- LineReader.LineBuffer.FillBuffer: NUL bytes in the file and read errors are left out; the lines of a command string (`init_line_buffer_from_string`) too.
- Profiler.Analyser.Process: records are given, not parsed from text, and times are integers without wrap-around; percentages and the layout of the report are left out.
- Completion.HashTable.AddWord: failing allocations are left out, and the hash function hashpjw is any function; `completion_hash_exists` is not modelled.
- The other clients (mysql, mysqladmin, mysqldump, mysqlimport, mysqlshow, mysqlcheck, mysqlbinlog), string and message tools: network calls, options and printing, which would only add easy members.
