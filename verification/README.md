# BitchX engine models

Dafny models of the hard, self-contained parts of BitchX's scripting and
messaging engine, with the properties the program relies on. Where the source
changes things step by step, the model does too: a class or a loop is proved
against a function on values, and the theorems are about that function.

* **Expressions** (`ExprSyntax`, `ExprParser`, `ExprCorrect`, `ExprTheorems`,
  `ExprLaws`, `ExprMachine`): `next_unit` of `source/expr.c`. The parser has no grammar; it
  looks for the first operator of the current stage, cuts the text there,
  recurses on the pieces, and otherwise tries the same text one stage higher.
  The theorems say that on the text of any tree, with any blanks, with minimal
  or full parentheses, this gives the value and the variables of evaluating the
  tree. `ExprLaws` says what that means on the texts alone: what an operator, an
  assignment or a variable yields is told by the results of its parts.
  Operators are uninterpreted functions on value texts.
* **Sorted arrays** (`Names`, `AlistSpec`, `Alist`, `FixedArray`, `Permutations`):
  `source/alist.c`. A search over masked four-byte hashes and then `strncmp`
  meets its contract against a linear scan, and the table refines a map.
* **Alias tables** (`CacheSpec`, `AliasCache`): the ten-slot move-to-front cache of
  `source/alias.c` in front of such a table.
* **Local frames** (`LocalFrames`): the stack of local variables of
  `source/alias.c`, lookup along parent links, blessing and locking.
* **Script arrays** (`ScriptArraySpec`, `ScriptArrays`): `source/array.c`. Items
  in user order with a sorted index beside them, and a table of such arrays
  whose names are indexed in the same way.
* **Name lookups in the background** (`DnsQueue`, `DnsThreads`, `DnsProofs`):
  `source/cdns.c`. The linked queues as a class, and the two threads as a step
  machine with two mutexes, a condition, a bounded pipe and callbacks that may
  add requests or poll again. Theorems hold for every interleaving.
* **CTCP and SED** (`CtcpText`, `SedCipher`, `CtcpSpec`, `CtcpMachine`): quoting,
  framing, the rolling cipher and the re-entrant loop of `source/ctcp.c` and
  `source/encrypt.c`. CTCP frames travel in the text of PRIVMSG and NOTICE
  (section 4.4 of RFC 1459) under the line limit of section 2.3 of RFC 1459.

`dafny verify dfyconfig.toml` checks the whole project.

## What turned out otherwise than documented

* A single `|` is split at the comma stage, before an assignment, and not with
  the bitwise operators as the comments say. `ExprTheorems.DocumentedBar` says which
  trees are not affected, `ExprTheorems.BarTakenOut` and
  `ExprTheorems.PipeAfterAssignment` what becomes of others.
* A failed `find_fixed_array_item` reports the place to insert at only for a
  name that sorts before the whole table: `FixedArray.FailedPlace`.
* `find_var_alias` looks up the empty name when asked for `::`, compares the
  hash of `::`, and so never hits the cache; its entry can fill several slots
  (`AliasCache.ColonsTwice`). `find_cmd_alias` never sees the entry of an
  abbreviated command in the cache and repeats it in the same way
  (`AliasCache.AbbreviationTwice`). Their contracts
  say exactly when a lookup puts an entry into a second slot.
* `setitem` answers 1 for a new array and 2 for an added item, and `ifindfirst`
  -1 without an array and -2 without a match; the comments swap both pairs.
  `numitems` answers 0 without an array, where its comment says -1.
* `do_ctcp` loses the text behind a frame with no text.
  `CtcpSpec.CallLeavesOutside` says exactly when its result is the text outside
  the frames, and `CtcpSpec.EmptyFrameLoses` gives a message for which it is not.
* `crypt_msg` cuts a long message silently. `SedCipher.RoundTrip` says exactly
  when the cut message still opens to the original, and `SedCipher.LongIsLost`
  that no text of more than 457 characters does.
* The limit of one reply holds for each call of `do_ctcp`, not for a message with
  nested calls: `CtcpSpec.TwoReplies`; flood protection makes up for it:
  `CtcpSpec.OneReply`.
* A blessed frame can assign to variables outside the enclosing named frame:
  `FrameSpec.OuterUnchanged` says exactly when frames are safe from it.

## Model

| member | source | states |
|---|---|---|
| `ExprTheorems.ParsesBack` | source/expr.c:253-1306 | for every tree of numbers, variables, `!`, parentheses, assignment, `?:` and all modelled binary operators, the parser on its minimally and on its fully parenthesised text gives exactly the value and the variables of evaluating the tree; skipped operands of `&&`, `\|\|` and `?:` have no effect |
| `ExprCorrect.Reads` | source/expr.c:253-1306 | the same with blanks around the text and at any stage up to the one of the tree's top operator |
| `ExprCorrect.ReadsPrint` | source/expr.c:276-299 | the text of a tree that needs no further parentheses is read right-associatively by stage, with any number of blanks around operators |
| `ExprTheorems.OneMeaning` | source/expr.c:253-1306 | two trees with the same text have the same value and effect |
| `ExprTheorems.PipeAfterAssignment` | source/expr.c:920-925 | `n=x\|y` stores x alone and yields the combination |
| `ExprTheorems.DocumentedBar` | source/expr.c:920-925 | among the trees that are readable by the documented stages, with `\|` beside `&`, the parser's own stages can read exactly those in which a `\|` without parentheses stands at the top or behind `,` or `\|` |
| `ExprTheorems.DocumentedReading` | source/expr.c:920-925 | these are computed as documented |
| `ExprTheorems.BarTakenOut` | source/expr.c:920-925 | as the right operand of any other binary operator a `\|` is taken out: `a op y \| z` is read as `(a op y) \| z` for all operands |
| `ExprTheorems.BarLeavesAssignment` | source/expr.c:920-925 | and out of every assigned expression |
| `ExprTheorems.MinimalSame` | source/expr.c:276-299 | leaving out parentheses that the stages do not ask for changes no value and no variable |
| `ExprTheorems.FullSame` | source/expr.c:276-299 | parentheses around every operand change no value and no variable |
| `ExprLaws.InfixLaw` | source/expr.c:202-219 | `a op b` yields what its operands yield on their own, from left to right: for `,` the right value, for `&&`, `\|\|` and `^^` 1 or 0 by the truth of both, with the right operand left out where the left one decides, for any other operator its function on both values |
| `ExprLaws.PrefixLaw` | source/expr.c:1177-1193 | parentheses change nothing, and `!` negates what stands behind it |
| `ExprLaws.ChoiceLaw` | source/expr.c:978-1003 | `c ? a : b` yields what the picked side yields after the condition; the other side has no effect |
| `ExprLaws.SignedLaw` | source/expr.c:626-660 | a number with a sign in front is its own value, and a blank text is empty |
| `ExprLaws.WordLaw` | source/expr.c:1262-1287 | a number is its own value, and reading a name changes no variable; a name that holds nothing is asked for in capitals |
| `ExprLaws.AssignLaw` | source/expr.c:1033-1059 | `n=a` has the value of `a`; afterwards every spelling of n, whatever the case of its letters, reads as that value, or as if no variable were set if the value is empty, and every other name reads as `a` left it |
| `ExprLaws.AssignedReads` | source/expr.c:1033-1059 | `n=a,m` yields what m reads as after that assignment |
| `ExprLaws.NumberReads` | source/expr.c:1240-1287 | `n=x,m` yields the number x if m agrees with n letter by letter up to case, and else what `m` yields |
| `ExprLaws.EraseLaw` | source/expr.c:1033-1059 | after `n=` every spelling of n reads as if no variable were set, and every other name as before |
| `ExprLaws.OneOperator` | source/expr.c:202-219 | `x op y` on numbers, for every binary operator by its sign |
| `ExprLaws.TwoOperators` | source/expr.c:276-1259 | `x op y op z` on numbers: the operator of the tighter class is carried out first, of two in one class the right one; `\|` is in the class of `,` |
| `ExprLaws.NotFirst` | source/expr.c:1177-1193 | `!x op y` negates x alone |
| `ExprLaws.AssignOperator` | source/expr.c:1033-1059 | `n=x op y` assigns the result of the operator, but x alone if the operator is `,` or `\|` |
| `ExprLaws.ChoiceOperator` | source/expr.c:978-1003 | `x op y ? z : w` tests the result of the operator, but y alone if the operator is `,` or `\|` |
| `ExprCorrect.ScanPass` | source/expr.c:299-1259 | a scan at a looser stage passes over the whole text of a tighter tree without stopping at any of its operators |
| `ExprCorrect.BracketsPass` | source/expr.c:299-340 | inside the text of a tree all brackets and `?` `:` pairs match, so the search for the closing one passes over it |
| `ExprParser.Scan` | source/expr.c:299-1259 | an operator found lies inside the text, so both operands are shorter: with the stage this is the measure by which the parser ends on every text |
| `ExprMachine.LastOp` | source/expr.c:61-80 | the loop stops at the end of the run of operator characters |
| `ExprMachine.FindOp` | source/expr.c:299-1259 | the loop over the text finds what the scan on values finds |
| `ExprMachine.Interpreter.NextUnit` | source/expr.c:107-1306 | the parser that assigns variables in place ends, and returns the value and leaves the variables that the specification gives, on every text |
| `ExprMachine.Interpreter.Operate` | source/expr.c:202-219 | carrying out one operator in place evaluates the operands in order, the right one only if it is needed, and stores an assignment last |
| `ExprMachine.Interpreter.ParseInline` | source/expr.c:1314-1322 | a whole expression is parsed from the loosest stage |
| `Names.HashOrder` | include/alist.h:17-43 | for 7-bit names the signed difference of the masked hash words has the sign of comparing the first four characters |
| `Names.NCmpPrefix` | source/alist.c:207-343 | `strncmp` over the name's own length is zero exactly for completions, and else agrees with `strcmp` |
| `Names.NCmpFalls` | source/alist.c:207-343 | up a sorted table the comparison with a fixed name goes from greater over equal to less, so completions are contiguous |
| `Names.CmpFirst` | source/alist.c:207-343 | in `strcmp` the bytes at the first difference decide, and a proper prefix comes first |
| `AlistSpec.FoundIsScan` | source/alist.c:180-206 | the documented contract (block of completions, sign of the count, insertion place) holds of exactly one answer, the one of a linear scan |
| `Alist.Array.Find` | source/alist.c:207-343 | the two-level binary search meets that contract on every sorted table of 7-bit names |
| `Alist.Array.SearchHash` | source/alist.c:229-257 | the search on hashes stops at an entry with equal leading characters or at the place between smaller and greater ones |
| `Alist.Array.Widen` | source/alist.c:264-268 | the widened range contains every completion |
| `Alist.Array.SearchName` | source/alist.c:275-296 | the search by `strncmp` in that range stops at a completion or at the insertion place |
| `Alist.Array.CountMatches` | source/alist.c:302-342 | counting both ways from one completion gives the whole block and the sign for an exact match |
| `Alist.Array.Add` | source/alist.c:46-74 | an exact match is displaced and returned, else the entry goes to its place; the table stays sorted and without duplicates |
| `Alist.Array.Remove` | source/alist.c:79-92 | only an exact match is removed and returned |
| `Alist.Array.Pop` | source/alist.c:95-106 | the entry at a position is taken out, all others keep their order |
| `Alist.Array.RemoveFirst` | source/alist.c:111-127 | the first completion is removed and returned |
| `Alist.Array.MoveUp` | source/alist.c:159-177 | entries move one slot up without loss |
| `AlistSpec.AddedMap` | source/alist.c:46-74 | filing an entry is a map update |
| `AlistSpec.RemovedMap` | source/alist.c:79-92 | removing a name takes exactly that name out of the map |
| `AlistSpec.PoppedMap` | source/alist.c:95-106 | popping takes exactly the name at the position out of the map |
| `AlistSpec.PoppedRank` | source/alist.c:95-106 | that is the name with exactly so many names before it; a position outside the table takes nothing |
| `AlistSpec.RunRefines` | source/alist.c:46-106 | over every run of adding, removing and popping the table stays sorted and behaves like a map from which a pop takes the name of that rank |
| `AlistSpec.RemovedFirstStep` | source/alist.c:111-127 | one removal of a completion lowers the number of completions and leaves the rest in order |
| `FixedArray.FindFixed` | source/alist.c:354-429 | for every non-empty sorted table and name without NUL bytes the search ends although its bounds need not shrink, answers NULL exactly without a completion, and else gives the first completion with the right count and sign |
| `FixedArray.FailedPlace` | source/alist.c:349-429 | after a failed search the reported place is the insertion place if and only if the name sorts before the whole table |
| `FixedArray.PlaceMissed` | source/alist.c:354-429 | a table and a name whose insertion place is not reported |
| `AliasCache.AliasSet.FindVar` | source/alias.c:1125-1191 | the entry whose name is exactly the asked one (the empty name for `::`), with the value of that variable, and nothing if there is no such variable; it is the entry exact lookup in the table returns, and it is served to the front of the cache; a cache without an entry in two slots stays so if and only if the name is not `::`, or no variable has the empty name, or none of the kept slots holds it |
| `AliasCache.AliasSet.FindCmd` | source/alias.c:1193-1260 | the exact entry, else the only completion, else nothing, with the sign of the count independent of a cache hit; a cache without an entry in two slots stays so if and only if the name is in the table, or has not exactly one completion, or none of the kept slots holds that one |
| `AliasCache.ColonsTwice` | source/alias.c:1135-1170 | a variable with the empty name, asked for twice as `::`, fills two slots |
| `AliasCache.AbbreviationTwice` | source/alias.c:1205-1236 | a command asked for by its name and then by an abbreviation fills two slots |
| `AliasCache.AliasSet.AddVar` | source/alias.c:893-964 | assignment updates the map of variables, an empty value removes the name |
| `AliasCache.AliasSet.DeleteVar` | source/alias.c:1417-1440 | the name goes from the map, and no cache slot points to a removed entry |
| `AliasCache.AliasSet.DeleteAll` | source/alias.c:1395-1415 | the loop ends with exactly the entries that do not start with the name, in their old order, and no stale cache slot |
| `AliasCache.AliasSet.Destroy` | source/alias.c:2026-2050 | table and cache are emptied |
| `AliasCache.AliasSet.Run` | source/alias.c:893-1440 | from every state of the set, every run of assignments, deletions, deletions by prefix, emptyings, variable lookups and command lookups answers like a plain map; a variable lookup answers the value last written under its name and not deleted since, a command lookup the same or else the value under the only name it abbreviates; with every cache slot empty or live; before the first lookup a deletion by prefix must have nothing to delete, because it clears a cache that is not there |
| `AliasCache.RunTells` | source/alias.c:893-1440 | on the plain map every answer of a run is told by the operations alone, read from the last one back |
| `AliasCache.RunHolds` | source/alias.c:893-1440 | after every run each name is bound to what was last written under it |
| `AliasCache.AliasSet.OneCompletion` | source/alias.c:1220-1260 | the count of the search is one exactly if the map has one key that completes the name, and then the entry is the one of that key |
| `AliasCache.AliasSet.FindAll` | source/alias.c:1141-1170 | between deletions, from any state of the set: after any run of lookups (of variables and commands, `::` and abbreviations included) and non-empty assignments the entries found latest stand in front of the cache, most recent first; they are listed once each if each was found under its own name, and in a cache of empty slots there is nothing else |
| `CacheSpec.CacheIsRecent` | source/alias.c:1141-1170 | whatever the slots held before, move-to-front over any history leaves the latest items in front, as far as the cache reaches |
| `CacheSpec.NewCacheIsRecent` | source/alias.c:1141-1170 | empty slots are left with the latest items and nothing else |
| `CacheSpec.LatestDistinct` | source/alias.c:1141-1170 | the latest items are distinct if each was found under its own name |
| `CacheSpec.LatestHas` | source/alias.c:1141-1170 | they are the items served and no others |
| `CacheSpec.UnseenRepeats` | source/alias.c:1135-1170 | serving an item into a cache that holds no item twice, empty slots aside, keeps it so if and only if the item was looked for under its own name or is in none of the kept slots |
| `FrameSpec.ApplyKeeps` | source/alias.c:2054-2115 | every operation keeps each frame's parent below the frame, so lookups end |
| `FrameSpec.LookupSees` | source/alias.c:1313-1390 | on every stack, blessed frames included, a lookup finds the innermost frame of its chain of parents that has the name, and fails exactly if none has it |
| `FrameSpec.MarkedChain` | source/alias.c:2088-2097 | where every frame goes on to the one right below it, except those made with a name, the chain is every level down to and including the nearest such frame |
| `FrameSpec.RunSees` | source/alias.c:1313-1390 | after every run without blessing from the empty stack a lookup from a level finds the innermost level with the name among those from the last frame made with a name up to the level itself, and nothing exactly if none of them has it; which frames were made with a name is told by the operations alone |
| `FrameSpec.AddSets` | source/alias.c:966-1008 | assigning sets the variable where the current frame sees it, or in the current frame if it sees none; then the current frame sees it there, and no other variable, lock or lookup changes |
| `FrameSpec.MakeDestroys` | source/alias.c:2054-2144 | a new frame is empty and unlocked; it sees nothing if it is named and else what the frame below sees; destroying it gives back the old frames |
| `FrameSpec.LockSets` | source/alias.c:2156-2159 | locking changes the lock of the current frame and nothing a lookup sees |
| `FrameSpec.UnlockSets` | source/alias.c:2161-2166 | unlocking opens the lowest locked outer frame, if there is one, and changes nothing else |
| `FrameSpec.BlessSees` | source/alias.c:2101-2115 | a blessed frame sees its own variables and past them what the lowest locked outer frame sees, or nothing without one; all other lookups are the same |
| `FrameSpec.OuterUnchanged` | source/alias.c:966-1008 | all runs that keep the frame at a level, blessing included, leave names, parents and variables of the frames below it unchanged if and only if no lookup from a frame at or above the level, or from a locked frame below it, finds a variable below it |
| `FrameSpec.QuietOuterUnchanged` | source/alias.c:966-1008 | all such runs without blessing leave the frames below the level unchanged if and only if no lookup from a frame at or above it finds a variable below it; locked outer frames do not matter |
| `FrameSpec.NamedFrameKeeps` | source/alias.c:2054-2144 | every run inside a new named frame, without blessing, leaves names, parents and variables of all outer frames unchanged, with no further condition |
| `FrameSpec.MakeShields` | source/alias.c:2088-2092 | a new named frame is protected in this way if and only if no locked frame sees a variable |
| `FrameSpec.BreachLocked` | source/alias.c:2101-2115 | if a locked outer frame sees a variable, unlocking those before it, making a frame, blessing it and assigning changes that variable |
| `FrameSpec.BreachInside` | source/alias.c:966-1008 | if an inner frame sees an outer variable, destroying the frames above it and assigning changes that variable |
| `LocalFrames.CallStack.MakeLocalStack` | source/alias.c:2054-2099 | a frame is pushed, unlocked and empty, with no parent if named and else the frame before it |
| `LocalFrames.CallStack.DestroyLocalStack` | source/alias.c:2131-2144 | the current frame is popped, all others stay |
| `LocalFrames.CallStack.BlessLocalStack` | source/alias.c:2111-2115 | the current frame becomes anonymous with the first locked frame as its parent |
| `LocalFrames.CallStack.FindLocked` | source/alias.c:2101-2109 | the first locked frame outside the current one |
| `LocalFrames.CallStack.LockStackFrame` | source/alias.c:2156-2159 | the current frame is locked |
| `LocalFrames.CallStack.UnlockStackFrame` | source/alias.c:2161-2166 | that frame is unlocked |
| `LocalFrames.CallStack.FindLocalAlias` | source/alias.c:1295-1390 | the loop along the parents ends at the level the lookup on values gives |
| `LocalFrames.CallStack.AddLocalAlias` | source/alias.c:966-1008 | a visible variable is overwritten where it is, another one is made in the current frame |
| `ScriptArrays.AnArray.FindItem` | source/array.c:205-224 | the binary search through the index finds an equal item, or the place that keeps the index sorted |
| `ScriptArrays.AnArray.InsertIndex` | source/array.c:230-246 | the newest item is entered at the given place |
| `ScriptArrays.AnArray.MoveIndex` | source/array.c:252-271 | one index entry moves, the others keep their order |
| `ScriptArrays.AnArray.FindIndex` | source/array.c:281-298 | the slot that refers to the item is found, also among equal items and on both sides of the threshold of 100 |
| `ScriptArrays.AnArray.Drop` | source/array.c:886-896 | deletion and renumbering keep the index a permutation that sorts the items |
| `ScriptArraySpec.Overwrite` | source/array.c:657-666 | moving the entry to the place found for the new text, before the item changes, keeps the index a sorting permutation |
| `ScriptArraySpec.Append` | source/array.c:667-676 | an added item keeps the index a sorting permutation |
| `ScriptArraySpec.Delete` | source/array.c:886-896 | removing an entry and lowering higher numbers keeps the index a sorting permutation |
| `ScriptArraySpec.ZipRemove` | source/array.c:323-362 | taking one pair out of two parallel lists removes one name from their map and leaves every other name bound to its own contents |
| `ScriptArrays.ArrayStore.GetArray` | source/array.c:304-315 | the position of the named array, or none exactly if the map has no such name |
| `ScriptArrays.ArrayStore.SetItem` | source/array.c:635-707 | after an answer of 0, 1 or 2 `getitem` gives the new text at the number, every other item of every array is as before, and the length is the same, one more for 1 and 2; a negative answer changes nothing; each answer is given exactly in its case |
| `ScriptArrays.ArrayStore.DelItem` | source/array.c:863-903 | items below the deleted one stay, those above move down by one, the array is one shorter and gone if that was its only item, all others are as before; each answer is given exactly in its case |
| `ScriptArrays.ArrayStore.DeleteArray` | source/array.c:323-362 | exactly the named array goes, at both levels |
| `ScriptArrays.ArrayStore.DelArray` | source/array.c:909-920 | the answer, and exactly the items of the named array go |
| `ScriptArrays.ArrayStore.Run` | source/array.c:635-920 | every run of setitem, delitem and delarray answers like a plain map from names to lists, each step having these effects on what `getitem` and `numitems` give, with every index a sorting permutation |
| `ScriptArrays.ArrayStore.GetItem` | source/array.c:603-621 | the item of the map, or nothing |
| `ScriptArrays.ArrayStore.NumItems` | source/array.c:587-597 | the number of items, 0 without the array |
| `ScriptArrays.UpperSame` | source/array.c:304-315 | two names reach the same array exactly if they agree letter by letter up to case |
| `ScriptArrays.SetLaw` | source/array.c:635-707 | setitem on the plain map has these effects on items and lengths, for every name and number |
| `ScriptArrays.DelLaw` | source/array.c:863-903 | so has delitem |
| `ScriptArrays.GoneLaw` | source/array.c:909-920 | delarray takes exactly the items of the array, under every spelling of its name |
| `ScriptArrays.RunLaw` | source/array.c:635-920 | every step of every run has these effects, and no array is ever empty |
| `ScriptArrays.ArrayStore.FindItem` | source/array.c:741-756 | the number of an equal item, -1 without array or text, -2 exactly without a match |
| `ScriptArrays.ArrayStore.IFindFirst` | source/array.c:926-947 | the first slot in sorted order that holds the text |
| `ScriptArrays.ArrayStore.IndexToItem` | source/array.c:810-829 | the item a slot refers to, by a permutation that sorts the items |
| `ScriptArrays.ArrayStore.ItemToIndex` | source/array.c:836-855 | the only slot that refers to the item: the inverse of indextoitem, also among equal items |
| `DnsQueue.Queue.Dequeue` | source/cdns.c:414-427 | the first entry leaves the linked queue and is cut loose; null exactly on an empty queue |
| `DnsQueue.Queue.Enqueue` | source/cdns.c:430-441 | an entry joins at the end |
| `DnsQueue.Queue.EnqueueUrgent` | source/cdns.c:446-454 | an entry joins at the front |
| `DnsProofs.PipelineStep` | source/cdns.c:146-330 | in the list of all accepted requests from the oldest delivery to the newest submission no step moves anything, except that a submission joins at the end and an urgent request passes the pending ones |
| `DnsProofs.Keeps` | source/cdns.c:146-330 | every step of either thread keeps mutual exclusion, the wake-up rules, conservation, order and single lookup |
| `DnsProofs.Safety` | source/cdns.c:146-330 | the same after every run |
| `DnsProofs.NothingStranded` | source/cdns.c:163-174 | in every interleaving a worker asleep without a signal has no pending request unless main holds the mutex to signal it, and a finished request has a byte in the pipe, or a worker that will write one, or main emptying the queue |
| `DnsProofs.ExactlyOnce` | source/cdns.c:146-330 | at every moment each accepted request is in exactly one of pending, the worker's hands, finished, main's hands or delivered |
| `DnsProofs.DeliveryOrder` | source/cdns.c:207-236 | nothing is delivered twice or without its one lookup, and only an urgent request is delivered before an older one |
| `DnsProofs.Falls` | source/cdns.c:194-330 | every step but a submission or a spurious wake-up lowers a bound on the work left |
| `DnsProofs.SomeStep` | source/cdns.c:194-330 | until everything is delivered some thread can move: no deadlock and no lost wake-up |
| `DnsProofs.EverythingDelivered` | source/cdns.c:194-330 | whenever no thread can move, every accepted request has been delivered |
| `DnsProofs.StopsSoon` | source/cdns.c:194-330 | without new requests every schedule stops after a bounded number of steps |
| `DnsProofs.CanFinish` | source/cdns.c:194-330 | from every state that keeps the invariant a schedule delivers everything |
| `CtcpText.QuoteIt` | source/ctcp.c:1538-1570 | the loop computes the quoting |
| `CtcpText.UnquoteIt` | source/ctcp.c:1579-1623 | the loop computes the unquoting, a trailing quote character reading the terminator |
| `CtcpText.UnquoteUndoes` | source/ctcp.c:1579-1623 | unquoting undoes quoting for all bytes, with anything behind |
| `CtcpText.WireEscapes` | source/ctcp.c:1538-1623 | the five escapes by their bytes, in both directions; every other byte stands for itself |
| `CtcpText.QuoteClean` | source/ctcp.c:1538-1570 | quoted text has no NUL, CR, LF or delimiter and at most doubles |
| `CtcpText.CutQuote` | source/ctcp.c:1579-1623 | a cut quoted text unquotes to a prefix, with a NUL behind it if the cut fell inside an escape |
| `CtcpText.CutLoses` | source/ctcp.c:1538-1623 | a cut quoted text unquotes to the original if and only if nothing or only the letter of a final NUL was cut off |
| `SedCipher.Encrypt` | source/encrypt.c:141-163 | the in-place loop leaves at each byte the exclusive or of all plain bytes so far and one key byte, and nothing else changes |
| `SedCipher.CipherBytes` | source/encrypt.c:141-163 | the first cipher byte is the first plain byte under the first key byte; each next one is the one before, freed of its key byte, under the next plain byte and the next byte of the repeated key |
| `SedCipher.Decrypt` | source/encrypt.c:165-188 | the in-place loop leaves the exclusive or of neighbouring cipher bytes without their key bytes |
| `SedCipher.DecryptUndoes` | source/encrypt.c:141-188 | decrypting undoes encrypting for every text and non-empty key |
| `SedCipher.EncryptUndoes` | source/encrypt.c:141-188 | encrypting undoes decrypting |
| `SedCipher.CryptMsg` | source/encrypt.c:215-234 | the message built in place of the caller's string is the cut, quoted, framed ciphertext |
| `SedCipher.DecryptMsg` | source/encrypt.c:246-260 | the text of a SED argument |
| `SedCipher.RoundTrip` | source/encrypt.c:190-260 | the argument of a message opens to the original if and only if the quoted bytes fit the buffer or only the letter of a final NUL is cut off |
| `SedCipher.LongIsLost` | source/encrypt.c:215-234 | every text of more than 457 characters fails to open to itself, whatever the key |
| `CtcpMachine.SplitCtcp` | source/ctcp.c:1651-1673 | the split at the first two delimiters |
| `CtcpSpec.SplitFacts` | source/ctcp.c:1651-1673 | a frame takes at least two delimiters and its own text out of the message |
| `CtcpSpec.DelimitersFall` | source/ctcp.c:1142-1146 | with at most one delimiter pasted for a frame, the number of delimiters and the text behind the first one both fall |
| `CtcpSpec.DoCtcp` | source/ctcp.c:1112-1339 | the result has at most one delimiter and no more text behind it than the message, also with nested calls; this is why a paste adds at most one delimiter and why the recursion ends |
| `CtcpSpec.ReplyLimit` | source/ctcp.c:1128-1177 | in one call, nested ones apart, at most one limited handler runs, nothing runs after it, and none at all with more than eight delimiters or an ignored sender |
| `CtcpSpec.LimitCarries` | source/ctcp.c:1225-1236 | with flood protection on, after a call that ran a limited handler a later call runs nothing but ACTION and DCC until the delay is over |
| `CtcpSpec.OneReply` | source/ctcp.c:1225-1292 | with flood protection on, at most one limited handler other than DCC runs in a whole message, nested calls included |
| `CtcpSpec.TwoReplies` | source/ctcp.c:1277-1292 | with it off, an encrypted VERSION request and a plain one in one message run the limited handler twice |
| `CtcpSpec.StripsFrames` | source/ctcp.c:1140-1147 | a call that pastes nothing returns the line, cut at 510 characters, without its frames |
| `CtcpSpec.StripIsOutside` | source/ctcp.c:1140-1147 | stripping gives exactly the text outside the delimiter pairs, an unmatched last delimiter included, if and only if nothing outside stands behind a frame with no text |
| `CtcpSpec.CallLeavesOutside` | source/ctcp.c:1112-1339 | a call that pastes nothing on a message that fits the line returns the text outside the delimiter pairs if and only if nothing outside them stands behind a frame with no text |
| `CtcpSpec.EmptyFrameLoses` | source/ctcp.c:1142-1147 | a message whose outside text `do_ctcp` loses |
| `CtcpSpec.SplitsBack` | source/encrypt.c:215-260 | for every NUL-free text and non-empty key, when nothing is cut off, `split_CTCP` of `crypt_msg`'s output is one frame with nothing around it, its command is SED, and `decrypt_msg` of its argument is the text |
| `CtcpSpec.EncryptedFrame` | source/ctcp.c:640-670 | a message with such a frame behind delimiter-free text: the frame is replaced by what `do_ctcp` makes of the encrypted text, nested CTCPs included, and up to three further frames are then taken in turn |
| `CtcpSpec.EncryptedReenters` | source/ctcp.c:660-665 | with no delimiter on either side of the frame, what the nested call leaves of the text stands in its place |
| `CtcpSpec.EncryptedArrives` | source/ctcp.c:640-670 | and if the text has no CTCP of its own, it arrives as it is |
| `CtcpSpec.UtcFrame` | source/ctcp.c:672-684 | a UTC frame in delimiter-free text is replaced by the time its argument, cut at 60 characters, stands for, and by nothing with CLOAK on or without an argument; the rest of the line is cut at 510 characters |
| `CtcpSpec.NoKeyFrame` | source/ctcp.c:640-670 | a SED frame without a key is replaced by "[ENCRYPTED MESSAGE]" |
| `CtcpSpec.ActionFrame` | source/ctcp.c:1207-1214 | an ACTION frame runs, also while the sender floods, and leaves the text around it |
| `CtcpSpec.OtherFrame` | source/ctcp.c:1194-1292 | any other frame leaves the text around it; a command of the table runs and stamps the time of the reply, an unknown one does neither |
| `CtcpSpec.FloodFrame` | source/ctcp.c:1225-1236 | while the sender floods no frame but ACTION and DCC runs, and the delay starts anew |
| `CtcpSpec.UnheardFrame` | source/ctcp.c:1166-1192 | with an ignored sender or a global target a frame goes and nothing runs |
| `CtcpSpec.LongMessage` | source/ctcp.c:1118-1140 | without a pair of delimiters a message of any length stays as it is, and one with up to eight delimiters is handled as its first 510 characters |
| `CtcpMachine.CtcpClient.DoCtcp` | source/ctcp.c:1112-1339 | the loop over the buffer with its nested calls ends and leaves the text, the reply time and the handlers run that the theorems on `do_ctcp` describe |
| `CtcpMachine.CtcpClient.Turn` | source/ctcp.c:1166-1305 | one turn of the loop: the checks in their order, the handler, the paste, the reply limit |
| `CtcpMachine.CtcpClient.Handle` | source/ctcp.c:640-685 | the two inline handlers leave the text, the time and the handlers run that the specification gives; what that is for a whole message say `CtcpSpec.UtcFrame`, `CtcpSpec.NoKeyFrame` and `CtcpSpec.EncryptedFrame` |

## Left out

- Expressions: calls, `{}` and `[]` operands, `++`, `--`, `op=`, unary `~` and a
  `?` without its `:` are answered with a separate outcome; number formatting and
  what the operators compute are uninterpreted, and the numbers of trees carry no
  sign; `#name`, `@name`, names with structure dots and the debug-mode
  `matheval` are not modelled; `MatchingBracket` is modelled by its role.
- `ExprMachine.FindOp`: reports calls, braces, brackets, `++`, `--` and `op=` as
  outside the model.
- `ExprMachine.Interpreter.NextUnit`: gives no value for these constructs.
- `ExprMachine.Interpreter.Operate`: does not carry out `op=`, or `?` without `:`.
- `ExprMachine.Interpreter.ParseInline`: does not go to `matheval`.
- Variables of expressions are the global ones; local frames are modelled apart.
- Memory management: `RESIZE`, `new_free`, `check_array_size` and fixed buffer
  sizes other than those that cut text. `move_array_items` reads one slot behind
  the last entry, so a shift asks for one.
- The case-insensitive hash and `strnicmp` tables; names with bytes over 127 in
  tables that are searched by hash, where the shifted signed characters of the
  hash no longer follow the order of the names.
- `Alist.Array.MoveUp`: moves by one slot, the only distance the source uses.
- The two layouts behind the cast from alias tables to arrays are one type.
- Cache statistics, stubs and `load`, messages to the user, and validity checks
  of alias names.
- `AliasCache.AliasSet.DeleteAll`: asks for an allocated cache if something is to be
  deleted, because the source then clears ten slots whether or not they exist.
- `AliasCache.AliasSet.AddVar`: does not remove brackets, check the name or pass a
  visible local variable on; the name arrives ready.
- Local variables: the table of one frame is a map; implicit structures (names
  that end in a dot) and the `FUNCTION_RETURN` special case are not modelled.
- `LocalFrames.CallStack.FindLocalAlias`: without implicit structures and
  `FUNCTION_RETURN`.
- `LocalFrames.CallStack.AddLocalAlias`: without these and without the checks of
  the name.
- Script arrays: reading the arguments from the command line, `wild_match`
  queries, and `delete_all_arrays`.
- Background lookups: `stop_dns`, `kill_dns`, the quit mutex, signals, the
  resolver itself (a lookup is one step with any answer), refused hosts, and a
  select loop that never returns. The queues of the step machine are lists; the
  methods of `DnsQueue.Queue` prove that the pointers behave like these lists.
- `CtcpMachine.CtcpClient.DoCtcp`: without hooks, Tcl and dll handlers.
- `CtcpMachine.CtcpClient.Turn`: without these; flooding counts only by its effect
  on replies.
- `CtcpMachine.CtcpClient.Handle`: the handlers other than SED and UTC paste
  nothing, and what else they do is not modelled.
- CTCP: the handlers other than SED and UTC, display, hooks, Tcl and dll
  handlers; check_flooding beyond its effect on replies; the local time format is
  any function that yields no delimiter; a missing key in `my_encrypt`.
- CTCP replies (`do_notice_ctcp`) and sending.
- `FrameSpec.OuterUnchanged`: the lock flags of outer frames may change, because
  unlocking inside a frame releases the first locked frame outside it.
- All other files of the repository: sockets, windows, commands, and tables.
