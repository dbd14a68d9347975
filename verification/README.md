# RimStone's runtime structures and codecs, in Dafny

RimStone compiles web services to C and runs them on a small runtime library. This project models
the parts of that library that hold its state or cross its borders, and proves what they are for.

- **The AVL tree of `tree.c`** (`Tree*.dfy`, `Numerals.dfy`). `AvlTree.RimTree` changes nodes in place,
  step by step as the source does: rotations through a parent and a direction, cached heights, and the
  sorted list threaded through the nodes. Nodes are cells of an arena addressed by number. Each procedure
  is proved against an operation on the represented shape (`TreeShape`), and the shape against sorted
  lists, finite maps and, over whole runs, the map the same calls build. The rotation leaves the height
  of the new top stale; the proofs show that no step reads a stale height before it is recomputed, so
  every stored height but the top one is exact between operations.
- **The request-scoped memory of `rimmem.c`** (`Memory*.dfy`). `Memory.Manager` keeps the table with its
  free and ordinary chains and the index in every block's header. `MemoryBlocks` is the heap its users
  see; each call of the manager is one step of it, and the properties of whole runs are proved there.
  `MemoryScopes` counts the process references added and dropped by the calls of a run and says from them
  alone how long a block stays process-scoped.
- **UTF-8 and escaped text, `utf.c` and `utfs.c`** (`Utf.dfy`, `Text*.dfy`). The parser works in place on
  an array with a reading and a writing index; the printer fills a buffer. The reference is section 3 of RFC 3629 and section 7 of RFC 7159: every spelling of a string parses to its
  UTF-8, and what is printed is a spelling. `TextLaws` says which spelling, and what is refused.
- **The service manager of `mrim.c`** (`Handshake.dfy`, `Worker*.dfy`). The handshake is a state machine
  of single loads and stores of two shared cells, in any interleaving of the resident process with one
  client at a time: what a reply means, and that every command is carried out. `WorkerPool.Pool` is the
  process table and the resident loop; its `CheckShm` gives exactly the actions that the handshake's resident
  process takes. All that a turn finds, the looks at connections, the answers of `waitpid` and what comes of
  each start, is a parameter, so that the loop is proved to make exactly the workers that `WorkerTurns` says;
  `WorkerSlots` and `WorkerLaws` say what that means for one pass, one turn and whole runs.
- **The hash of `hash.c`** (`HashChains.dfy`, `Hash.dfy`): buckets of linked entries that always stand for
  a finite map, resizing, and the traversal that may delete.
- **SEMI messages, `msg.c`** (`Message*.dfy`): items written to a growing buffer, parsed in place.
- **The FastCGI client of `rcli.c`** (`FastCgi*.dfy`): environment, body records and the reading of replies,
  against sections 3.3, 3.4, 5.1 to 5.3 and 5.5 of the FastCGI Specification 1.0.

`Bytes.dfy`, `Common.dfy` and `Addresses.dfy` hold what several of these share. Allocation, `read`, `write`, `fork`,
`waitpid`, `select` and file times are nondeterministic steps; the address a reallocation returns is a
parameter.

## What the proofs found

- Time-outs break the command handshake. A client that gives up stores "done" whatever the process is
  doing; a later command can then be carried out before it is posted and again afterwards, or be
  acknowledged without being carried out. `GiveUpIsSafeIffHarmless` gives the exact condition under which
  giving up is safe, `StopCarriedOutTwice` a run that carries one command out twice, and
  `NoMoreExecutionsThanPosts` what still holds in every run. A client cannot see the whole condition
  (`HarmlessIfNotWaiting`, `WaitingTellsNothing`).
- A worker that fails to start, because the program is missing or stays inaccessible, leaves its slot
  vacant and is counted as started (mrim.c:798-806, 937-942). A fixed pool is filled, and a pool that was down
  gets the workers it asks for, if and only if every attempted start succeeds (`FilledIffAllStarted`,
  `StartedOnlyTracks`). An adaptive pool counts its workers before it looks at each of them again, and does not
  replace one that ends in between (mrim.c:930-954): it reaches its minimum if and only if as many are found
  running, or all that were counted are and every attempted start succeeds (`ReachesMinimumIff`). The upper
  bound and the stopped state hold in any case. Over whole runs, every turn whose starts succeed leaves all the
  workers that are wanted unless a stop is in force (`RunKeepsMinimum`). `FailedStartLeavesGap`,
  `FailedStartIsCounted` and `EndedWorkerIsNotReplaced` are inputs at which workers are missing.
- `\U` followed by a number from 80000000 to FFFFFFFE is accepted: the number is kept in 32 bits, turns
  negative, passes the first range test and puts one byte (`EightTakenWhen`, `NegativeEightPutsOneByte`,
  `EightDigitsReadAsA`). Behind a first `\u` in the surrogate range any second number is joined, so two high
  surrogates are accepted (`PairTakenWhen`, `TwoHighSurrogatesTaken`), and a joined surrogate is written as
  bytes that are no UTF-8 (`PairPutsCharacterWhen`).
- The printer escapes five control characters and copies the others, so that its JSON text is not always one
  that RFC 7159 allows: it is free of bytes below 32 if and only if the string has none but those five
  (`ControlsCopied`, `NoEscapedControls`).
- The buffer of the printer, three characters for each byte, is too small for some lengths that end inside a
  sequence. `TooLongIffOverruns` says for which, by a scan of the string (`Overruns`); `UtfToText` is proved for
  all others. `CutSequenceOverruns` is one that is too long, `CutSequenceMayFit` one that is not.
- A length in a message is used as a signed number. A negative one is accepted when a NUL or newline is at
  the place it leads back to, which may overwrite a value given before (`LeadsBackOverwrites`,
  `AllOnesIsTaken`). `StaysInsideIffNotNegative` says that exactly lengths whose first byte is below 128 keep
  an item to itself.
- A process-scoped block that is moved by a reallocation while process memory is off leaves an entry that is
  marked process-scoped on the ordinary chain; `Realloc` states that the table stays sound if and only if
  this does not happen, `MoveOutsideMode` is a run in which it does.
- The end of a request closes open files and directories but does not free their blocks
  (rimmem.c:494-503); `Done` says so in what it gives back as freed.
- A request without a body sends no input record at all, not even the empty one that would end the stream
  (rcli.c:960-985): `InputEndsIffBody`, `NoBodyNoEnd`.
- The documentation of trees says that keys are compared with `strcmp`; the code compares one byte more
  than the shorter key with `memcmp`, which is the same order for keys without a NUL.

## Model

| member | source | states |
|---|---|---|
| TreeKeys.CompareDecides | tree.c:48-68 | the comparison of two keys is negative, zero or positive exactly when the first is below, equal to or above the second in a strict order |
| TreeKeys.MemcmpTerminatedIsLex | tree.c:60-67 | comparing one byte more than the shorter string, terminator included, is the lexicographic order of the strings |
| TreeKeys.LessTransitive | tree.c:48-68 | the key order is transitive, for string and for numeric keys |
| TreeKeys.LessStrict | tree.c:48-68 | of two keys never both are below each other, and none is below itself |
| Numerals.Num2Str | rimrtc.c:1506-1535 | the string made for a number in a base 2 to 36 is its numeral, with a minus sign for a negative one; no string for another base |
| Numerals.TakeApart | rimrtc.c:1516-1519 | the digit array holds the remainders, the last digit first, and has room for every 64-bit number |
| Numerals.NumeralBack | rimrtc.c:1506-1535 | a numeral evaluates back to its number and has no leading zero |
| Numerals.DigitTable | rimrtc.c:1506-1535 | the digits are 0 to 9 and then a to z |
| Numerals.NumeralKeysCompareAsNumbers | tree.c:50-59 | comparing two numerals by length and then by bytes has the sign of the difference of the numbers, in any base |
| TreeShape.AvlSizeAtLeastFib | tree.c:190-226 | a tree of height h balanced at every node has at least Fib(h+2) - 1 nodes |
| TreeShape.HeightFitsSevenBits | tree.c:124-132 | with fewer than 2^63 nodes the height is at most 90, so the stored seven bits never overflow |
| TreeShape.BalanceRestores | tree.c:190-226 | balancing a node whose subtrees are exact and differ by at most two in height restores the balance, with every stored height exact but that of the new top, and lowers the height by at most one |
| TreeShape.RebalanceMakesExact | tree.c:284-285 | balancing a subtree of which only the top height may be stale makes every stored height exact |
| TreeShape.BalanceIgnoresTopHeight | tree.c:153-158 | the height a rotation leaves stale is never read by the balancing that recomputes it |
| TreeShape.InsertKeepsSound | tree.c:233-324 | insertion keeps every node balanced and every stored height but the top one exact, and the tree grows by at most one level |
| TreeShape.DeleteLeastKeepsSound | tree.c:516-561 | so does taking out the successor, and the branch shrinks by at most one level |
| TreeShape.DeleteKeepsSound | tree.c:567-632 | so does deletion |
| TreeShape.InsertSplices | tree.c:233-324 | insertion puts the new node in one place of the in-order node sequence and moves no other node; nothing changes for a key that is there |
| TreeShape.DeleteSplices | tree.c:567-632 | deletion takes one node out of the in-order node sequence and moves no other node, whichever node's memory is freed |
| TreeItems.InsertRefinesList | tree.c:233-324 | insertion acts on the in-order keys and data as insertion into a sorted list |
| TreeItems.DeleteRefinesList | tree.c:567-632 | deletion acts on them as removal from a sorted list |
| TreeItems.InsertMeans | tree.c:233-324 | insertion keeps the whole invariant and adds exactly the key to the finite map, unless it is there |
| TreeItems.DeleteMeans | tree.c:567-632 | deletion keeps the whole invariant and removes exactly the key from the finite map |
| TreeRuns.RunRefinesMap | tree.c:190-632 | after any run of inserts and deletes the tree is a search tree for the map the same calls build, has as many nodes as keys, is balanced at every node, and has exact stored heights but at the top |
| TreeItems.FindMeans | tree.c:432-452 | the search finds a node exactly for the keys of the map, with their data |
| TreeNodes.RotatedRight | tree.c:139-159 | the link assignments of a right rotation, in their order, make the nodes represent the rotated shape |
| TreeNodes.RotatedLeft | tree.c:165-185 | the same for a left rotation |
| AvlTree.RimTree.constructor | tree.c:106-117 | a new tree is valid and stands for the empty map |
| AvlTree.RimTree.InsertKey | tree.c:726-742 | an absent key is added with its data and the cursor is at its node; for a present key nothing changes and the status says so |
| AvlTree.RimTree.DeleteKey | tree.c:701-720 | a present key is removed and its data given back; for an absent key nothing changes and the status says so; an empty tree gets a new root |
| AvlTree.RimTree.UpdateHeight | tree.c:124-132 | the node's height is one more than the greater of its children's, and the balance factor is their difference |
| AvlTree.RimTree.RotateNodesRight | tree.c:139-159 | the nodes below the parent represent the rotated tree, and nothing else changes |
| AvlTree.RimTree.RotateNodesLeft | tree.c:165-185 | the same to the left |
| AvlTree.RimTree.BalanceNode | tree.c:190-226 | the nodes below the parent represent the balanced tree, and nothing else changes |
| AvlTree.RimTree.InsertNode | tree.c:233-324 | the recursive insertion makes the nodes represent the tree after insertion and keeps the threaded list its in-order sequence, whatever surrounds the subtree |
| AvlTree.RimTree.InsertLesser | tree.c:263-287 | the lesser branch does so, with the child balanced and then the node |
| AvlTree.RimTree.InsertGreater | tree.c:293-317 | the greater branch does so, with the child balanced and then the node |
| AvlTree.RimTree.LinkLesser | tree.c:272-279 | a new lesser leaf goes right before its parent in the threaded list |
| AvlTree.RimTree.LinkGreater | tree.c:302-309 | a new greater leaf goes right behind its parent in the threaded list |
| AvlTree.RimTree.FillBlank | tree.c:236-258 | a node without a key takes the key, and the list ends follow if it is the first of the tree |
| AvlTree.RimTree.MoveInList | tree.c:522-531 | the node with the successor's payload takes the successor's place in the list, also when the two are neighbours |
| AvlTree.RimTree.Unlink | tree.c:580-585 | a deleted node leaves the threaded list and the ends follow |
| AvlTree.RimTree.FindLeafDel | tree.c:516-561 | the successor's key and data move into the found node, its node leaves the tree and is freed, and every node on the way back is balanced |
| AvlTree.RimTree.DeleteFound | tree.c:572-607 | a found node is unlinked, or overwritten by its successor and balanced |
| AvlTree.RimTree.DeleteNode | tree.c:567-632 | the recursive deletion makes the nodes represent the tree after deletion, keeps the threaded list its in-order sequence, gives the data back and frees exactly one node |
| AvlTree.RimTree.Search | tree.c:685-695 | the cursor is at the node of the key with its data, and the status says whether it is there |
| AvlTree.RimTree.SearchLesserEqual | tree.c:331-378 | the cursor is at the greatest key below (or equal to) any probe key, and the search fails exactly when there is none |
| AvlTree.RimTree.SearchGreaterEqual | tree.c:384-425 | the cursor is at the least key above (or equal to) any probe key, and the search fails exactly when there is none |
| AvlTree.RimTree.LesserLinkIsSearch | tree.c:331-378 | in a sorted tree the strict search below a present key ends at its lesser list link |
| AvlTree.RimTree.GreaterLinkIsSearch | tree.c:384-425 | in a sorted tree the strict search above a present key ends at its greater list link |
| TreeSearch.LastBelowIsGreatest | tree.c:331-378 | the place the search below ends at has the greatest key that qualifies |
| TreeSearch.FirstBeyondIsLeast | tree.c:384-425 | the place the search above ends at has the least key that qualifies |
| AvlTree.RimTree.Min | tree.c:459-481 | the cursor is at the least key, or the status says the tree is empty |
| AvlTree.RimTree.Max | tree.c:487-508 | the cursor is at the greatest key, or the status says the tree is empty |
| AvlTree.RimTree.Purge | tree.c:656-678 | deleting root after root ends and leaves a valid empty tree |
| AvlTree.RimTree.CountUnbalanced | tree.c:639-650 | the diagnostic counts the nodes whose stored heights are off balance |
| TreeShape.SoundHasNoneUnbalanced | tree.c:639-650 | the diagnostic finds none in a tree that operations leave |
| Memory.Manager.AddMem | rimmem.c:151-181 | a new block gets a free entry or a new one, on the ordinary chain unless memory is process-scoped, and no other block's entry changes |
| Memory.Manager.AddOrd | rimmem.c:228-231 | the entry is the new head of the ordinary chain |
| Memory.Manager.DelOrd | rimmem.c:200-222 | exactly the requested block's entry leaves the singly linked ordinary chain, wherever it is, and every other block still resolves to its own entry |
| Memory.ExchangeKeepsNames | rimmem.c:205-220 | exchanging two payloads and both back indices leaves every block resolving to an entry that describes it |
| Memory.ExchangeKeepsParts | rimmem.c:205-220 | the exchange leaves both chains and their separation untouched |
| Memory.Manager.Release | rimmem.c:302-309 | the entry is the new head of the free chain |
| Memory.Manager.Malloc | rimmem.c:266-278 | the new block is live with no reference, in the scope in force |
| Memory.Manager.AddRef | rimmem.c:94-111 | a block gets the reference or the promotion the heap model prescribes, a promoted one leaves the ordinary chain, and an overflow changes nothing |
| Memory.Manager.DecProcess | rimmem.c:69-77 | a process reference is dropped, and with the last one the block returns to the ordinary chain |
| Memory.Manager.Free | rimmem.c:399-440 | only an ordinary block without references is freed; constants, process-scoped and referenced blocks are left alone |
| Memory.Manager.FreeInt | rimmem.c:186-190 | an ordinary block is freed whatever its references |
| Memory.Manager.Realloc | rimmem.c:329-376 | a constant gets a new block; a moved block keeps its references, and the table stays sound if and only if a process-scoped block is moved only while process memory is on |
| Memory.MoveOutsideMode | rimmem.c:357-372 | a run of four calls whose last breaks the table |
| Memory.Manager.Done | rimmem.c:483-528 | the end of a request frees exactly the ordinary blocks that are no files, drops the ordinary files, and keeps every process-scoped block |
| MemoryBlocks.FreedAtMostOnce | rimmem.c:399-528 | in every run, over any number of requests, two frees of one address have an allocation between them |
| MemoryBlocks.DeadUntilAllocated | rimmem.c:399-528 | a freed block stays dead until its address is allocated again |
| MemoryBlocks.KeptUntilRequestEnds | rimmem.c:69-111 | a block once referenced or promoted is kept through any run, followed through moves, if and only if nobody frees it unconditionally and no request ends that finds its last process reference dropped; until then only a move gives its memory back |
| MemoryBlocks.KeptUnlessLost | rimmem.c:69-528 | one call loses a kept block exactly by an unconditional free or the end of a request that finds it ordinary |
| MemoryBlocks.UnreferencedIsFreed | rimmem.c:399-440 | an ordinary block that nobody referenced goes with the first free |
| MemoryScopes.ReferenceHolds | rimmem.c:69-109 | in every run, with the block followed through moves, an ordinary block that gets a process reference is process-scoped exactly as long as more process references were added since then than dropped, and its count is the difference |
| MemoryScopes.ProcessUntilLastDrop | rimmem.c:69-109 | however a block became process-scoped, it stays so exactly as long as no call drops the last of its references |
| MemoryScopes.LastDropDemotes | rimmem.c:73-77 | the call that makes additions and drops equal is a drop, and it leaves the block live, ordinary and referenced |
| MemoryScopes.LostOnlyAfterLastDrop | rimmem.c:69-528 | no end of a request and no unconditional free takes such a block before additions and drops were equal |
| MemoryScopes.GoesWithTheRequest | rimmem.c:483-528 | an ordinary referenced block goes with the first end of a request unless a call promotes it before, and its memory is freed exactly if it holds no open file, by the calls made |
| MemoryScopes.OrdinaryStep | rimmem.c:69-528 | a call promotes an ordinary block exactly by a process reference or a move while process memory is allocated; a reference keeps it from the next free |
| MemoryScopes.AllocationScope | rimmem.c:178-179 | a block that is only allocated outlives its request exactly if process memory was being allocated; if it goes, it is freed unless it was marked as a file |
| MemoryScopes.ModeIsLastSet | rimmem.c:30 | the mode in force is the one set last |
| Utf.DecodeMeetsRfc3629 | utf.c:92-123 | the bytes written for a scalar value are the only ones that section 3 of RFC 3629 admits |
| Utf.EncodeInvertsDecode | utf.c:28-73 | reading those bytes gives the number and their length, whatever follows |
| Utf.SurrogatesJoin | utf.c:19-22 | splitting a number from 0x10000 to 0x10FFFF gives a high and a low surrogate that join back to it |
| Utf.GetHex | utf.c:131-144 | the sum of digits times powers is the number the digits stand for, of either case, or an error at the first byte that is no digit |
| Utf.Hex16Back | utf.c:131-144 | four printed digits read back |
| Utf.Hex32Back | utf.c:131-144 | eight printed digits read back |
| TextCodec.Next | utfs.c:54-108 | one turn of the parser takes at least as many bytes as it puts, and never passes the terminator, for every escape |
| TextCodec.CodeEight | utf.c:151-161 | the number behind `\U`, or the error for bad digits, surrogates and -1 |
| TextCodec.CodeFour | utf.c:168-190 | the number behind `\u`, joined with the one behind a second `\u` in the surrogate range, and how many bytes both take |
| TextCodec.WriteCode | utf.c:92-123 | the UTF-8 bytes of a number are written in place, and nothing else is |
| TextCodec.TakeEscape | utfs.c:57-102 | an escape is replaced by what it stands for at the writing index, which does not pass the reading index |
| TextCodec.TextToUtf | utfs.c:24-118 | the in-place parser leaves the value of the text, closed by a NUL when shorter, touches nothing else, ends at the quote or terminator, and fails exactly for bad text or a missing closing quote |
| TextCodec.ReadsIsParse | utfs.c:54-109 | what has been written at any turn is a front part of the value of the whole text |
| TextCodec.UtfToText | utfs.c:129-228 | the printer gives the text of the bytes inside its buffer of three characters for each byte and a terminator, for every length that does not overrun, and fails exactly for bad sequences |
| TextCodec.TextFitsStop | utfs.c:138-147 | three characters for each byte are enough up to where the turns stop, which is at the length or behind it |
| TextCodec.TooLongIffOverruns | utfs.c:138-147 | the text is longer than three characters for each byte of the length if and only if the last turn cuts a sequence whose notation is wider than what is left; never when the turns stop at the length |
| TextCodec.CutSequenceMayFit | utfs.c:138-147 | a length that ends inside a sequence and does not overrun |
| TextCodec.CutSequenceOverruns | utfs.c:138-140 | a length that ends inside a sequence and overruns |
| TextRoundTrip.SpellingsParse | utfs.c:48-117 | every spelling of a string, raw, short, `\u`, surrogate pair or `\U`, in any mix, parses to its UTF-8 bytes and ends where the spelling ends |
| TextRoundTrip.PrintSpells | utfs.c:145-219 | in both modes the printer never fails on UTF-8 and writes a spelling of the string |
| TextRoundTrip.RoundTrip | utfs.c:48-220 | in both modes, quoted or not, parsing what was printed gives the same bytes, and no quote in the text is unescaped |
| TextRoundTrip.EightTakenWhen | utf.c:151-161 | `\U` is taken exactly for scalar values, NUL, and numbers from 0x80000000 to 0xFFFFFFFE |
| TextRoundTrip.NegativeEightPutsOneByte | utf.c:92-95 | those last numbers are negative as 32-bit values and put their lowest byte |
| TextRoundTrip.PairTakenWhen | utf.c:176-188 | when the two numbers behind a first surrogate are taken, and that they are a surrogate pair exactly when the first is high and the second low |
| TextRoundTrip.PairPutsCharacterWhen | utf.c:176-188 | what is put for such a pair is a character of RFC 3629 if and only if the joined number is no surrogate |
| TextRoundTrip.EightPutsCharacterWhen | utf.c:151-161 | what is put for `\U` is a character if and only if the number is below 0x80000000 or its lowest byte is below 128 |
| TextRoundTrip.EightDigitsReadAsA | utf.c:151-161 | the text `\U80000041` parses to the letter A |
| TextRoundTrip.TwoHighSurrogatesTaken | utf.c:176-188 | the text `\ud800\ud800` parses to the character U+FC00 |
| TextRoundTrip.FourTakenWhen | utf.c:168-190 | four digits outside the surrogate range are taken, but for U+FEFF |
| TextLaws.PrintRenders | utfs.c:145-219 | in both modes every string of characters is printed with one fixed spelling for each: two characters for quote, backslash, backspace, tab, newline, form feed and carriage return, itself for any other below 128, four lower-case digits below 0x10000, and above a surrogate pair in json mode and eight digits otherwise |
| TextLaws.NoEscapedControls | utfs.c:205-216 | whatever the bytes and the mode, none of the bytes 8, 9, 10, 12 and 13 occurs in the text |
| TextLaws.ControlsCopied | utfs.c:205-216 | the text has a byte below 32 if and only if the string has one other than those five, because the others are copied |
| TextLaws.PlainPrintsItself | utfs.c:216 | bytes from 32 to 191 other than quote and backslash are printed as they are, whatever follows |
| TextLaws.StrokeFailsWhen | utf.c:28-77 | a turn of the printer fails exactly when a byte that its first byte calls for is below 128 |
| TextLaws.CutSequenceIsRefused | utfs.c:148-157 | behind any string of characters a sequence that is cut short makes the printer fail |
| TextLaws.BadEscapeIsRefused | utfs.c:60-104 | behind any spelled string, a backslash before another character than the ten known ones, a missing or bad digit, or a surrogate that no second escape follows makes the whole text refused |
| TextLaws.ShortEscapesRead | utfs.c:60-70 | the eight short escapes are read, behind any spelled string, as the characters of RFC 7159 |
| TextLaws.HexTable | rim.h:1252-1257 | digits are written in lower case and read in both, with their values |
| Handshake.PatientRunsFollow | mrim.c:586-766 | in every interleaving in which clients give up only when the process has no command in hand, each command is carried out at most once and only while it waits |
| Handshake.PatientReplies | mrim.c:731-746 | in such runs a reply other than still pending comes right after the one execution of the command, or right before it for quit, and a status reply reads OKAY |
| Handshake.ReplyMeansExecutedOnce | mrim.c:731-746 | the same about any log that follows the protocol |
| Handshake.ServerKeeps | mrim.c:586-633 | every load and store of the resident process keeps the invariant of the two cells |
| Handshake.ClientKeeps | mrim.c:694-766 | so does every load and store of the client, unless it gives up on a process at work |
| Handshake.GiveUpIsSafeIffHarmless | mrim.c:750-751 | a give-up is safe in every continuation if and only if the process has no command in hand, or only a quit replied to before |
| Handshake.HarmlessIfNotWaiting | mrim.c:750-751 | unless it asked for a quit, a client gives up safely when it no longer finds its command waiting |
| Handshake.WaitingTellsNothing | mrim.c:750-751 | while its command waits, giving up is safe in one state and not in another that looks the same to the client |
| Handshake.StopCarriedOutTwice | mrim.c:750-751 | with time-outs a command can be carried out twice: a concrete run |
| Handshake.NoMoreExecutionsThanPosts | mrim.c:586-766 | in every run, with any time-outs, there are never more executions than posted commands |
| Handshake.PostedIsExecuted | mrim.c:586-633 | in every interleaving a command that was posted is carried out with the fifth step of the process at the latest, unless the client gives up |
| Handshake.CommandIsCarriedOut | mrim.c:586-633 | whatever command waits, the process alone carries it out exactly once within seven steps; then command is DONE and for a status data1 OKAY, and a quit is answered before it is carried out and ends the process |
| Handshake.ExchangeCompletes | mrim.c:586-766 | each of the five requests can be posted, carried out and answered, in this order, from every state in which nobody waits and no quit is due |
| WorkerSlots.AcceptedOptionsAreProper | mrim.c:1095-1107 | accepted options leave an adaptive pool at least one slot above its minimum, defaults included, and a fixed pool as many slots as workers |
| WorkerSlots.OptionsMean | mrim.c:990-1107 | exactly which options are accepted, and the minimum and maximum they mean, defaults included |
| WorkerPool.Pool.constructor | mrim.c:1453-1459 | the first slots hold the workers that start, as many as the minimum at most, and no other slot holds one |
| WorkerPool.Pool.HandleStop | mrim.c:521-562 | a stop or quit vacates every slot, and a single stop exactly the first one that holds a worker |
| WorkerSlots.ClearFirstTracks | mrim.c:528-550 | giving up the first loses exactly one, if there is one |
| WorkerPool.Pool.TotProcess | mrim.c:902-917 | exactly the workers that have ended are dropped, and the count is that of the others |
| WorkerPool.Pool.ProcessUp | mrim.c:926-960 | the slots are what one pass makes of them, for all that it finds |
| WorkerPool.Pool.StartChild | mrim.c:794-896 | the slot gets a process, or nothing changes when the program is missing or stays inaccessible |
| WorkerSlots.FilledIffAllStarted | mrim.c:935-958 | a fixed pool is filled, and an adaptive one gets as many more as the count before the loop found missing, if and only if every attempted start gave a process; it never gets more |
| WorkerSlots.ReachesMinimumIff | mrim.c:930-958 | an adaptive pool reaches its minimum if and only if the loop finds as many running, or finds all that were counted running and every attempted start succeeds |
| WorkerSlots.EndedWorkerIsNotReplaced | mrim.c:930-954 | a worker that ends between the count and the loop leaves the pool below its minimum, with no start tried |
| WorkerSlots.AdditionChangesOne | mrim.c:935-958 | an addition changes at most the first free slot, to what comes of one attempt |
| WorkerSlots.StartedOnlyTracks | mrim.c:592-605 | after a restart, or the start of a stopped pool, all workers asked for are there if and only if each of them started |
| WorkerSlots.FailedStartLeavesGap | mrim.c:798-806 | a fixed pool of two whose first start fails is left with one worker |
| WorkerSlots.FailedStartIsCounted | mrim.c:937-942 | a failed start is counted as a worker, so that an adaptive pool can stay below its minimum with a free slot left |
| WorkerPool.Pool.Adapt | mrim.c:1519-1552 | the workers and the count of quiet turns are what the load-driven part makes of them, for all that the looks and counts find, within the bounds |
| WorkerSlots.ProgressStep | mrim.c:935-958 | each turn of the loop of processup makes its slot what the pass promises, and counts an attempt whether it succeeds or not |
| WorkerSlots.RefilledBounds | mrim.c:926-960 | however starts turn out, the pool stays within max - 1 and its minimum |
| WorkerPool.Pool.CheckShm | mrim.c:586-633 | the workers are what the command makes of them; a request that waits is carried out and answered, an unknown one refused, and with no command nothing is done |
| WorkerPool.Pool.Turn | mrim.c:1518-1567 | the workers after a turn are the function of turns of those before it and of all that the turn finds, and stay within the bounds |
| WorkerPool.Pool.Resident | mrim.c:1518-1567 | the same over any run of turns, which ends with the turn that carries out a quit; every turn answers what it loads |
| WorkerLaws.StopStaysInForce | mrim.c:615-618 | after a turn that carries out a stop there is no worker until a later start or restart, whatever the turns find |
| WorkerLaws.FixedTurn | mrim.c:1557-1564 | with restarting on, a turn fills each slot of a fixed pool that is free, whose process has ended or whose program has changed with what comes of a start, and touches no other; with restarting off it touches none |
| WorkerLaws.FixedTurnFillsIff | mrim.c:1557-1564 | after a turn a fixed pool has all its workers if and only if every start called for gave a process |
| WorkerLaws.TurnReachesMinimum | mrim.c:1553-1564 | after a turn an adaptive pool has its minimum if the starts of its last pass, or of the one before, succeed and no worker that was counted has ended |
| WorkerLaws.TurnMinimumIff | mrim.c:1553-1564 | exactly: the last pass of the turn leaves the minimum if and only if its loop finds as many running, or all that it counted are and every start it tries succeeds |
| WorkerLaws.BusyTurnAddsOne | mrim.c:1523-1535 | three busy looks add one worker in the first free slot below max - 1, and none above, besides what is missing to the minimum |
| WorkerLaws.IdleTurnTrims | mrim.c:1536-1552 | without three busy looks nothing changes but the count of quiet turns, unless these are enough and more than the minimum run: then exactly the first worker goes |
| WorkerLaws.RunningWorkerStays | mrim.c:1518-1564 | a worker found running all through a turn keeps its slot unless the program has changed or it is the one to be trimmed |
| WorkerLaws.TurnAddsAtMostOne | mrim.c:1518-1564 | no turn adds more than one worker beyond the minimum, and none without three busy looks |
| WorkerLaws.ChangedProgramRestarts | mrim.c:1557-1564 | a changed program is stopped and started anew in the first slots |
| WorkerLaws.StoppedTurnDoesNothing | mrim.c:1518-1565 | while a stop is in force and no command comes, a turn changes nothing |
| WorkerLaws.CommandsCarriedOut | mrim.c:592-625 | a restart, or the start of a stopped pool, starts the workers anew in the first slots; a stop or quit leaves none; no other command touches them |
| WorkerLaws.StartKeepsRunning | mrim.c:600-605 | a start of a running pool adds only what is missing and keeps every worker that is found running |
| WorkerLaws.TurnLeavesMinimum | mrim.c:1518-1567 | after any turn whose starts succeed the pool has its workers, or its minimum, unless a stop is in force or the process has quit |
| WorkerLaws.RunKeepsMinimum | mrim.c:1518-1567 | the same after every turn of every run, whatever happened before |
| WorkerLaws.QuietTurnsTrimOne | mrim.c:1536-1552 | of quiet turns in a row each full period trims one worker until the minimum is left |
| WorkerLaws.BusyTurnsGrow | mrim.c:1523-1535 | of busy turns in a row each adds one worker until max - 1 run |
| WorkerLaws.OnlyQuitEnds | mrim.c:1518-1567 | the process ends with the first quit that waits for it and never otherwise |
| WorkerTurns.TurnKeepsProper | mrim.c:1518-1567 | every turn keeps an adaptive pool at most at max - 1 workers and a stopped one at none, whatever it finds |
| WorkerPool.ExitedStays | mrim.c:554-561 | after a quit nothing changes any more |
| HashChains.ComputeHash | hash.c:400-409 | the loop computes FNV-1a with sign-extended bytes, and the bucket is inside the table |
| HashChains.FnvVectors | hash.c:400-409 | the hash has the published values of FNV-1a for the empty string, a and foobar, and another one for a byte above 127 |
| HashChains.TableAdd | hash.c:374-384 | a new entry at the head of its bucket makes the buckets hold the map with the key added |
| HashChains.TableReplace | hash.c:351-371 | new data in place makes them hold the map with the key changed |
| HashChains.TableRemove | hash.c:109-129 | unlinking an entry anywhere in its bucket makes them hold the map without its key |
| HashChains.RestSkips | hash.c:271-280 | nothing is to come from behind the end of a bucket |
| HashChains.RestKeeps | hash.c:295-301 | moving past an entry leaves all other keys to come |
| HashChains.RestDeletes | hash.c:287-293 | deleting the entry at the cursor leaves all other keys to come |
| Hash.HashTable.constructor | hash.c:25-49 | a new table has at least 256 buckets and stands for the empty map |
| Hash.HashTable.FindHash | hash.c:149-193 | the data of the key is found exactly if the key is in the map, and with deletion the map loses exactly it |
| Hash.HashTable.AddHash | hash.c:329-387 | the map gets the key with the data, old data is given back, and the count follows |
| Hash.HashTable.DelEntry | hash.c:109-137 | exactly the entry is unlinked, and a cursor at it moves to the next |
| Hash.HashTable.Rewind | hash.c:227-232 | every key is to come |
| Hash.HashTable.NextHash | hash.c:268-302 | one call gives a key still to come with its data, deleting it if asked, or the end when none is to come |
| Hash.TraversalGivesEachOnce | hash.c:268-302 | from a rewind, in any mix of keeping and deleting, each entry is given exactly once before the end, and the map then has exactly those not deleted |
| Hash.ResizeHash | hash.c:198-222 | the table of any new size stands for the same map, and the counters are kept |
| MessageFormat.ItemBack | msg.c:232-272 | parsing a written item, whatever follows, gives its trimmed key, its value and its length |
| MessageFormat.ReadFirst | msg.c:196-218 | one read gives the first pair that is no comment and leaves what follows it |
| MessageFormat.WrittenIsRead | msg.c:131-218 | reading until a call fails gives back any sequence of pairs that was written, with keys trimmed and comments dropped, for arbitrary binary values |
| MessageFormat.WrittenFailsOnlyAtEnd | msg.c:184-218 | reading a written message fails exactly where nothing but comments is left, and then with RIM_ERR_FORMAT: never for a length, and never outside the message |
| MessageFormat.NegativeIffTopBit | msg.c:258-262 | a length is negative exactly when its first byte is 128 or more |
| MessageFormat.BigEndianBack | msg.c:155-159 | a length survives its eight bytes |
| MessageFormat.BigEndianDigit | msg.c:155-159 | byte i of a length is its digit to the base 256, the most significant first |
| MessageFormat.CharacterTable | msg.c:123-130 | keys are of letters, digits, white space, hyphens and underscores |
| MessageFormat.ItemInBytes | msg.c:153-165 | the bytes of an item, one by one |
| MessageFormat.CommentSpelled | msg.c:205 | the key that is skipped is the word comment |
| MessageLaws.ItemTakenWhen | msg.c:232-272 | for any key, length, padding and bytes behind: the item is taken exactly if the length is not negative, the bytes are there and a newline or NUL, or nothing, follows them; it gives the trimmed key and those bytes |
| MessageLaws.NoSeparator | msg.c:237-238 | without a separator before the first NUL there is no item |
| MessageLaws.ShortItemRefused | msg.c:254 | fewer than sixteen bytes behind the separator are no item |
| MessageLaws.TrimIs | msg.c:242-250 | a key loses the white space on both sides and nothing else |
| Message.Msg.MakeRoom | msg.c:131-152 | the buffer grows to hold the item, by the increment in force, only when it does not fit; nothing written is lost |
| Message.Msg.WriteMsg | msg.c:99-170 | the message grows by exactly the item, and a bad key or a message that was read is refused without a change |
| Message.Msg.TrimKey | msg.c:242-250 | the key loses the white space around it |
| Message.Msg.Parse | msg.c:232-272 | the in-place parser gives, and leaves in the message, exactly what ParseAt says for every message, lengths that lead back included |
| Message.Msg.ReadMsg | msg.c:179-219 | for every message what is given and what is left is as ReadAt says; as long as no length is negative it is the next pair that is no comment, what follows is as it was and nothing in front is touched |
| MessageInPlace.ReadMeets | msg.c:196-218 | as long as no length is negative, reading in place gives the next pair of the format and changes nothing outside the items it passes |
| MessageInPlace.StaysInsideIffNotNegative | msg.c:262-271 | an item that is taken ends behind the start of its value, with nothing in front changed, if and only if its length is not negative, that is its first byte is below 128; it moves forward at all exactly when the length does not lead in front of it |
| MessageInPlace.ParsedLosesSeparator | msg.c:237-240 | an item that is taken loses its separator, so that passing comments ends even when lengths lead back |
| MessageInPlace.AllOnesIsTaken | msg.c:262-271 | an item with a length of all ones is taken, with the length -1 |
| MessageInPlace.LeadsBackOverwrites | msg.c:262-271 | a message of two items: the first read gives a value, the second item with the length -20 is taken, overwrites that value, and the next read would start in front of it |
| FastCgiFormat.PairsSizeIsLength | rcli.c:451-457 | the summed sizes of the pairs are the bytes that are written |
| FastCgiFormat.PairsBack | rcli.c:464-500 | decoding the environment by section 3.4 gives the names and values back in order |
| FastCgiFormat.ChunksOfBody | rcli.c:962-979 | the chunks of a body fit a record, none is empty, all but the last are of 65527 bytes, and together they are the body |
| FastCgiFormat.HeaderInBytes | rcli.c:237-250 | a header and lengths of one and four bytes, byte by byte |
| FastCgiFormat.RecordsBack | rcli.c:237-250 | decoding written records by section 3.3 gives them back |
| FastCgiFormat.BodyIsDelivered | rcli.c:962-984 | for a body that is sent, a server decodes the stream to records that fit, concatenate to the body, and are closed by the one empty record |
| FastCgiFormat.InputEndsIffBody | rcli.c:873-985 | the input stream of a request is ended by an empty record if and only if the request has a body, and then its contents are the body |
| FastCgiFormat.NoBodyNoEnd | rcli.c:873-883 | a request without a body leaves the stream empty and not ended |
| FastCgi.BuildHdr | rcli.c:237-250 | a header carries version 1, request 1, the type and the length |
| FastCgi.Environment.SizeEnv | rcli.c:451-457 | the size grows by that of one pair |
| FastCgi.Environment.SendEnv | rcli.c:464-500 | the pair is written behind what is there |
| FastCgi.Environment.Build | rcli.c:909-953 | the environment is refused exactly when it does not fit a record, and otherwise fills a buffer of just its size |
| FastCgi.SendBody | rcli.c:962-984 | the stream of a request that has a body gets the body records and the empty one |
| FastCgi.SendInput | rcli.c:873-985 | a request sends its input records, and nothing when pointer, length or content type say there is no body |
| FastCgi.SendRequest | rcli.c:866-985 | a request sends its records, and is refused behind the first one exactly for an odd environment or one that does not fit a record |
| FastCgiRequest.RequestIsDelivered | rcli.c:866-985 | a server that decodes the stream gets the begin record of a responder, the environment in one record with the names and values in order and the empty one that ends it, and the input |
| FastCgiRequest.ToldLengthIsSent | rcli.c:873-985 | a server is told a content length exactly if it gets a body, and then it is the number of bytes it gets; a negative one is told and no byte sent |
| FastCgiRequest.ParamsInFull | rcli.c:905-948 | the whole environment of a request with a query, a body and an entry of the caller, and of one without |
| FastCgiRequest.PairsOfCaller | rcli.c:918-948 | the names and values of the caller follow in their order |
| FastCgiReply.ReplyIsDemultiplexed | rcli.c:300-449 | for any interleaving of records with any padding and empty records, closed by an end record, data, error and other are the in-order contents of their records |
| FastCgiReply.StatusIsDelivered | rcli.c:354 | every signed 32-bit application status, written by section 5.5, is what the client gets |
| FastCgiReply.BadHeaderIsRefused | rcli.c:393-405 | behind any records a cut header, another version and another request end the reply with their errors |
| FastCgiReply.BadRecordIsRefused | rcli.c:340-353 | so do an end record of another length, one that says the request was not done, and a record of unknown type |
| FastCgiReply.CutReplyIsRefused | rcli.c:300-449 | a reply that ends within a record is a protocol error |
| FastCgiReply.ReplyInBytes | rcli.c:300-449 | a whole reply byte by byte |
| FastCgi.Reader.ReadSocket | rcli.c:162-187 | a read gives the whole length however the bytes arrive, or an error |
| FastCgi.Reader.ReadHeader | rcli.c:390-443 | a header is checked and makes room in the buffer of its type for the content and a NUL |
| FastCgi.Reader.ReadContent | rcli.c:309-368 | the content goes to the buffer of its type, inside it, and an end record closes the buffers |
| FastCgi.Reader.ReadPadding | rcli.c:381-388 | padding is read and thrown away |
| FastCgi.Reader.ServerRead | rcli.c:300-449 | unless the socket fails, the buffers, the status and the application status are what the reply means |

## Left out

- Tree nodes are cells of a map from addresses to records, and the two list links are maps of their own, so the model does not capture the layout of a node; assignments keep the source's order.
- Tree keys with an embedded NUL and an explicit key length shorter than the key: the comparison is then no order.
- Reference counts of tree keys and data (tree.c:541, 587, 666), and the counter of hops of the cursor.
- Numerals.Num2Str: the least 64-bit number, whose absolute value does not fit, is not modelled.
- Memory limits, running out of memory and the growth of the table's capacity (rimmem.c:151-181), and the lengths kept in block headers.
- Memory.Manager.AddRef: the abort on the 256th reference is a refusal that changes nothing.
- Memory.Manager.FreeInt: only for ordinary blocks and constants, as all its callers use it.
- TextCodec.TextToUtf: encoding on only. With encoding off and no quotes the loop makes no progress at a quote (utfs.c:43).
- TextCodec.UtfToText: a length beyond the allocated memory, which the source reports and aborts, and one that overruns, for which the source writes outside its buffer.
- Text round trip: U+FEFF, which the source refuses, NUL and invalid UTF-8.
- The JSON parser and writer, whose root array indexes a list at -1 and which refuses an empty object.
- The start-up of the service manager: its first messages and the unconditional store at mrim.c:1464; several clients at once, which the source disclaims; clients that are killed.
- Handshake: the number of tries is left open, and the check of the lock file before a client posts is not modelled.
- WorkerPool.Pool.StartChild: a failing `fork`, which ends the manager.
- WorkerPool.Pool.WhatIsProcess: answers of `waitpid` that its specification rules out.
- Hash additions and deletions by key during a traversal, a traversal without a rewind, and keys with an embedded NUL.
- Hash keys and data as memory blocks: their references and scope.
- Message.Msg.Parse: a length that leads in front of the whole message, and a comment without its newline at the very end, for which the source reads outside the message, are one status that is no success.
- Message.Msg: the buffer lengths kept in block headers, and the abort of a refused write, which is a result here.
- FastCgi.SendRequest: the split of the URL into path and query (rcli.c:903) is not modelled, the two are parameters; nor are lengths beyond 2^31.
- FastCgi: connecting, time-outs, interrupted calls, the hooks, running out of memory and the room for a block header in front of the buffers.
- Databases, `curl.c`, `sec.c`, `pcre2.c`, `xml.c`, `sort.c`, stack traces, signals, sockets, files, processes, HTTP headers and cookies, URL encoding, and the simple lists, queues and trims.
