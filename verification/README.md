# Verification of libtecla

A Dafny model of the parts of libtecla, the line-editing library in `libtecla/`, that keep state or
decide something hard, with proofs of what they promise. `dafny verify dfyconfig.toml` checks all of it.

| files | what they model |
|---|---|
| `Basics.dfy` | notions that several files share |
| `FreeList.dfy` | free lists of nodes (`freelist.c`) |
| `Writer.dfy`, `CharQueue.dfy` | the segmented output queue (`chrqueue.c`), over a callback that accepts, blocks or fails as a script says |
| `Segments.dfy`, `LineStore.dfy`, `LineList.dfy` | the history buffer of segments, the hash table of stored lines over it, and the time-ordered list (`history.c`) |
| `HistorySpec.dfy` | what the history list does, on plain values, and the theorems about whole lives of it |
| `HistoryLaws.dfy` | what adding and recalling lines amounts to, said without the searches and loops |
| `HistoryRefs.dfy`, `History.dfy` | the history object, proved against that specification |
| `Terminal.dfy`, `Display.dfy` | a simulated terminal that wraps at once or defers the wrap, and the output functions of `getline.c` |
| `Rendering.dfy` | which character it is that something shown stands for |
| `Tracking.dfy` | exactly when the cursor of the terminal is where it is taken to be, and when output ends |
| `LineImage.dfy`, `EditSpec.dfy`, `LineEditor.dfy` | the line, cut and undo buffers of `getline.c`, what the operations do to them, and what the terminal then shows |
| `EditLaws.dfy` | what typing, deleting, killing and yanking do, said on the text itself |
| `Brackets.dfy` | the bracket matcher of `getline.c` |
| `KeySpec.dfy`, `KeyDispatch.dfy` | what is made of a stream of key presses, and the reader with its read-ahead buffer, from a terminal on which reads may block anywhere |
| `KeyLaws.dfy` | what bound sequences, repeat counts and unbound characters come to |
| `Glob.dfy`, `GlobLaws.dfy`, `Escape.dfy`, `Listing.dfy` | pattern matching (`expand.c`), escaping (`cplfile.c`, `pathutil.c`) and the column layout (`cplmatch.c`) |

Code that changes things in place is modelled by classes and methods over arrays. The C library's
pointers into a free list are addresses of nodes, with -1 for NULL; the fields of the nodes that such
pointers lead to are kept in maps from addresses to records. The segment buffer, the line, cut and
undo buffers and the key buffer are arrays. Each method's contract gives the new state as a function
of the old one; what the library promises is then proved about those functions, for all inputs and all
sequences of operations. In `KeyDispatch.dfy` the log of what was done is a ghost field; key tables,
character classes of the locale, and the actions that end a line or search the history are parameters.

## Findings

Where the code does not do what it promises, the model follows the code, and says exactly when.

- A line that needs more segments than the history buffer has is not only refused: every older line
  has been discarded by then (`HistorySpec.AddEvictsLeast`, exactly when;
  `HistorySpec.TooLongLineLosesTheOthers`; `libtecla/history.c:2186-2201`).
- While a search prefix is pinned that leaves too little room, the eviction loop at
  `libtecla/history.c:2192` comes to an empty list with `nbusy > 0` (`HistorySpec.StuckWithPrefix`,
  exactly when; `HistorySpec.PrefixLeavesNoRoom`). Additions are modelled for states in which it does not.
- Reducing the history buffer while a prefix is pinned that does not fit in the new one discards every
  line and copies more segments than the new buffer has (`HistorySpec.ResizeKeepsNewest`, exactly when;
  `HistorySpec.PrefixDoesNotFit`; `libtecla/history.c:1688-1714`).
- An input line that holds a newline, which can be entered literally, comes back from a recall session
  cut off at it (`HistorySpec.InputLineComesBack`, exactly when a line comes back as it was;
  `HistorySpec.NewlineCutsTheInputLine`; `libtecla/history.c:460-464`).
- A pattern that ends in two or more stars does not match the names that it should
  (`Globs.MatcherDecidesMeaning`, exactly when; `Globs.TwoStarsMatchNothing`).
- What is shown for a character can start what is shown for another one, so that a line does not always
  say what is in it (`Rendering.ShownStartsExactly`, exactly when).
- A file name with white space other than spaces and tabs is not escaped to be one path
  (`Escapes.EscapedIsOnePath`, exactly when; `Escapes.NewlineEndsPath`; `libtecla/cplfile.c:825-839`).
- What is written for DEL moves the terminal cursor by one position, while two are counted
  (`Terminals.DelAdvancesByOne`). What is written for a string moves the cursor by the counted width if
  and only if it has no DEL (`Tracking.CursorFollowsPicture`), and so the cursor is tracked within a row
  (`Tracking.TrackedWithinRow`), and over all terminals (`Tracking.TrackedOnEveryTerminal`), if and only
  if there is none. On one terminal, the end of a row can make up for a DEL (`Tracking.RowEndHidesDel`).
  The line model is for text without DEL. Nor does the key that is shown for it make a DEL
  (`Rendering.ControlKeys`: it does for all other control characters).
- Moving the cursor to before the start of the line doubles its position (`Displays.Display.MoveCursor`;
  `libtecla/getline.c:3982-3983`). No modelled caller does that.
- On a terminal of at most eight columns, overwriting a character by another of the same width can blank
  the beginning of the character after the next one (`LineImages.Overwritten`, exactly when;
  `LineImages.SmudgeExample`).
- On a terminal of one column, which `gl_set_term_size` accepts (`libtecla/getline.c:11957-11996`),
  `gl_print_char` does not end: each character that it writes ahead ends a row (`Tracking.EndsExactly`:
  it ends if and only if there are two or more columns). The line model is for two or more columns.
- Characters that were read ahead are dropped when a line ends (`libtecla/getline.c:10503-10504`;
  `KeySpec.StepDrops`, exactly when a step drops any; `KeySpec.NothingIsLost`, exactly when a whole run
  drops none; `KeySpec.ReadAheadIsLost`).
- In vi's overwriting input mode, deleting in the middle of the line, where the undo line does not reach,
  also deletes what comes after (`EditSpec.RestoringKeepsTheRest`, exactly when; `EditSpec.DeletingLosesTheRest`).
- `gl_make_gap_in_buffer` reports an error even when it made the gap (`LineEditors.GetLine.MakeGap`); its
  callers take no notice.
- The comment at `libtecla/chrqueue.c:150-152` says that the callback may be 0 to discard the queue. The
  code calls it all the same, unchecked: exactly when the queue is not empty, in a flush
  (`CharQueues.CharQueue.Flush`), and when the characters do not fit in the last buffer and the idle
  ones, in an addition (`CharQueues.CharQueue.AppendChars`). The model has a callback.

## Model

| member | source | states |
|---|---|---|
| FreeLists.FreeList.constructor | libtecla/freelist.c:70-123 | a new list has one block, all of it free; a blocking factor below 1 is taken to be 1 |
| FreeLists.FreeList.ThreadBlock | libtecla/freelist.c:373-380 | the nodes of one block are chained in address order, the last one to nothing; no other link changes |
| FreeLists.FreeList.New | libtecla/freelist.c:224-263 | the node returned was not in use before and is now the only further one that is; a block is obtained only if no node is idle |
| FreeLists.FreeList.Del | libtecla/freelist.c:274-293 | exactly the given node becomes free, and nothing happens for NULL; every node stays either free or busy, and is listed once |
| FreeLists.FreeList.Idle | libtecla/freelist.c:317-320 | idle and busy nodes add up to all nodes |
| FreeLists.FreeList.Reset | libtecla/freelist.c:133-165 | all nodes of all blocks, and each once, are on the free list afterwards |
| CharQueues.CharQueue.CharCount | libtecla/chrqueue.c:292-295 | the number of characters in the queue, also after partial flushes |
| CharQueues.CharQueue.Empty | libtecla/chrqueue.c:269-282 | the queue is empty and owns no buffer; the free list keeps its nodes |
| CharQueues.CharQueue.FlushHead | libtecla/chrqueue.c:338-397 | one call of the callback removes from the queue exactly what it accepted, and keeps the rest in order |
| CharQueues.CharQueue.Flush | libtecla/chrqueue.c:320-416 | emitted followed by queued characters are conserved for every callback; Done exactly when the queue is empty, Again only after a blocked call, Error only after a failed one; the callback is called exactly if there is anything in the queue; it terminates |
| CharQueues.CharQueue.AppendChars | libtecla/chrqueue.c:160-261 | emitted ++ queued is the former emitted ++ queued ++ the first ndone characters; fewer than all are appended only after a failed write; the callback is called exactly if the characters do not fit in the last buffer and the idle ones; while writes make progress no buffer is added |
| CharQueues.CharQueue.OneBuffer | libtecla/chrqueue.c:190-204 | a queue whose free list owns at most one node holds at most one segment of characters |
| CharQueues.CharQueue.Serve | libtecla/chrqueue.c:190-204 | over every sequence of appends and flushes, with a callback that never blocks: one node at all times, at most one segment queued, nothing lost, invented or reordered |
| CharQueues.Offered | libtecla/chrqueue.c:338-362 | the part of the head buffer that is offered to the callback is where the queue starts, and is the whole queue or ends at the end of a buffer |
| Globs.MatchesIsDenotes | libtecla/expand.c:793-807 | the token by token reading of a pattern is the declarative one: a name matches if it can be split into one fitting part for each token |
| Globs.StringMatchesPattern | libtecla/expand.c:808-909 | the loop with its recursive call decides the acceptance relation, for every name and pattern without ranges; it terminates by the length of the pattern, then of the name |
| Globs.MatchesSomeEnd | libtecla/expand.c:845-849 | the inner loop of a star tries exactly the non-empty ends of the name |
| Globs.AcceptsIsTaken | libtecla/expand.c:824-850 | what the matcher accepts is the meaning of the pattern when stars at its end are read as needing one character for each but the last |
| Globs.TwoStarsMatchNothing | libtecla/expand.c:824-850 | a concrete failure: two stars mean every name, but the matcher rejects the empty one |
| Globs.MatcherDecidesMeaning | libtecla/expand.c:808-909 | the matcher decides the declarative meaning for all names exactly when the pattern does not end in two or more stars, or starts with a wildcard that may not match |
| GlobLaws.StarStandsForAny | libtecla/expand.c:824-850 | between plain texts, a star stands for any characters, also none: in the meaning, and for the matcher |
| GlobLaws.QuestionMarkStandsForOne | libtecla/expand.c:854-871 | between plain texts, a question mark stands for exactly one character |
| GlobLaws.FirstMustBeLiteral | libtecla/expand.c:829-861 | when the first character must be matched explicitly, a pattern that starts with a star or a question mark matches nothing, and to other patterns that makes no difference |
| Escapes.PrepareSuffix | libtecla/cplfile.c:807-868 | the buffer has just the size that is needed and holds the escaped suffix, or the suffix itself when nothing is to be escaped |
| Escapes.CopyEscaped | libtecla/cplfile.c:855-864 | the copying loop writes the escaped name and its terminator |
| Escapes.EscapedLength | libtecla/cplfile.c:825-839 | the escaped form is as long as the name and its special characters together |
| Escapes.HasWildcards | libtecla/expand.c:388-398 | the scan decides whether there is an unescaped wildcard |
| Escapes.AppendUnescaped | libtecla/pathutil.c:180-186 | the loop removes just the backslashes that escape |
| Escapes.EscapedHasNoWildcards | libtecla/expand.c:388-398 | the scan finds no wildcard in any escaped name, whatever precedes it |
| GlobLaws.WildcardIsFound | libtecla/expand.c:388-398 | the scan finds a star, a question mark or an open bracket after any plain text |
| GlobLaws.WildIsAToken | libtecla/expand.c:388-398 | in a pattern without ranges the scan finds a wildcard exactly if one of its tokens is one |
| GlobLaws.NotWildMeansItself | libtecla/expand.c:388-398 | a pattern in which the scan finds none stands for one name only: itself without the backslashes that escape |
| Escapes.EscapedIfNeeded | libtecla/cplfile.c:825-839 | a name is changed exactly if it holds a space, tab, backslash, star, question mark or open bracket |
| Escapes.EndOfPath | libtecla/pathutil.c:497-520 | the loop finds the first white space that is not escaped, or the end of the text |
| Escapes.EscapedIsOnePath | libtecla/pathutil.c:497-520 | an escaped name is taken for a path exactly up to its end, if and only if it has no white space but spaces and tabs |
| Escapes.NewlineEndsPath | libtecla/pathutil.c:497-520 | a concrete failure: a name with a newline in it |
| Escapes.EscapedMatchesItself | libtecla/expand.c:808-909 | an escaped name, as a pattern, is matched by that name and no other, for either value of xplicit |
| Escapes.UnescapedEscaped | libtecla/pathutil.c:180-186 | removing the escapes of an escaped name gives the name back |
| Listings.PlanListing | libtecla/cplmatch.c:1022-1073 | the column width is the longest entry; as many columns as fit, at least one; no more lines than they need |
| Listings.PlanInNumbers | libtecla/cplmatch.c:1022-1073 | the plan in numbers: columns of the width of the widest match and two more, as many as the terminal has room for but at least one, and no line too many |
| Listings.FormatColumn | libtecla/cplmatch.c:1113-1158 | a cell is the match and its suffix, padded to the column width unless it is the last column; an error is reported exactly if the last call of the callback accepted less than the piece offered, and then a prefix of the cell was written |
| Listings.FormatLine | libtecla/cplmatch.c:1094-1170 | a line is its cells and a line end; a line number out of range is an error that writes nothing, and any other error comes from a call that accepted less than it was offered |
| Listings.OutputCompletions | libtecla/cplmatch.c:636-663 | what is written is all lines of the plan in order, or a prefix of that after a call that accepted less than it was offered; a callback that accepts everything gets all of it, and there is no error |
| Listings.MatchIsPlaced | libtecla/cplmatch.c:1113-1158 | match m is written whole in line m % nline, from the start of column m / nline, a multiple of the column width and the separator |
| Listings.OtherCellsAreEmpty | libtecla/cplmatch.c:1113-1158 | a cell that is not empty is that of exactly one match: nothing is written twice |
| Listings.LineShows | libtecla/cplmatch.c:1113-1170 | every character of a line: one of the match that belongs there, or a space after it, and the line end |
| Listings.LinesFit | libtecla/cplmatch.c:1022-1073 | if the longest entry fits in the terminal, no line is wider than the terminal |
| Segments.SegmentPool.Store | libtecla/history.c:2203-2222 | the line is stored in a chain of its own of just the segments it needs, taken from the unused ones; every other line is left as it was |
| Segments.SegmentPool.Fill | libtecla/history.c:2203-2207 | only leading unused segments are written, and they then hold the line and its terminator |
| Segments.SegmentPool.Release | libtecla/history.c:2282-2299 | all segments of the line become unused; every other line is left as it was |
| Segments.SegmentPool.IsLine | libtecla/history.c:2376-2397 | comparing segment by segment decides equality of texts |
| Segments.SegmentPool.ReturnLine | libtecla/history.c:2460-2475 | a reader of the buffer sees the stored text, truncated if the buffer is too small |
| Segments.SegmentPool.StepStream | libtecla/history.c:2563-2577 | the stream presents the first character twice and then each further one once, up to the terminator, where it stays |
| Segments.DeliveredPrefix | libtecla/history.c:2563-2577 | delivering the first character twice on both sides does not change whether one text starts with another |
| Segments.SegmentPool.MatchesPrefix | libtecla/history.c:2410-2449 | without wildcards in the prefix, the streams decide whether the line starts with it |
| Segments.SegmentPool.CopyLine | libtecla/history.c:1706-1712 | the copy of a chain occupies consecutive segments of the new buffer and holds the same text |
| Segments.StoresTake | libtecla/history.c:2218-2222 | detaching filled segments keeps the partition of the buffer into the unused list and the chains |
| Segments.StoresGive | libtecla/history.c:2289-2298 | returning a chain keeps that partition |
| LineStores.LineStore.FindBucket | libtecla/history.c:2324-2334 | the bucket is given by the hash of the whole line |
| LineStores.LineStore.Find | libtecla/history.c:2348-2360 | a node is found exactly when the text is stored, and it is the only one with that text |
| LineStores.LineStore.Insert | libtecla/history.c:2203-2239 | a text that was not stored is stored once, with one reference, in as many segments as it needs |
| LineStores.LineStore.Unref | libtecla/history.c:2254-2306 | one reference less; with the last one the node, its segments and its bucket entry go |
| LineStores.LineStore.Unlink | libtecla/history.c:2269-2278 | the node is taken off the list of its bucket, wherever it is on it; the others stay in order |
| LineStores.LineStore.Resize | libtecla/history.c:1693-1733 | the compacting copy to another buffer changes no line, count or bucket, and takes no more segments |
| LineStores.LineStore.TextsAreUnique | libtecla/history.c:2162-2241 | equal texts are stored once: comparing node pointers compares texts |
| LineStores.LineStore.SegmentsAddUp | libtecla/history.c:2186-2298 | nbusy + nfree == nbuff in every reachable state |
| LineStores.LineStore.SegmentsPartitioned | libtecla/history.c:2162-2306 | every segment is unused or lies in the chain of exactly one node |
| LineStores.LineStore.StoredLine | libtecla/history.c:2162-2241 | a stored line of n characters owns exactly as many segments as n + 1 characters need, and they read back as its text |
| LineStores.MovedAll | libtecla/history.c:1701-1714 | when all nodes were moved, the index holds over the new buffer |
| LineLists.LineList.Append | libtecla/history.c:474-505 | the doubly linked list gains one entry at its tail; all links agree |
| LineLists.LineList.Remove | libtecla/history.c:1889-1927 | exactly one entry, wherever it is, leaves the doubly linked list; all links agree |
| HistorySpec.BusyWithout | libtecla/history.c:2254-2306 | forgetting an entry frees its segments exactly when nothing else refers to its text |
| HistorySpec.AddEvictsLeast | libtecla/history.c:446-505 | in any state, an addition keeps old[k..] and appends the line up to its newline, where k is what the line limit demands and then, only if the text is not stored, the least further number that frees enough segments; it fails exactly if the text is not stored and needs more segments than there are besides those of a pinned prefix, and then loses every line |
| HistoryLaws.BlankLinesAreIgnored | libtecla/history.c:425-441 | a line with only white space before its newline is not archived unless that is forced: it only ends the session |
| HistoryLaws.AddsExactly | libtecla/history.c:396-507 | an addition uses up an id exactly if it does not fail and is forced or not blank; then the newest entry is that line, in the current group, with that id |
| HistoryLaws.EveryLineWasAdded | libtecla/history.c:430-441 | over whole lives, every archived line is the part before the newline of a line that was added, which was not blank unless forced |
| HistoryLaws.LinesAreLimited | libtecla/history.c:446-461 | over whole lives, there are never more lines than the limit allows |
| HistoryLaws.UnusedDoesNothing | libtecla/history.c:411-415 | while the history is disabled, without a buffer or without lines, nothing is added, recalled or searched for |
| HistorySpec.TooLongLineLosesTheOthers | libtecla/history.c:2186-2201 | a concrete failure: one segment, a line stored, and a line to be added that needs two |
| HistorySpec.StuckWithPrefix | libtecla/history.c:2192-2199 | with a pinned prefix, the eviction loop runs out of lines while segments are still in use exactly when the prefix leaves too little room |
| HistorySpec.PrefixLeavesNoRoom | libtecla/history.c:2192-2199 | a concrete failure: one segment, which a pinned prefix occupies, and a line to be added |
| HistorySpec.PrepareKeeps | libtecla/history.c:2490-2520 | preserving the input line discards at most oldest lines, none if the line fits, and leaves the next id |
| HistoryLaws.PrepareStarts | libtecla/history.c:2490-2520 | a session starts at the end of the list with the input line as an entry of its own, unless one is active in which another line was recalled, or the same line is preserved |
| HistorySpec.ApplyKeeps | libtecla/history.c:696-721 | each recall operation keeps a suffix of the list, and all of it if the input line fits |
| HistorySpec.SessionsAreTransparent | libtecla/history.c:2490-2520 | after any sequence of recalls, cancelling leaves a suffix of the original list, all of it if nothing had to be evicted, and seq and everything else unchanged |
| HistorySpec.CurrentLineIsTheInputLine | libtecla/history.c:858-893 | whatever was recalled, and for any input line: returning to the current line gives, while a session is active, the line that was being edited up to its first newline; and otherwise leaves the buffer, which holds that line, or the same part of it |
| HistorySpec.InputLineComesBack | libtecla/history.c:858-893 | after any recalls it comes back exactly as it was, if and only if it holds no newline, or the history is not in use, or has no room for it |
| HistorySpec.NewlineCutsTheInputLine | libtecla/history.c:460-464 | a concrete failure: an empty history, and a line of two parts with a newline between them |
| HistorySpec.Backwards | libtecla/history.c:558-571 | the nearest older entry of the group that differs from the last recalled one and starts with the prefix, and none if there is none |
| HistorySpec.Forwards | libtecla/history.c:641-653 | the nearest newer one |
| HistoryLaws.GoBackRecalls | libtecla/history.c:556-590 | going back recalls the entry of greatest index below the last one recalled that is in the group, differs from it and starts with the prefix; nothing exactly if there is none |
| HistoryLaws.GoForwardRecalls | libtecla/history.c:630-675 | going forward recalls the entry of least index above the last one recalled that qualifies, and ends the session if that is the preserved line |
| HistoryLaws.GoOldestRecalls | libtecla/history.c:810-843 | the first entry of the group is recalled; the session ends if that is the preserved line |
| HistoryLaws.GoToRecalls | libtecla/history.c:949-981 | the entry with the id is recalled if it is in the group |
| HistoryLaws.GoCurrentRecalls | libtecla/history.c:858-893 | the preserved line is recalled and the session ends |
| HistoryLaws.UpsWalkBack | libtecla/history.c:523-594 | when adjacent lines differ, going back k times gives the k-th line from the end, or the oldest |
| HistoryLaws.DownsUndoUps | libtecla/history.c:611-681 | going back k times and forward as often returns to the input line, up to its newline, and ends the session |
| HistoryLaws.SearchesAreRestricted | libtecla/history.c:568-571 | whatever a search recalls starts with the prefix, and is in the current group |
| HistoryLaws.PrefixIsSet | libtecla/history.c:734-771 | a prefix is pinned if it is stored or fits, after the least eviction; if it does not fit there is none, and all lines are lost |
| HistoryLaws.GroupIsSelected | libtecla/history.c:1382-1408 | selecting another group ends the session and changes nothing else; selecting the same one does nothing |
| HistorySpec.ResizeKeepsNewest | libtecla/history.c:1681-1734 | a suffix of the list survives, as long a one as fits, and all of it if the used segments fit; texts, ids and groups are unchanged; what is left is too much for the new buffer exactly if a prefix is pinned that alone does not fit, and then no line is left |
| HistorySpec.PrefixDoesNotFit | libtecla/history.c:1688-1714 | a concrete failure: a pinned prefix of two segments, and a buffer that is reduced to one |
| HistorySpec.OtherGroupsStay | libtecla/history.c:1845-1862 | clearing a group discards all of its lines, and leaves those of every other group as they are, in order |
| HistoryLaws.GroupIsCleared | libtecla/history.c:1796-1863 | clearing the group ends the session and leaves exactly the lines of the others |
| HistorySpec.IdsAlwaysIncrease | libtecla/history.c:488-490 | in every state reached from the empty list, with any line limit, by additions, recalls, prefixes, groups, clearing a group and resizing, ids increase strictly and are below seq, and the preserved line has the id seq |
| HistorySpec.WithIdAbove | libtecla/history.c:2033-2036 | searching towards newer lines from an entry with a smaller id misses nothing |
| HistorySpec.WithIdBelow | libtecla/history.c:2040-2043 | searching towards older lines from an entry with no smaller id misses nothing |
| Histories.History.UsedIsReferences | libtecla/history.c:2254-2306 | the use count of a stored line is the number of list entries that refer to it, and one more if the search prefix does |
| Histories.History.AcquireCopy | libtecla/history.c:2162-2241 | stores the text, or counts one more reference, after evicting what the specification evicts; NULL exactly when the text cannot be stored |
| Histories.History.AddHistory | libtecla/history.c:396-507 | the linked structures go to the state that the specification of an addition gives, and the error is reported exactly then |
| Histories.History.DiscardLine | libtecla/history.c:1889-1927 | outside a session, exactly that entry goes, with its reference, and the lookup cache with it if it was at it |
| Histories.History.CancelSearch | libtecla/history.c:696-721 | ends a session and discards the line it preserved |
| Histories.History.PrepareForRecall | libtecla/history.c:2490-2520 | the state of the specification: the input line becomes the tail, with the id seq, unless a session already preserves it |
| Histories.History.FindBackwards | libtecla/history.c:523-594 | recalls the nearest older matching line; the buffer holds its text, or is untouched when nothing is found |
| Histories.History.FindForwards | libtecla/history.c:611-681 | recalls the nearest newer matching line, and ends the session when it is the preserved line |
| Histories.History.OldestLine | libtecla/history.c:785-843 | recalls the oldest line of the group |
| Histories.History.RecallLine | libtecla/history.c:949-981 | recalls the line with the given id, if it is in the group |
| Histories.History.CurrentLine | libtecla/history.c:858-893 | brings back the preserved line and ends the session |
| Histories.History.SearchPrefix | libtecla/history.c:734-771 | pins a copy of the prefix, evicting lines for it if needed, and drops the former one |
| Histories.History.SetGroup | libtecla/history.c:1382-1408 | ends a session and selects the group |
| Histories.History.ClearGroup | libtecla/history.c:1796-1863 | ends a session, and discards exactly the lines of the current group; the loop goes over the list that it changes |
| Histories.History.FindId | libtecla/history.c:2015-2049 | the search from the cached node, in either direction, returns what a scan from the head would, for every history of lookups |
| Histories.History.Resize | libtecla/history.c:1622-1737 | the linked structures over the new buffer represent the resized list of the specification, if a pinned prefix fits in it |
| Terminals.PutAllAdvances | libtecla/getline.c:4084-4147 | what is seen of the written text appears where it was written, and only there, and moves the cursor by its own length, on terminals that wrap at once and on those that defer it |
| Terminals.CursorFollowsText | libtecla/getline.c:4084-4147 | the cursor moves on by the length of what is written if and only if there is no DEL in it |
| Terminals.DelAdvancesByOne | libtecla/getline.c:4103-4106 | a concrete failure: what is written for DEL moves the cursor by one position, not by the two that are counted |
| Rendering.ControlKeys | libtecla/getline.h:56-68 | the key that is shown for a control character is the one that makes it, exactly if it is not DEL |
| Rendering.OctalIsRead | libtecla/getline.c:4107-4109 | the digits shown for a number, read from left to right, are that number |
| Rendering.ShownIsReadBack | libtecla/getline.c:4092-4114 | what is shown for a character other than tab and DEL says which one it is; printable ones are shown as they are |
| Rendering.ShownStartsExactly | libtecla/getline.c:4092-4114 | no two characters other than tab are shown in the same way; exactly when what is shown for one starts what is shown for another |
| Rendering.TabReachesStop | libtecla/getline.c:3793-3796 | a tab is shown as spaces up to the next tab stop of its row |
| Rendering.TabLooksLikeSpace | libtecla/getline.c:4092-4114 | a tab looks like another character exactly if that is a space and the next column is a tab stop |
| Displays.Display.CharWidth | libtecla/getline.c:3811-3820 | the computed width is the number of characters that are written |
| Displays.Display.StringWidth | libtecla/getline.c:3838-3854 | the computed width of a string is the length of what is written for it |
| Displays.PictureSplit | libtecla/getline.c:4171-4180 | what is shown for two strings is that of the first, and that of the second from where it ended |
| Displays.Display.MoveCursor | libtecla/getline.c:3966-4060 | the cursor of the terminal is where it is taken to be, nothing shown changes; a target before the start doubles the position instead |
| Displays.Padded | libtecla/getline.c:4140-4145 | what appears for a character: its rendering first and, at the end of a row, what is written ahead |
| Displays.Display.PrintChar | libtecla/getline.c:4084-4147 | advances by exactly the displayed width and leaves the cursor there even at the end of a row; just the rendering and what is written ahead appear, unless one of the two characters is DEL; and what the terminal does in any case |
| Displays.TrailIsCovered | libtecla/getline.c:4171-4180 | what was written ahead for the next character is overwritten when that one is printed |
| Displays.Display.PrintString | libtecla/getline.c:4171-4180 | exactly the picture of a string without DEL appears, then at most what is written ahead; the cursor is at its end; and what the terminal does for any string |
| Displays.Display.TruncateDisplay | libtecla/getline.c:12247-12287 | everything from the cursor on is blank, nothing before it changes, on all rows |
| Displays.Display.EraseLine | libtecla/getline.c:12189-12221 | everything from the start of the line on is blank and the cursor is there |
| Tracking.CursorFollowsPicture | libtecla/getline.c:4084-4147 | what is written for a string moves the cursor by the width that is counted for it if and only if there is no DEL in the string |
| Tracking.TrackedWithinRow | libtecla/getline.c:4171-4180 | within a row of any terminal, the cursor is where it is taken to be after a string is shown, if and only if there is no DEL in the string |
| Tracking.TrackedOnEveryTerminal | libtecla/getline.c:4171-4180 | it is so on all terminals of two or more columns, from all positions, if and only if there is no DEL in the string |
| Tracking.RowEndHidesDel | libtecla/getline.c:4134-4146 | a terminal and a string with DEL that ends a row, after which the cursor is where it is taken to be all the same |
| Tracking.EndsExactly | libtecla/getline.c:4134-4146 | writing ahead at the end of rows ends at all exactly on terminals of two or more columns, for every character and position |
| Tracking.EndsOnTwoColumns | libtecla/getline.c:4134-4146 | there, it ends after at most two further calls |
| LineImages.EndsAreMonotone | libtecla/getline.c:3790-3854 | text that starts further right, tabs included, does not end further left |
| LineImages.Overwritten | libtecla/getline.c:3035-3046 | overwriting by a character of the same width shows the line correctly exactly when it does not smudge: when what is written ahead does not fill whole rows |
| LineImages.SmudgeExample | libtecla/getline.c:3035-3045 | concrete failures: eight columns, the eighth character overwritten, a tab and a character after it |
| LineImages.WideTerminalsAreNotSmudged | libtecla/getline.c:3035-3045 | on more than eight columns that does not happen |
| EditSpec.KillThenYankIsIdentity | libtecla/getline.c:5061-5092 | for each killing operation, on every line, cursor and mark in emacs mode: yanking restores the text, with the cursor after and the mark before what was reinserted |
| EditLaws.KillsExactly | libtecla/getline.c:4279-4304 | killing the line takes all from the cursor on, deleting it takes everything, and the cut buffer gets just that |
| EditLaws.RegionIsKilledExactly | libtecla/getline.c:4982-5017 | the characters between cursor and mark, whichever comes first, and no others go to the cut buffer; cursor and mark are where they were |
| EditLaws.DeletesExactly | libtecla/getline.c:4364-4438 | exactly the next nc characters go; the cut buffer gets them only if asked to |
| EditLaws.DeletingUndoesTyping | libtecla/getline.c:4364-4438 | deleting what was typed gives the text and the cursor back |
| EditLaws.YanksExactly | libtecla/getline.c:5061-5092 | as many copies as asked for, or as fit, come between the text before and after the cursor; mark before, cursor after them or in vi mode on their last character; nothing if there is nothing to yank |
| EditLaws.CopiesRepeat | libtecla/getline.c:5081-5084 | the copies are the cut buffer over and over |
| EditSpec.RemoveRegionKills | libtecla/getline.c:4982-5017 | the region between cursor and mark, in either order, is what is cut out |
| EditSpec.YankInsertsCopies | libtecla/getline.c:5081-5084 | yanking repeatedly inserts as many copies as were asked for, or as fit |
| EditSpec.UndoIsAnInvolution | libtecla/getline.c:7842-7896 | two undos restore both lines, of unequal lengths too, and leave the cursors at the leftmost place |
| EditSpec.RunKeepsUndo | libtecla/getline.c:7820-7835 | no sequence of operations touches a saved undo line |
| EditSpec.UndoRestoresTheLine | libtecla/getline.c:7842-7896 | after saving a line and any operations, one undo gives the line back with both cursors at the leftmost of the two places, and another one the changed line |
| EditLaws.UndoUndoes | libtecla/getline.c:7820-7896 | in vi command mode, every operation that deletes or yanks is undone by one undo, and done again by the next |
| EditLaws.SavedOnce | libtecla/getline.c:7820-7835 | the line is saved in vi command mode only, and once for each key |
| EditSpec.PastWords | libtecla/getline.c:7501-7539 | the search stops at the end of a word, or at the end of the line |
| EditLaws.PassesWords | libtecla/getline.c:7501-7539 | going past n words goes to the n-th place at which one ends, or to the end of the text if there are fewer |
| EditLaws.PassesGaps | libtecla/getline.c:7552-7578 | going past n gaps goes to the n-th place at which a word starts, or to the end of the text |
| EditLaws.WordsAreKilled | libtecla/getline.c:4505-4524 | in emacs mode the text goes up to the n-th word end after the character at the cursor |
| EditLaws.WordsAreDeleted | libtecla/getline.c:4505-4524 | in vi mode the text goes up to the n-th word start, and into the cut buffer in command mode only |
| EditLaws.TypingInserts | libtecla/getline.c:2945-3049 | in insert mode, what is typed one character at a time comes between the text before and after the cursor, as far as there is room |
| EditLaws.TypingOverwrites | libtecla/getline.c:2945-3049 | in overwrite mode it replaces as many characters, and goes on past the end of the text while there is room |
| EditLaws.InsertingIsTyping | libtecla/getline.c:3062-3104 | a string that fits is inserted at once as it would be typed, and one that does not is not inserted at all |
| EditLaws.FullLineRefuses | libtecla/getline.c:2962-2963 | a character is refused exactly if the line is full and it would become longer |
| EditLaws.CursorGoesToNearest | libtecla/getline.c:7788-7807 | the cursor goes to the nearest place that the mode allows |
| EditLaws.ExchangeIsAnInvolution | libtecla/getline.c:4961-4976 | exchanging cursor and mark twice gives both back |
| EditSpec.PastGaps | libtecla/getline.c:7552-7578 | the search stops at the start of a word, or at the end of the line |
| EditSpec.DeletingRestores | libtecla/getline.c:4393-4417 | in vi overwriting input mode, deleting what was overwritten, or added at the end, gives back the line before it |
| EditSpec.RestoringKeepsTheRest | libtecla/getline.c:4393-4417 | in that mode, the text after the deleted characters is kept if and only if there is none, or the undo line reaches that far |
| EditSpec.DeletingLosesTheRest | libtecla/getline.c:4407-4417 | a concrete failure: three characters added to an empty line, of which the second one is deleted |
| LineEditors.GetLine.BufferChar | libtecla/getline.c:12011-12032 | exactly that place of the buffer changes, and the end of the line if it grows; refused past linelen |
| LineEditors.GetLine.BufferString | libtecla/getline.c:12049-12066 | as much of the string as fits is put at that place |
| LineEditors.GetLine.MakeGap | libtecla/getline.c:12081-12098 | if there is room, the rest of the line, with its terminator, moves to the right, and else nothing changes; an error is reported in either case |
| LineEditors.GetLine.RemoveFromBuffer | libtecla/getline.c:12110-12117 | the rest of the line, with its terminator, moves to the left |
| LineEditors.GetLine.TruncateBuffer | libtecla/getline.c:12130-12137 | the line ends at the given place; refused past linelen |
| LineEditors.GetLine.UpdateBuffer | libtecla/getline.c:12147-12174 | the length is that of the string in the buffer, and the cursor is within it |
| LineEditors.GetLine.PlaceCursor | libtecla/getline.c:7788-7807 | the cursor goes to that place or the nearest end, and the cursor of the terminal with it |
| LineEditors.GetLine.SaveForUndo | libtecla/getline.c:7820-7835 | in vi command mode, and once only, the line is copied to the undo buffer |
| LineEditors.GetLine.AddCharToLine | libtecla/getline.c:2945-3049 | inserts, overwrites or refuses as specified; the cursors agree afterwards; the terminal shows prompt and line, and nothing else, exactly if overwriting does not smudge |
| LineEditors.GetLine.OverwriteByNarrower | libtecla/getline.c:3004-3017 | overwriting by a narrower character leaves the terminal showing the line and nothing else |
| LineEditors.GetLine.OverwriteByWider | libtecla/getline.c:3022-3030 | overwriting by a wider character likewise |
| LineEditors.GetLine.AddStringToLine | libtecla/getline.c:3062-3104 | inserts the string if it fits; the terminal shows the line and the cursors agree |
| LineEditors.GetLine.DeleteChars | libtecla/getline.c:4364-4438 | cuts up to that many characters, or, in vi overwriting input mode, puts those of the undo line back; the terminal shows the line and the cursors agree |
| LineEditors.GetLine.BufferRestore | libtecla/getline.c:4397-4417 | characters of the undo line come back over those at the cursor, as far as it goes; if it ends before, the line ends there or at the cursor |
| LineEditors.GetLine.KillLine | libtecla/getline.c:4279-4304 | cuts the rest of the line; the terminal shows the line and the cursors agree |
| LineEditors.GetLine.DeleteLine | libtecla/getline.c:4247-4273 | cuts the whole line; the terminal shows only the prompt |
| LineEditors.GetLine.SetMark | libtecla/getline.c:4951-4955 | the mark is where the cursor is |
| LineEditors.GetLine.ExchangePointAndMark | libtecla/getline.c:4961-4976 | swaps cursor and mark, a mark past the end being taken as the end |
| LineEditors.GetLine.KillRegion | libtecla/getline.c:4982-5017 | cuts the text between cursor and mark; an empty region only clears the cut buffer |
| LineEditors.GetLine.Yank | libtecla/getline.c:5061-5092 | inserts the cut buffer the given number of times, as often as it fits, and in vi mode steps back onto what was inserted; the bell rings exactly if it is empty |
| LineEditors.GetLine.NthWordEndForward | libtecla/getline.c:7501-7539 | the loops find the end of the n-th word |
| LineEditors.GetLine.NthWordStartForward | libtecla/getline.c:7552-7578 | the loops find the n-th word start |
| LineEditors.GetLine.ForwardDeleteWord | libtecla/getline.c:4505-4524 | cuts up to the end of the word in emacs mode, and to the start of the next one in vi mode |
| LineEditors.GetLine.SwapLines | libtecla/getline.c:7847-7867 | swapping in place, character by character, exchanges two strings of unequal lengths and their terminators |
| LineEditors.GetLine.ViUndo | libtecla/getline.c:7842-7896 | line and undo line are exchanged, with both cursors at the leftmost valid place |
| LineEditors.GetLine.Redisplay | libtecla/getline.c:4817-4856 | from any state, the terminal then shows the prompt and the line, and nothing else, and the cursors agree |
| Brackets.IndexOfMatchingParen | libtecla/getline.c:8117-8170 | the loops compute the matching place; the bell rings exactly if there is none, and always at the end of the line |
| Brackets.MatchesEnclose | libtecla/getline.c:8134-8155 | the place found is the one that, with the bracket at the cursor, encloses a text in which brackets of that kind are balanced; and it is found whenever there is one |
| Brackets.Mirror | libtecla/getline.c:8122-8124 | the matching bracket is of the same one of the three kinds, and of the other direction |
| Brackets.MatchingIsAnInvolution | libtecla/getline.c:8117-8170 | matching from the place found comes back, for any nesting and mixing of the three kinds |
| Brackets.NextClose | libtecla/getline.c:8160-8164 | away from a bracket, the next close bracket of any kind to the right |
| KeySpec.ScanDecides | libtecla/getline.c:8244-8361 | a key sequence is decided on the shortest part of the input that is bound, or is no part of anything bound, or is too long |
| KeySpec.InterpretDecides | libtecla/getline.c:8195-8374 | so the outcome, the events and the characters used up are given by that part alone |
| KeyLaws.BoundSequenceActs | libtecla/getline.c:8276-8327 | a bound sequence is taken whole, and its action gets the count that was entered, or 1; the count is used up, and the search ends unless the action searches |
| KeyLaws.BoundMetaActs | libtecla/getline.c:8253-8257 | a meta character acts as ESC and the character without the meta bit |
| KeyLaws.UnboundCharacter | libtecla/getline.c:8339-8354 | an unbound character is inserted as often as the count says if it is a tab or neither control nor meta, and else rings the bell |
| KeyLaws.UnboundSequence | libtecla/getline.c:8339-8354 | of a sequence that turns out not to be bound only the first character is used up |
| KeyLaws.LongSequenceRings | libtecla/getline.c:8364-8373 | a sequence that fills the buffer undecided rings the bell and uses up one character |
| KeySpec.RunConserves | libtecla/getline.c:3338-3348 | every character is used up or dropped exactly once, in order, or is left; each step uses at least one |
| KeySpec.StepDrops | libtecla/getline.c:10489-10512 | a step of any run drops characters if and only if it ends a line while characters are read ahead that it does not use |
| KeySpec.NothingIsLost | libtecla/getline.c:2799-2838 | every character is used exactly once, or is left, if and only if no step of the run ends a line while characters are read ahead |
| KeySpec.ReadAheadIsLost | libtecla/getline.c:8333-8354 | a concrete failure: ESC newline x is read ahead to find that it is not bound, newline then ends the line, and the x is lost |
| KeySpec.RunInPieces | libtecla/getline.c:2828-2838 | input that comes in two pieces, at any place, is interpreted as if it had come at once |
| KeyDispatch.KeyReader.ReadTerminal | libtecla/getline.c:3126-3192 | characters that were read ahead come first; the characters still to be used do not change; refused exactly when the buffer is full |
| KeyDispatch.KeyReader.DiscardChars | libtecla/getline.c:3338-3348 | up to that many characters are used up, and reading goes back to the start of the buffer |
| KeyDispatch.KeyReader.ReadKeySequence | libtecla/getline.c:8244-8332 | the loop computes the verdict on the whole stream of characters, or blocks before that is known |
| KeyDispatch.KeyReader.Execute | libtecla/getline.c:8276-8327 | the action gets the repeat count, or the digit; the count is reset unless it is the digit action; the search is cancelled exactly if the action was not one |
| KeyDispatch.KeyReader.Reject | libtecla/getline.c:8339-8354 | a lone printable character is inserted as often as the count says, anything else rings the bell; one character is used up |
| KeyDispatch.KeyReader.InterpretChar | libtecla/getline.c:8195-8374 | one step of the specification is taken, or, if a read blocked, nothing is done and nothing used up |
| KeyDispatch.KeyReader.GetInputLine | libtecla/getline.c:2772-2839 | what was done, followed by what will be done with the characters to come, never changes, wherever reads block |
| KeyDispatch.KeyReader.Serve | libtecla/getline.c:2772-2839 | over a whole script of characters and blocked reads, what is done is what the specification does with the characters alone |
| KeyDispatch.ServeTwice | libtecla/getline.c:2828-2838 | two scripts with the same characters give the same steps, wherever reads block in either |
| KeyDispatch.KeyReader.DigitArgument | libtecla/getline.c:6767-6799 | digits accumulate a decimal count, anything else starts a new one |
| KeySpec.NumberIsEntered | libtecla/getline.c:6767-6799 | entering the digits of a number leaves that number as the repeat count |
| KeySpec.DigitsAreEntered | libtecla/getline.c:8223-8226 | once a repeat count was started, a run over digits enters each of them and does nothing else |
| KeyLaws.DigitArgumentCounts | libtecla/getline.c:6767-6799 | the digit action adds the digit to the count, or starts a new one |
| KeyLaws.NumberReachesAction | libtecla/getline.c:8281-8285 | for every n: entering n and then a sequence bound to an action makes that act with count n, and uses the count up |
| KeyLaws.NumberReachesInsertion | libtecla/getline.c:8347-8350 | for every n: entering n and then an unbound printable character inserts it n times, and uses the count up |
| KeyDispatch.KeyReader.ResetEditor | libtecla/getline.c:10489-10512 | at a new line, the characters that were read ahead are dropped |

## Left out

- Histories.History.AddHistory: for states in which a pinned prefix leaves room for the line (`HistorySpec.Addable`); in the others the code dereferences an empty list, as `HistorySpec.StuckWithPrefix` shows.
- Histories.History.SearchPrefix: a prefix other than the empty one is set only outside a session, as the editor's functions do (`libtecla/getline.c:5368-5370`).
- Histories.History.Resize: for states in which a pinned prefix fits in the new buffer, which is when the copy stays within it (`HistorySpec.ResizeKeepsNewest`); with no buffer, no prefix is pinned (`libtecla/history.c:1811-1840` does not reset it).
- Histories.History.FindBackwards: for search prefixes without wildcards; the wildcard search (`libtecla/history.c:2632-2841`) re-reads the first character, which changes the meaning of a leading range or backslash.
- Histories.History.FindForwards: likewise for prefixes without wildcards.
- Histories.History.DiscardLine: outside a session; the modelled callers that discard an entry within one have ended it before.
- HistorySpec.Backwards: likewise for prefixes without wildcards.
- HistorySpec.Forwards: likewise.
- Histories.History.OldestLine: for states in which a pinned prefix leaves room for the input line, as for additions.
- Histories.History.RecallLine: likewise, and for a buffer of at least one character.
- Segments.SegmentPool.MatchesPrefix: likewise for prefixes without wildcards.
- Globs.StringMatchesPattern: no character ranges (`libtecla/expand.c:926-1009`) and no backslash at the end of the pattern.
- Globs.MatchesSomeEnd: likewise.
- Displays.Display.PrintChar: two or more columns (`Tracking.EndsExactly`); one terminal control sequence moves the cursor by one position; the parameterized ones for longer moves are not modelled.
- LineEditors.GetLine.AddCharToLine: the line is displayed and echoed, has no NUL and no DEL (with DEL the cursor is not tracked, see `Tracking.TrackedWithinRow`), and the terminal has two or more columns and as many rows as are needed.
- LineEditors.GetLine.AddStringToLine: likewise.
- LineEditors.GetLine.Redisplay: a prompt in the literal style; formatted prompts with text attributes are not modelled.
- LineEditors.GetLine.SaveForUndo: only the undo part; the record of the action to be repeated is not modelled.
- KeyDispatch.KeyReader.InterpretChar: emacs mode, key tables without sequences longer than the buffer, actions that read no input themselves, and no failed table lookup; actions are events and always succeed.
- KeyDispatch.KeyReader.Execute: actions are events and always succeed.
- KeyDispatch.KeyReader.DigitArgument: emacs mode; in vi command mode a lone zero moves the cursor instead (`libtecla/getline.c:6776-6777`).
- KeyDispatch.KeyReader.ReadTerminal: output never blocks, and a character that is read is kept in the buffer.
- FreeLists.FreeList.New: allocation succeeds, here and everywhere else; nodes are addresses below the number of nodes, so that where the system puts a block is not modelled.
- Integers are unbounded, except for the hash of a line, which wraps as an unsigned long does; overflow of counts, ids and repeat counts is not modelled.
- Time stamps, loading, saving and showing the history: input and output. Changing its line limit, and clearing all of it: the latter does not reset a pinned prefix.
- Vi input mode and its repetition, the many one-line actions, completion, configuration files, key-table parsing, signals, `select`, terminal set-up and terminal databases.
- The directory cache of `libtecla/expand.c`, the hash tables of `libtecla/hash.c` and the other files of the repository.
