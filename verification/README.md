# OutRun OS: verified models

Dafny models of the algorithmic cores of OutRun OS, with the properties those cores are built for.
`dafny verify dfyconfig.toml` checks the whole project.

Code that updates state in place is modelled by classes and methods with loops, which are proved
against specification functions; what the code promises is then proved of those functions, over
all inputs, all runs or all interleavings.

| modules | what they model | main results |
|---|---|---|
| `BuddyBlocks`, `BuddyState`, `BuddyZone`, `BuddyBoot`, `BuddyRuns` | the buddy page allocator: free lists threaded through the page array, splitting, coalescing, boot | the set of free pages alone determines the free blocks; a request fails exactly when no aligned run is free; freeing everything restores the start; pages are conserved over every run, from boot on; which double frees are caught and what the others do |
| `Regex`, `RegexSyntax`, `EditorReplace`, `PatternLaws` | the editor's pattern compiler, its tagged automaton, find and replace-all | leftmost-longest matching against a denotational semantics; the accepted grammar is exact; what each kind of pattern finds, over its bytes; replace-all is gaps and replacements |
| `Editor`, `EditorIo`, `EditorLaws`, `Brackets` | the edit buffer with undo, clipboard, save and open over an adversarial file interface; bracket matching | a save that reports success wrote exactly the text, an open that does loaded exactly the file; what each key does to the lines around the cursor; when one undo step is lost; matching is an involution |
| `CalcExpr`, `CalcMachine`, `CalcWidth`, `CalcRefine`, `CalcCodes`, `Calculator` | the two-register calculator | it computes two-level precedence expressions, or faults at exactly the right key; on 64-bit registers it takes the same steps; when an operator may be typed over another |
| `HttpMessage`, `HttpChunks`, `HttpLaws`, `ChunkLaws`, `HttpDecoder` | the browser's HTTP verdict function and in-place chunk decoder | delivery independence; the verdict on every written header and body; the reader accepts exactly the codings; the payload stands in place and failed calls change nothing |
| `Url`, `UrlLaws`, `UrlResolver`, `Dns`, `Calendar`, `Division` | URL parsing and resolution, DNS names, Gregorian dates, 128-bit division | normal form, idempotence, origin kept, when an empty reference leads back; query round trip and safe walks over cyclic packets; date round trip; quotient and rest |
| `SpscRing` | the lock-free byte ring as interleaved atomic steps with stale reads | first in, first out in every interleaving, across counter wrap; what a reader of the depth can see |
| `Files`, `Descriptors` | descriptor tables over shared descriptions, with growth outside the lock | descriptions are counted exactly at every moment of every interleaving, pipe ends if and only if pipes are made of unshared descriptions; growth loses nothing; when numbers run out |
| `Terminal`, `TerminalLaws`, `TerminalRing` | the terminal's line ring and parser | the ring shows what an unbounded list of lines shows, after any byte stream; what each escape sequence does, over its bytes; history is append-only |
| `Scrypt`, `ScryptMix`, `ScryptKdf` | scrypt with Salsa20/8 and PBKDF2 as parameters | the in-place word loops compute BlockMix, ROMix and the key of RFC 7914 for exactly the sizes whose 32-bit products fit |
| `Bitmap`, `Capture` | the BMP codec and the strip-wise screenshot | what is captured is what is read back |
| `Common`, `Bytes`, `Decimals`, `Powers` | shared notions | |

## Reading the model

- A lock is modelled by its critical section being one step. `SpscRing` interleaves the single atomic
  loads, stores and byte copies of both threads; `Files` interleaves whole lock sections, and in
  `Descriptors` the parameter `others` says what other threads do whenever a call gives the lock back.
- Integers are unbounded except where the width matters: `free_count` is kept modulo 2^32, the ring
  counters modulo 2^64 with their difference cut to 32 bits, the products of scrypt and the stride of a
  bitmap modulo 2^32, scrypt's size modulo 2^64, the shift of the division modulo 2^128. The calculator
  is modelled on integers and on wrapping 64-bit registers, and `CalcWidth.NoRunWraps` says that this
  makes no difference.
- The page array, list heads, rings, text buffers and working areas are arrays; tables that are
  replaced as a whole (descriptor tables, the cells of one terminal line) are sequences in fields. A
  ghost field of `Zone` holds the partition of the free pages, one of `Tab` the list of all lines.
- The bit set of a pattern atom is a set of bytes, and C strings are sequences without zero bytes.
- The usable ranges that the boot code hands to the allocator are taken to share no page above the
  identity map; `BuddyBoot.MmInitOverlapping` says what happens when they do.
- `BuddyZone.Zone.Readable` says that some free lists and some partition of the pages agree with the
  page array, the list heads and the counts. What a free leaves that is not readable is no state the
  allocator could have reached otherwise.
- Reads of the other thread's ring counter may return any value between the last one seen and the
  current one; that is the coherence of a single atomic variable, and acquire and release make the
  bytes before it visible.
- Files, memory, screen copies and time are parameters: `EditorIo.Io` answers every call with an
  arbitrary oracle and keeps a log of the calls, `AllocInstall` takes which allocations succeed,
  `SnapCapture` which copies do.

## Where the code and its comments differ

- The double-free guard of `free_pages` (mm_impl.c:150) stops a second free of a free page if and only
  if a free block starts at that page (`BuddyZone.Zone.FreeGuard`, `BuddyZone.Zone.FlagMarksHeads`). A
  page inside a free block passes, and the free lists are then beyond repair
  (`BuddyZone.Zone.FreePages`; `BuddyRuns.DoubleFreeOfInnerPage` shows it on two pages after boot).
- The comment at vault_pad.c:219 says that a checkpoint is taken only for a key that changes the
  buffer. It is also taken for a forward delete in command mode at the end of the text, for a cut that
  finds nothing or a line too long, for a paste that does not fit, and for typing into a full buffer.
  `Editor.Editor.Key` states exactly when the undo slot is lost that way;
  `Editor.DeleteAtEndCostsUndo` shows it on one byte in a fresh buffer.
- The comment at calc.c:70 says that left-to-right order is preserved because the held operation is
  always the older one. When an operator is typed over another, that holds if and only if both bind
  alike or only one term stands before them (`CalcRefine.OverIsRightIff`). `CalcRefine.OverGroupsOtherwise`
  says how the expression is grouped instead; `CalcRefine.OverFoldsLate` and `CalcRefine.OverFoldsEarly`
  show both ways in which the value can change.
- A held operation is folded at `=` (calc.c:79, 81) only when an operand has been typed, so that `=`
  directly behind a tight operator leaves it held. `CalcRefine.EqualsBehindOperator` states exactly when
  `=` settles the line, and `CalcRefine.EqualsKeepsHolding` is an input for which it does not.
- The comment at files.c:161 promises the lowest free number. `Files.FindFree` states exactly when the
  search returns it; `Files.HintsStayTight` and `Files.HintCanSkipFreeSlots` say which histories of
  installations keep that and which do not, `Files.InstallKeepsTightIff` exactly, one at a time.
  `Files.ForkSkipsFreeSlots` is an ordinary history that does not.
- The comment at scrypt.c:133 says that an overflow becomes a refusal. The size test is made in 64 bits,
  and it refuses every too small area if and only if the size is below 2^64 (`ScryptKdf.GuardIsRightIff`;
  `ScryptKdf.SizeOfNothing` is a request beyond). The products behind it are made in 32 bits and are
  right if and only if 128r, 128rp and (N-1)*32r stay below 2^32 (`ScryptMix.ProductsAreRightIff`).
  Larger requests are accepted all the same: `ScryptKdf.StateOfNoBytes`, `ScryptKdf.StateOfNoWords` and
  `ScryptKdf.EntriesCollide` show what is cut off.
- An empty reference is resolved to the folder of the base (outrun_web.c:70), not to the base itself as
  section 5.2.2 of RFC 3986 has it. `Url.EmptyReferenceIsBase` states exactly when that is the same;
  `Url.EmptyReferenceMissesBase` is a base for which it is not.
- The comment at kernel64.c:11790 says that the counts of a new pipe are set to 1 each because both ends
  are installed already. The read end is an open slot from its own installation on, so that a fork by
  another thread of the process can copy it before the counts are set. `Files.AttachKeepsIff` states
  exactly when 1 is right, and `Files.ForkPutsReadersOut` is a run in which it is not.
- The comment at ipc_ring.cpp:43 hands back a pointer to the popped bytes. They are one slice behind it if
  and only if they do not pass the end of the ring (`SpscRing.Ring.Pop`; `SpscRing.PopPastTheEnd` is a
  pop that does), and stay there until the producer comes round (`SpscRing.PoppedStays`).
- The result of `depth` in ipc_ring.cpp:54 is a number of bytes only as long as the two counters are seen
  close enough together; `SpscRing.DepthOfTwoLoads` states when, `SpscRing.DepthCanWrap` shows the rest.

## Model

| member | source | states |
|---|---|---|
| `BuddyBlocks.BuddyFacts` | metal/kernel/mm_impl.c:61 | flipping bit `order` of an aligned page number gives the other half of the same block one order up, and flipping it again gives the number back |
| `BuddyBlocks.Halves` | metal/kernel/mm_impl.c:98-105 | a block of order k+1 is exactly its lower half and, at `pfn + 2^k`, its upper half; the two halves are disjoint buddies |
| `BuddyBlocks.BlocksAreMaximalRuns` | metal/kernel/mm_impl.c:57-85 | in a coalesced free pool the blocks are exactly the maximal aligned runs (order at most MAX_ORDER-1) of the set of free pages |
| `BuddyBlocks.CanonicalIsUnique` | metal/kernel/mm_impl.c:57-85 | the set of free pages alone determines the free blocks |
| `BuddyBlocks.RunInOneBlock` | metal/kernel/mm_impl.c:87-112 | an aligned run of free pages lies inside a single free block, however the pool was reached |
| `BuddyBlocks.RunExists` | metal/kernel/mm_impl.c:87-112 | a free block of order at least k exists if and only if an aligned run of 2^k free pages exists |
| `BuddyBlocks.RemoveBlock` | metal/kernel/mm_impl.c:87-97 | taking a whole block out keeps the pool coalesced and leaves every other block as it is |
| `BuddyBlocks.InsertBlock` | metal/kernel/mm_impl.c:79-84 | putting in a block whose buddy is not a free block of its order keeps the pool coalesced |
| `BuddyBlocks.MergeFreeable` | metal/kernel/mm_impl.c:60-78 | one merge step moves no page: the merged block is in the zone, aligned, owned and disjoint from what stays free |
| `BuddyBlocks.SplitFreeable` | metal/kernel/mm_impl.c:97-106 | one split step: the returned upper half can be inserted without a buddy beside it, and the pages add up |
| `BuddyBlocks.NoBuddyToMerge` | metal/kernel/mm_impl.c:60-64 | a second free of a page inside a free block, with any order, or of its first page, with an order up to that of the block, finds no buddy to merge with |
| `BuddyState.InnerMarkUnreadable` | metal/kernel/mm_impl.c:79-83 | once a page inside a free block carries the flag, no lists and no partition of the pages agree with the page array |
| `BuddyState.PushKeepsRep` | metal/kernel/mm_impl.c:79-83 | pushing a block on its list keeps flags, links, orders and counts agreeing with the partition of the free pages, every list acyclic |
| `BuddyState.UnlinkKeepsRep` | metal/kernel/mm_impl.c:65-74 | unlinking any entry of a list keeps that agreement; the block leaves the partition and nothing else does |
| `BuddyZone.Zone.FindOnList` | metal/kernel/mm_impl.c:65-68 | the walk finds the page on the list of its order if and only if a free block of that order starts there, and stops in front of it |
| `BuddyZone.Zone.Detach` | metal/kernel/mm_impl.c:69-74 | the block goes from the list and from the free pages; all lists and counts stay exact |
| `BuddyZone.Zone.Insert` | metal/kernel/mm_impl.c:101-103 | an upper half joins its list and the free pages; all lists and counts stay exact |
| `BuddyZone.Zone.PushFree` | metal/kernel/mm_impl.c:79-84 | page, list head, list count and `nr_free` change as in the last lines of `buddy_free_locked` |
| `BuddyZone.Zone.InsertCounted` | metal/kernel/mm_impl.c:79-84 | a block that may be freed joins its list and the free pages, and all lists and counts stay exact; whatever the block, of the page array only its first page changes, and it is marked as free |
| `BuddyZone.Zone.TakeBuddy` | metal/kernel/mm_impl.c:61-74 | the buddy is taken if and only if it is a free block of the same order |
| `BuddyZone.Zone.MergeOnce` | metal/kernel/mm_impl.c:60-78 | a round merges with the free buddy, or stops knowing that none is free; free pages plus the block in hand are conserved |
| `BuddyZone.Zone.BuddyFreeLocked` | metal/kernel/mm_impl.c:59-85 | exactly the 2^order pages become free, the pool is again fully coalesced and `nr_free` counts it |
| `BuddyZone.Zone.SplitDown` | metal/kernel/mm_impl.c:97-106 | cutting down to the order asked for returns all other pages of the block |
| `BuddyZone.Zone.TakeFirst` | metal/kernel/mm_impl.c:91-96 | the first block of a list is taken whole |
| `BuddyZone.Zone.BuddyAllocLocked` | metal/kernel/mm_impl.c:89-112 | fails if and only if no aligned run of 2^order free pages exists; otherwise takes an aligned run of exactly that size out of a smallest sufficient block |
| `BuddyZone.Zone.AllocPages` | metal/kernel/mm_impl.c:122-137 | `alloc_pages`: null if and only if the order is too large, the physmap is not ready or no aligned run is free; what it hands out was released at boot and is neither legacy nor reserved |
| `BuddyZone.Zone.FreeGuard` | metal/kernel/mm_impl.c:140-154 | the tests before the lock, for every page: ignored, halted as misrouted, halted as a double free or let through, each exactly when; the double-free test fires if and only if a free block starts at the page |
| `BuddyZone.Zone.FlagMarksHeads` | metal/kernel/mm_impl.c:57-85 | of the free pages exactly the first one of each block carries the flag |
| `BuddyZone.Zone.FreePages` | metal/kernel/mm_impl.c:139-159 | `free_pages` for every page: a block its caller owns becomes free; a second free of a free page is halted if and only if a free block starts there, and otherwise leaves a page array that no free lists explain |
| `BuddyZone.Zone.ReleaseAgain` | metal/kernel/mm_impl.c:200-214 | releasing a page a second time at boot, as overlapping ranges would, leaves a page array and an `nr_free` that do not agree |
| `BuddyZone.Zone.FrameShadowSet` | metal/kernel/mm.c:186-190 | the free flag of a legacy page can change at will without disturbing the free lists |
| `BuddyBoot.BootMap.NoteUsable` | metal/kernel/mm.c:153-163 | a usable range is kept if and only if there is room and it contains a whole page, and then covers exactly its whole pages |
| `BuddyBoot.ReleaseRange` | metal/kernel/mm_impl.c:200-214 | of one range exactly the pages from the end of the identity map on reach the buddy; those of the window below get the marks of the older pool, and all other marks stay |
| `BuddyBoot.MmInit` | metal/kernel/mm_impl.c:174-219 | for ranges that share no page above the identity map: after boot the buddy owns, and has free, exactly the pages of the usable ranges above the identity map; the legacy and reserved flag of every page is the one `BuddyBoot.BootMarks` says; physmap building apart |
| `BuddyBoot.BootMarks` | metal/kernel/mm_impl.c:200-214 | a page is legacy after boot if and only if a usable range holds it and its number is at least 0x1000 and below 0x40000, and reserved if and only if the buddy did not get it |
| `BuddyBoot.MmInitOverlapping` | metal/kernel/mm_impl.c:200-214 | where a range shares such a page with an earlier one: its release comes to the first shared page, and then no free lists explain the page array |
| `BuddyRuns.Serve` | metal/kernel/mm_impl.c:122-159 | callers that give back only what they hold get an answer to every request, in order; the answers are a run of the transition system below, and it ends with the free pages of the zone and the blocks returned as held |
| `BuddyRuns.BootAndServe` | metal/kernel/mm_impl.c:122-219 | from any memory map whose ranges share no page above the identity map through any requests: free pages and held blocks add up to what boot released, a request was refused exactly when the pages nobody held contained no aligned run of its size, once nothing is held the free blocks are those boot left, and the legacy pages stay those of the window |
| `BuddyRuns.FreeOfOlderPool` | metal/kernel/mm_impl.c:139-219 | after boot and any requests, freeing a page of the window halts as misrouted if and only if a usable range holds that page |
| `BuddyRuns.RunKeepsAccounted` | metal/kernel/mm_impl.c:59-159 | at every moment of every run each owned page is free or held by one caller, never both, never twice |
| `BuddyRuns.AllFreedRestoresBlocks` | metal/kernel/mm_impl.c:57-112 | when everything has been given back, in any order, the free blocks are the very blocks of the start |
| `BuddyRuns.PagesAreConserved` | metal/kernel/mm_impl.c:71-108 | free pages and the sizes of all held blocks always add up to the owned pages |
| `BuddyRuns.FailureMeansNoRun` | metal/kernel/mm_impl.c:87-112 | at any moment of any run a request fails if and only if the pages nobody holds contain no aligned run of its size |
| `BuddyRuns.DoubleFreeOfInnerPage` | metal/kernel/mm_impl.c:139-159 | in the zone that boot leaves for two pages above the identity map the second page is free and not marked; freeing it passes the guard, marks it, and leaves a page array that no free lists explain |
| `Regex.AutomatonAccepts` | apps/outrun_edit.c:77-101 | the state automaton accepts exactly the language of the atoms |
| `Regex.ClosureHolds` | apps/outrun_edit.c:81-83 | entering optional atoms without reading keeps, per state, the earliest start that can be there |
| `Regex.StepHolds` | apps/outrun_edit.c:91-97 | reading one byte keeps it |
| `Regex.StopIsFinal` | apps/outrun_edit.c:87-90 | when no state that can read on holds a start as early as the best one, no later end improves the match, so leaving the loop is right |
| `Regex.LeftmostLongestIsUnique` | apps/outrun_edit.c:77-101 | leftmost-longest names one result |
| `Regex.Close` | apps/outrun_edit.c:81-83 | the first inner loops compute that closure in place |
| `Regex.Advance` | apps/outrun_edit.c:91-97 | the last inner loops compute the step into the other array |
| `Regex.CodeMatch` | apps/outrun_edit.c:77-101 | `code_match` reports a match if and only if one exists from `from` on under the line anchors, and then the smallest start and for it the largest end |
| `RegexSyntax.ReadUndoesPrint` | apps/outrun_edit.c:32-72 | every pattern tree is read back from its print |
| `RegexSyntax.PrintUndoesRead` | apps/outrun_edit.c:32-72 | every accepted pattern is the print of the tree it is read as, so the grammar is exact |
| `RegexSyntax.CodeCompile` | apps/outrun_edit.c:32-72 | the compiler loop yields the atoms and anchors of the pattern, or refuses it |
| `RegexSyntax.CompiledLanguage` | apps/outrun_edit.c:32-72 | the compiler accepts exactly the patterns of the grammar within the atom limit, and gives each the language of its tree |
| `PatternLaws.DotFinds` | apps/outrun_edit.c:32-106 | `.` finds the first byte that is not a newline |
| `PatternLaws.RangeFinds` | apps/outrun_edit.c:32-106 | `[x-y]` finds the first byte from x to y, `[^x-y]` the first other one |
| `PatternLaws.ByteClassFinds` | apps/outrun_edit.c:32-106 | `[x]` finds the first x, `[^x]` the first other byte |
| `PatternLaws.TwoBytesFind` | apps/outrun_edit.c:32-106 | `[xy]` finds the first of either |
| `PatternLaws.LiteralFinds` | apps/outrun_edit.c:32-106 | `x`, and any byte behind a backslash, finds the first of that byte; with `^` the first one at the start of a line, with `$` the first one at the end of a line |
| `PatternLaws.OptionalFinds` | apps/outrun_edit.c:32-106 | `x?` matches at once, and takes one x if there is one |
| `PatternLaws.StarFinds` | apps/outrun_edit.c:32-106 | `x*` matches at once, and takes the whole run of x |
| `PatternLaws.PlusFinds` | apps/outrun_edit.c:32-106 | `x+` takes the whole of the first run of x, and matches nothing where there is none |
| `PatternLaws.LiteralsFind` | apps/outrun_edit.c:32-106 | a pattern of plain bytes finds the first place where they stand in a row; more than 48 of them are refused |
| `PatternLaws.Refusals` | apps/outrun_edit.c:32-76 | a quantifier, group or brace in front, a lone backslash, an open or empty class and a range that runs backwards are refused |
| `EditorReplace.ReplaceStep` | apps/outrun_edit.c:255-266 | the next site is the leftmost longest match from where the last one ended, and an empty match copies one byte |
| `EditorReplace.CodeFind` | apps/outrun_edit.c:102-106 | the editor search: refused exactly for a bad pattern or start, else the leftmost longest match |
| `EditorReplace.StageReplaced` | apps/outrun_edit.c:254-268 | the staging loop ends, and yields the gaps joined with the replacement at every site, or -1 exactly when that exceeds the capacity |
| `EditorReplace.CodeReplace` | apps/outrun_edit.c:250-274 | `code_replace`: on success the text is the replaced one and, if anything was replaced, the undo slot holds the old one; a result of -1 or 0 changes neither text, cursor nor undo slot |
| `PatternLaws.ReplaceByte` | apps/outrun_edit.c:250-274 | replacing a plain byte puts the replacement between the parts that the byte separates |
| `PatternLaws.ReplaceEmpty` | apps/outrun_edit.c:250-274 | replacing the empty pattern puts the replacement before every byte and at the end |
| `Brackets.CodeBracketMatch` | apps/outrun_edit.c:183-196 | finds the partner in the balanced stretch of the bracket's own kind, skipping strings and comments, or -1 if and only if there is none |
| `Brackets.PartnersAreMutual` | apps/outrun_edit.c:183-196 | each bracket has at most one partner, in either direction |
| `Brackets.ThereAndBack` | apps/outrun_edit.c:183-196 | where the answer to a question is a bracket, the answer to that bracket is the one the first question was about |
| `Brackets.SimplePair` | apps/outrun_edit.c:183-196 | an opening bracket, text without either bracket outside strings and comments, and the closing one: each is the answer for the other, for the pairs ( ) and [ ] and { } |
| `Brackets.BracketBefore` | apps/outrun_edit.c:176-187 | with no bracket on the cursor the answer is that for the bracket before it, and -1 without one |
| `EditorIo.Io.Write` | apps/vault_pad.c:178-205 | a write may fail or store any part of what was asked |
| `EditorIo.Io.Read` | apps/vault_pad.c:157-177 | a read may fail or deliver any part of what was asked |
| `Editor.Editor.Checkpoint` | apps/vault_pad.c:34-39 | the undo slot holds text and cursor |
| `Editor.Editor.MarkClean` | apps/vault_pad.c:40-43 | the clean copy equals the text and the buffer is not dirty |
| `Editor.Editor.Undo` | apps/vault_pad.c:49-63 | text and undo slot are exchanged when the slot is on the side asked for, so undo and then redo restores text, length and cursor; dirty is recomputed against the clean copy |
| `Editor.Editor.Insert` | apps/vault_pad.c:64-69 | a byte goes in at the cursor if and only if it fits |
| `Editor.Editor.Delete` | apps/vault_pad.c:92-97 | the byte before or behind the cursor goes, if there is one |
| `Editor.Editor.Yank` | apps/vault_pad.c:106-113 | the cursor line goes to the clipboard whole or not at all |
| `Editor.Editor.Cut` | apps/vault_pad.c:114-124 | a yanked line leaves the text together with one newline beside it |
| `Editor.Editor.Paste` | apps/vault_pad.c:125-136 | the clipboard becomes a line below the cursor line, exactly when it is not empty and fits |
| `Editor.Editor.Key` | apps/vault_pad.c:209-289 | for every editing key: text, cursor and clipboard become what the key makes of them; after a key that changes the text one undo gives the old text and cursor back; the earlier undo state is lost without any change exactly in the listed cases; a pending overwrite question stands exactly after the keys that ask to save or open |
| `EditorLaws.TypingEnters` | apps/vault_pad.c:64-69 | a printable byte goes in at the cursor as it is, both return codes as a newline, if there is room |
| `EditorLaws.DeletingTakesOut` | apps/vault_pad.c:92-97 | backspace takes the byte before the cursor, delete and the command `x` the one behind it; at the ends of the text nothing changes |
| `EditorLaws.LineIsTaken` | apps/vault_pad.c:106-124 | `y` copies the line around the cursor, `D` takes it out with the newline behind it or, on the last line, the one before it; a line of more than 1024 bytes is left alone |
| `EditorLaws.LineIsPasted` | apps/vault_pad.c:125-136 | `p` puts the clipboard below the line of the cursor as a line of its own; nothing changes with an empty clipboard or without room |
| `EditorLaws.LinesChangePlaces` | apps/vault_pad.c:106-136 | a line cut and pasted changes places with the one below it |
| `EditorLaws.OtherKeys` | apps/vault_pad.c:209-289 | no other key edits |
| `EditorLaws.UndoAndRedoKeys` | apps/vault_pad.c:209-220 | the two undo keys and the two redo keys, by their codes: undo shows the text of the undo slot and redo takes that back |
| `Editor.LineIsLine` | apps/vault_pad.c:70-78 | the cursor line has no newline in it, and one on either side or the end of the text |
| `Editor.Editor.Edit` | apps/vault_pad.c:231-289 | the text changes if and only if the key is an editing key that can act |
| `Editor.Editor.WriteAll` | apps/vault_pad.c:193-199 | the partial-write loop ends, succeeds exactly if every write stores something, and then the file begins with the text |
| `Editor.Editor.Store` | apps/vault_pad.c:191-203 | the file is opened, and made if it is missing, written, cut to length, closed and synced; it succeeds exactly if every call does, and then holds exactly the text |
| `Editor.Editor.Save` | apps/vault_pad.c:178-205 | whatever counts the writes return, 1 means that the file is exactly the text, cut, closed and synced, and comes out exactly if no call fails; no other file changes; a target that exists and is not where the text came from is asked about first, once, and nothing is written then |
| `Editor.Editor.ReadAll` | apps/vault_pad.c:164-170 | the partial-read loop collects exactly the file, and succeeds exactly if no read fails and the file fits |
| `Editor.Editor.Load` | apps/vault_pad.c:157-177 | whatever counts the reads return, 1 means that the text is exactly the file, and comes out exactly if the buffer is not dirty, a name is given, no call fails and the file fits; otherwise the buffer is as it was |
| `Editor.UndoThenRedo` | apps/vault_pad.c:49-63 | undo succeeds and shows the text of the undo slot, and redo behind it succeeds and gives back text, length, cursor and undo slot |
| `Editor.DeleteAtEndCostsUndo` | apps/vault_pad.c:219-246 | one byte typed into a fresh buffer: undo takes it out again, but not after a forward delete behind it, which changes no text |
| `Editor.SaveThenOpen` | apps/vault_pad.c:157-205 | after a save that reports success the file is the text; an open that reports success takes the text from that file, and one that fails leaves the buffer; so after both successes the texts are equal |
| `CalcExpr.ParseKeepsText` | apps/calc.c:42-90 | the precedence tree of an expression has that expression as its text |
| `CalcExpr.ParseIsUnique` | apps/calc.c:42-90 | it is the only tree that respects precedence |
| `CalcMachine.ProductTest` | apps/calc.c:17-21 | the test before the multiplication passes if and only if the product is in the bound |
| `CalcMachine.BinOpIsFold` | apps/calc.c:14-28 | one fold of the machine is exact arithmetic with truncating division, refused exactly when it leaves 18 digits or divides by zero |
| `CalcMachine.RunKeepsBounds` | apps/calc.c:14-90 | on every run of keys all registers stay within 18 digits while no error shows |
| `CalcWidth.NoRunWraps` | apps/calc.c:14-90 | on every run of keys the machine whose 64-bit registers wrap around goes through the very states of the machine on integers |
| `CalcWidth.BinOpFits` | apps/calc.c:14-28 | one fold of bounded numbers on 64-bit registers is the fold on integers, the product test included |
| `CalcRefine.TypingEnters` | apps/calc.c:48-60 | digit, delete and sign keys enter the number they spell |
| `CalcRefine.DigitsEnter` | apps/calc.c:48-53 | typing the decimal digits of a number enters that number |
| `CalcRefine.KeySettles` | apps/calc.c:61-89 | an operator key works out exactly the folds that are due, and faults if and only if one of them fails |
| `CalcRefine.CalculatorComputes` | apps/calc.c:42-90 | typing any `number (operator number)* =` ends with the value of the two-level left-to-right evaluator, or with its first error; an operator may be typed over others that bind alike, or over any behind a single term |
| `CalcRefine.FaultAtExactlyThatKey` | apps/calc.c:61-89 | the error appears at exactly the key whose due fold fails first |
| `CalcRefine.OverIsRightIff` | apps/calc.c:61-89 | an operator typed over another leaves the state it alone would have left if and only if both bind alike or only one term stands before it |
| `CalcRefine.OverGroupsOtherwise` | apps/calc.c:61-89 | in every other case, what the next operand and `=` give: a loose operator typed over a tight one is folded before the loose one still held, a tight one typed over a loose one gets the whole sum for its operand |
| `CalcRefine.EqualsBehindOperator` | apps/calc.c:61-89 | `=` directly behind an operator settles the line, with the value typed before that operator, if and only if the operator is loose or only one term stands before it; otherwise it shows the last term and the rest stays held |
| `CalcRefine.EqualsKeepsHolding` | apps/calc.c:61-89 | `2 + 3 * =` shows 3, and `4 =` behind it gives 6 |
| `CalcRefine.OverFoldsLate` | apps/calc.c:61-89 | `2 - 3 * - 4 =` gives 3, where the last operator alone gives -5 |
| `CalcRefine.OverFoldsEarly` | apps/calc.c:61-89 | `2 + 3 - * 4 =` gives 20, where the last operator alone gives 14 |
| `CalcCodes.CodesAreRead` | apps/calc.c:42-90 | the code of every key is read as that key, and no other code does anything |
| `CalcCodes.CodesCompute` | apps/calc.c:42-90 | typing the codes of `number (operator number)*` and 61 ends with the value of the evaluator or its first error |
| `CalcCodes.TwoNumbers` | apps/calc.c:14-90 | for any two numbers in decimal: 43 between them shows their sum, 45 their difference, 42 their product and 47 their quotient, a value beyond 18 digits an overflow and a quotient by 0 its own error |
| `CalcCodes.ThreeNumbers` | apps/calc.c:61-89 | of two operators the second goes first if and only if it is * or / and the first + or - |
| `CalcCodes.Corrections` | apps/calc.c:42-60 | a digit taken back is as if never typed, one sign key negates, two change nothing |
| `CalcCodes.QuotientDropsRest` | apps/calc.c:23-27 | the rest of a division is smaller than the divisor and has the sign of the dividend |
| `Calculator.Calc.Binop` | apps/calc.c:14-28 | the method with its early returns computes the machine's fold |
| `Calculator.Calc.CalcKey` | apps/calc.c:42-90 | every key changes the fields as the machine steps |
| `Calculator.Calc.Display` | apps/calc.c:108-124 | the display is the error text, or the value in decimal with its sign |
| `HttpMessage.DeliveryIndependence` | apps/outrun_web.c:557-621 | while the connection is open, a verdict on a prefix, with status, offset and length, is the verdict on every extension, so the cut into deliveries does not matter |
| `HttpMessage.ReadBodyStays` | apps/outrun_web.c:585-617 | the same for a chunked body alone |
| `HttpChunks.EveryCodingIsRead` | apps/outrun_web.c:585-617 | every chunked coding within the limits is read to its payload, whatever follows it |
| `HttpChunks.ReaderAcceptsExactlyCodings` | apps/outrun_web.c:585-617 | a payload is read if and only if the bytes are a coding of that payload (section 7.1 of RFC 9112, within the limits of the code) |
| `HttpChunks.ReadUndoesWriter` | metal/tools/desktop-web-fixture.py:87-94 | reading undoes the chunk writer for every payload below the limit and every piece size |
| `ChunkLaws.HexDigits` | apps/outrun_web.c:590-592 | the digits of a size are 0-9, a-f and A-F, with their values, and no other byte is one |
| `ChunkLaws.SizeIsRefused` | apps/outrun_web.c:588-597 | refused: seven digits, a size of 131072 or more, a byte that is no digit before the CR or semicolon, a CR without its newline; a size without digits is unfinished, not wrong |
| `ChunkLaws.DataIsRefused` | apps/outrun_web.c:610-611 | refused: data without a line end behind it, and 131072 bytes of data or more in all |
| `ChunkLaws.TrailersAreSkipped` | apps/outrun_web.c:598-608 | behind the last size trailer lines are skipped up to the empty one, and refused once they take more than 8192 bytes |
| `HttpDecoder.MoveWithin` | apps/web_libc.c:30-37 | overlap-safe copy: the target gets the old source bytes, all other bytes stay |
| `HttpDecoder.ChunkPass` | apps/outrun_web.c:585-615 | one pass agrees with the reading of the original bytes; the compacting pass repeats its verdict because it never overwrites what is still to be read |
| `HttpDecoder.ReadChunked` | apps/outrun_web.c:585-617 | the two passes together |
| `HttpDecoder.ReadHeader` | apps/outrun_web.c:566-584 | the field loop yields the fields the message has |
| `HttpDecoder.WebResponse` | apps/outrun_web.c:557-621 | verdict, status, offset and length are those of the message; a complete chunked body stands decoded in place and every other outcome leaves the buffer unchanged |
| `HttpDecoder.PayloadStands` | apps/outrun_web.c:585-617 | where the body was a coding, the body area is exactly its payload |
| `HttpLaws.Responds` | apps/outrun_web.c:557-621 | for every well-formed header and every body: the status is the three digits, the location and type are those of the last such lines, in any letter case and with blanks around the value, and the verdict and length follow from the lines alone: a body of known length is complete as soon as that many bytes are there, 204 and 304 have none, any other ends with the connection |
| `HttpLaws.LineMeans` | apps/outrun_web.c:566-584 | one more line is accepted if and only if it is sound by itself and repeats neither length nor transfer coding, and then means what it says |
| `HttpLaws.LinesAreRead` | apps/outrun_web.c:564-584 | so for all lines: which headers are refused, and what the others say |
| `HttpLaws.LineIsRead` | apps/outrun_web.c:566-573 | a line is split at its first colon, blanks around the value dropped, a name of 64 or a value of 512 bytes refused |
| `HttpLaws.FieldIsUsed` | apps/outrun_web.c:574-582 | what each field name does, in any letter case |
| `HttpLaws.LengthIsRead` | apps/outrun_web.c:574-577 | digits are read as the decimal number they write, refused from 131072 on; anything else is refused |
| `HttpLaws.GrownIsValue` | apps/outrun_web.c:577 | reading digit by digit gives the decimal number |
| `HttpLaws.HeaderEndIsFirst` | apps/outrun_web.c:559-560 | the header ends behind the first empty line |
| `HttpLaws.HeaderIsFound` | apps/outrun_web.c:559-584 | of a written header with any body behind it, exactly the header is found and read |
| `HttpLaws.RefusedAtOnce` | apps/outrun_web.c:560-563 | whatever the lines are: a header too long, one that does not begin with `HTTP/1.0 ` or `HTTP/1.1 ` and three digits, and one without an end once no more bytes come or more than 8192 have |
| `Url.ResolvedIsNormal` | apps/outrun_web.c:73-86 | every path resolves to plain segments: no `.`, no `..`, no empty one before the last, nothing above the root |
| `Url.ResolvingTwice` | apps/outrun_web.c:73-86 | resolving the dot segments of the result changes nothing |
| `Url.CleaningTwice` | apps/outrun_web.c:73-87 | the same with query and fragment |
| `Url.ParsedIsProper` | apps/outrun_web.c:26-50 | a parsed host is lower-case and well-formed, the port is 1 to 65535, the path begins with a slash |
| `Url.OriginParses` | apps/outrun_web.c:26-50 | scheme, host, port and path written out are parsed to the same address |
| `Url.PathReferenceKeepsOrigin` | apps/outrun_web.c:65-89 | a path reference keeps scheme, host and port of its base, and its path is in normal form up to the query |
| `Url.ResolveGivesAddresses` | apps/outrun_web.c:55-89 | whatever a reference resolves to parses |
| `Url.EmptyMerges` | apps/outrun_web.c:68-71 | an empty reference is merged to the path of the base before its query if and only if that path ends with a slash |
| `Url.EmptyReferenceIsBase` | apps/outrun_web.c:68-87 | an empty reference leads back to the path of the base if and only if that path is in normal form, ends with a slash and has no query |
| `Url.EmptyReferenceMissesBase` | apps/outrun_web.c:55-89 | from `http://a/b` the empty reference leads to `http://a/` |
| `Decimals.NumReadsBack` | apps/outrun_web.c:51-54 | a written number reads back as its decimal value |
| `UrlLaws.ReferenceMerges` | apps/outrun_web.c:68-71 | a reference with a slash in front replaces the path, one that begins with a question mark or a hash goes behind the last name, any other one behind the last slash |
| `UrlLaws.PathResolves` | apps/outrun_web.c:72-85 | a path of names, dots, double dots and empty segments resolves to the folder those lead to, going in at a name and out at a double dot but never above the root |
| `UrlLaws.DefaultPorts` | apps/outrun_web.c:30-45 | without a port, http means 80 and https 443 |
| `UrlLaws.NoAddress` | apps/outrun_web.c:28-32 | 512 bytes or more, a blank, control or high byte, a backslash, and any other scheme are refused |
| `UrlLaws.OtherReferences` | apps/outrun_web.c:57-63 | a full address is taken as it is, another scheme refused, and a reference with two slashes gets the scheme of the base |
| `UrlResolver.WebUrlParse` | apps/outrun_web.c:26-50 | the cursor loops compute the parse |
| `UrlResolver.Pop` | apps/outrun_web.c:79 | going back to the previous slash removes exactly the last segment |
| `UrlResolver.DropDots` | apps/outrun_web.c:74-87 | the loop over the fixed buffer computes the cleaned path, and gives up only when it fills the buffer |
| `UrlResolver.WebResolve` | apps/outrun_web.c:55-89 | `web_resolve` computes the resolution, with nothing exactly when the result is too long or illegal |
| `Dns.DnsName` | apps/outrun_web.c:633-644 | for every packet, pointer circles included, the walk ends, reads inside the packet and yields the name of the labels and pointers, at most 253 bytes, or refuses |
| `Dns.DnsQuery` | apps/outrun_web.c:623-632 | the query packet, or refusal exactly for a host that cannot be sent |
| `Dns.QueryReadsBack` | apps/outrun_web.c:623-644 | decoding the name in the query gives the host in lower case and stops just before the type field |
| `Dns.QueryAsks` | apps/outrun_web.c:623-632 | the bytes around the name: the number, the recursion flag, one question and nothing else, type A and class IN; labels have 1 to 63 bytes and the packet at most 512 |
| `Dns.PointerReads` | apps/outrun_web.c:636-643 | a pointer gives the name at 256*(h-192)+l and ends behind its two bytes |
| `Dns.LabelBeforePointer` | apps/outrun_web.c:636-643 | a label before a pointer goes before the name the pointer leads to |
| `Dns.NamesRefused` | apps/outrun_web.c:633-644 | a name of more than 253 bytes, a length byte that is neither a length up to 63 nor a pointer, and a place outside the packet are refused |
| `Dns.PointersAreFew` | apps/outrun_web.c:634-643 | the walk follows 127 pointers in a row and gives up behind them |
| `Dns.CircleIsNoName` | apps/outrun_web.c:634-643 | a pointer to itself is no name |
| `Calendar.YearStep` | apps/outrun_web.c:777-780 | the closed day count grows by the length of each year |
| `Calendar.GmTime` | apps/outrun_web.c:771-789 | refused exactly for negative seconds and from year 10000 on; otherwise all fields in range, and recomposing them gives the same second |
| `Calendar.DatesDiffer` | apps/outrun_web.c:771-789 | no two dates begin at the same second |
| `Calendar.WeekdaysFollow` | apps/outrun_web.c:771-789 | 1 January 1970 is a Thursday, and each day is the weekday behind that of the day before |
| `Calendar.MonthLengths` | apps/outrun_web.c:771-789 | 30 days have April, June, September and November, February 28 or 29, the others 31 |
| `Calendar.LeapYears` | apps/outrun_web.c:771-789 | every fourth year is a leap year, but of the full centuries every fourth |
| `Calendar.LastSecond` | apps/outrun_web.c:781 | the limit is 253402300800 |
| `SpscRing.SlotIsUnwrapped` | metal/cpp/ipc_ring.cpp:38-49 | slots do not feel the wrap of the 64-bit counters, because 4096 divides 2^64 |
| `SpscRing.DistanceIsUnwrapped` | metal/cpp/ipc_ring.cpp:36-47 | the wrapped 32-bit difference is the true distance |
| `SpscRing.WritesOutside` | metal/cpp/ipc_ring.cpp:33-41 | the producer writes only slots that hold no byte waiting to be popped, also with a stale head |
| `SpscRing.StepKeepsInv` | metal/cpp/ipc_ring.cpp:33-52 | every atomic step of either thread keeps the invariant, 0 <= tail - head <= CAP included |
| `SpscRing.RingIsFifo` | metal/cpp/ipc_ring.cpp:33-52 | in every interleaving with stale reads the bytes popped and waiting are, in order, the bytes pushed |
| `SpscRing.Ring.Push` | metal/cpp/ipc_ring.cpp:33-41 | as many bytes as there is room for join the queue |
| `SpscRing.Ring.Pop` | metal/cpp/ipc_ring.cpp:44-52 | as many bytes as asked for, or as there are, leave it; they stand from the returned slot on modulo the capacity, and as one slice behind the returned pointer if and only if slot and count do not pass the end |
| `SpscRing.PoppedStays` | metal/cpp/ipc_ring.cpp:33-52 | in every interleaving a popped byte keeps its slot until the producer writes the position a capacity further, and then the slot holds the byte of that position |
| `SpscRing.PopPastTheEnd` | metal/cpp/ipc_ring.cpp:33-52 | two bytes that stand in the last slot and the first |
| `SpscRing.Ring.Depth` | metal/cpp/ipc_ring.cpp:54-57 | without interference, the number of waiting bytes |
| `SpscRing.DepthOfTwoLoads` | metal/cpp/ipc_ring.cpp:54-57 | for a reader that loads the two counters in any two states of a run, in either order: when the difference is between 0 and the capacity, and that it then is the distance of the positions seen |
| `SpscRing.DepthCanWrap` | metal/cpp/ipc_ring.cpp:54-57 | a run in which the reader computes 2^64 - 1 |
| `Files.FindFree` | metal/kernel/files.c:161-169 | nothing exactly when every slot from `min` on is taken; otherwise a free slot, and exactly when it is the lowest one |
| `Files.InstallKeeps` | metal/kernel/files.c:171-183 | installing keeps every count exact, of descriptions and of pipe ends |
| `Files.ReleaseKeeps` | metal/kernel/files.c:213-237 | releasing keeps every count exact, the freed description and the freed pipe included |
| `Files.NothingLeftOver` | metal/kernel/files.c:88-237 | at every moment of every run a description in use and named by no slot is one that was claimed and is neither installed nor given up yet |
| `Files.ReleaseFreesPipe` | metal/kernel/files.c:217-237 | a release frees the pipe of the end it drops if and only if no slot names either end any more, and no other pipe (kernel64.c:11310 does the dropping) |
| `Files.GrowKeeps` | metal/kernel/files.c:99-117 | committing a larger table keeps every count exact |
| `Files.AttachKeepsIff` | metal/kernel/files.c:35-40 | at kernel64.c:11802 the two counts of a new pipe are set to 1 without a look at the slots; they are exact, and all others stay so, if and only if each end is a description named by one slot |
| `Files.NextKeepsIff` | metal/kernel/files.c:88-237 | a section puts some count out if and only if it makes a pipe of anything else |
| `Files.RunKeepsCounted` | metal/kernel/files.c:88-237 | in every interleaving of lock sections each description counts the slots naming it and each table its open slots |
| `Files.RunKeepsAccounted` | metal/kernel/files.c:88-237 | so does each pipe end the slots naming it, in every interleaving in which pipes are made of descriptions named by one slot each |
| `Files.ForkPutsReadersOut` | metal/kernel/files.c:35-40 | a run that is not one of those: a fork copies the read end before the pipe is made, and once the child closes it the pipe counts no reader while a slot of the parent names its read end |
| `Files.ClaimStaysPrivate` | metal/kernel/files.c:128-141 | a description just claimed stays unnamed through any sections that copy slots, so the undo at kernel64.c:11625, which tests nothing, leaves every count exact |
| `Files.ReservedStays` | metal/kernel/files.c:35-40 | a pipe reserved at kernel64.c:11766 stays without references until its maker attaches it or gives it up |
| `Files.EntriesSurvive` | metal/kernel/files.c:84-117 | growth interleaved with anything loses no entry: a slot keeps its description until it is released |
| `Files.HintsStayTight` | metal/kernel/files.c:161-169 | if every installation takes what a search from 0 yields, no slot below the hint is free and the search yields the lowest |
| `Files.InstallKeepsTightIff` | metal/kernel/files.c:161-183 | one installation keeps a tight hint tight if and only if it takes what a search from 0 yields |
| `Files.HintCanSkipFreeSlots` | metal/kernel/files.c:161-183 | after an installation with a higher minimum that fails: a concrete table |
| `Files.ForkSkipsFreeSlots` | metal/kernel/files.c:161-183 | after a fork (kernel64.c:19531) of a parent with a closed slot that fails: the search of the child yields 3 while 1 is free |
| `Descriptors.Kernel.constructor` | metal/kernel/files.c:70-74 | the tables of `files_init` are accounted |
| `Descriptors.Kernel.NewLocked` | metal/kernel/files.c:128-141 | the first unused description, or none exactly when all are in use |
| `Descriptors.Kernel.InstallLocked` | metal/kernel/files.c:174-183 | the fields change as the install section says |
| `Descriptors.Kernel.LookupLocked` | metal/kernel/files.c:185-191 | none exactly for a number outside the table or a free slot; the use check never decides |
| `Descriptors.Kernel.UnrefLocked` | metal/kernel/files.c:225-226 | a pipe end loses a reference, and the pipe goes with the last one of both ends |
| `Descriptors.Kernel.ReleaseLocked` | metal/kernel/files.c:217-237 | an open slot is released and any other number changes nothing; the answer is true, and the description is no longer in use, exactly when no slot of any process names it any more |
| `Descriptors.Kernel.Expand` | metal/kernel/files.c:88-117 | the table ends with at least the wanted slots, its size doubled no further than needed, unless another thread was faster |
| `Descriptors.Kernel.AllocInstall` | metal/kernel/files.c:196-211 | alone and with memory it fails exactly when the description is unused or no number from `min` to 255 is left; under any interference a returned number was free just then, and a failure had a moment of refusal |
| `Terminal.FeedSplits` | apps/outrun_term.c:86-120 | how the stream is split into reads does not matter |
| `Terminal.FeedGrows` | apps/outrun_term.c:37-120 | no stream changes a line that has left the screen, and a scrolled-back window stays on its lines until the history limit, then at the oldest line |
| `TerminalLaws.SequenceActs` | apps/outrun_term.c:86-112 | ESC [, up to eight decimal parameters and a final byte act as that control sequence with those parameters |
| `TerminalLaws.CursorMoves` | apps/outrun_term.c:46-54 | ESC [ n A, B, C, D and G: up, down, right and left by n and to column n, held at the edges; a missing number counts as 1 |
| `TerminalLaws.CursorGoesTo` | apps/outrun_term.c:55-57 | ESC [ r ; c H and f go to row r and column c counted from 1, held at the edges; a missing number counts as 1 |
| `TerminalLaws.PlaceIsRestored` | apps/outrun_term.c:75-98 | ESC 7 or ESC [ s, any cursor movements, ESC 8 or ESC [ u: the cursor is back and no cell has changed |
| `TerminalLaws.ColoursTheNextCell` | apps/outrun_term.c:77-85 | after ESC [ ... m the next cell written has the colours that the parameters, taken in order, give |
| `TerminalLaws.ErasesCells` | apps/outrun_term.c:58-74 | ESC [ n J and ESC [ n K, cell by cell |
| `TerminalLaws.TooManyParams` | apps/outrun_term.c:102-108 | a sequence with a ninth parameter does nothing |
| `TerminalLaws.PassesOver` | apps/outrun_term.c:99-112 | a sequence with a byte that does not belong does nothing, a title is skipped up to the bell |
| `TerminalLaws.ControlBytes` | apps/outrun_term.c:113-117 | carriage return, backspace and tab move within the row, the other control bytes do nothing |
| `TerminalLaws.LineFeeds` | apps/outrun_term.c:37-44 | a line feed goes down one row, or on the last row adds one blank line |
| `Terminal.ErasesScreen` | apps/outrun_term.c:59-69 | `J` blanks exactly the cells from the cursor on, up to and with it, or all, in reading order |
| `Terminal.ErasesLine` | apps/outrun_term.c:70-73 | `K` does so within the row of the cursor |
| `Terminal.ScrollsOnlyInText` | apps/outrun_term.c:37-120 | only a line feed, or text past a full line, on the last row scrolls, by one line |
| `Terminal.TextWraps` | apps/outrun_term.c:117-118 | text fills lines of 72 cells one after the other, the cursor waiting behind a full line |
| `Terminal.OutputAppears` | apps/outrun_term.c:86-120 | lines of output are shown line for line and are still there after any further output |
| `TerminalRing.ScrollKeeps` | apps/outrun_term.c:37-44 | moving the head is appending a line to the list and forgetting what exceeds the history |
| `TerminalRing.Tab.constructor` | apps/outrun_term.c:28-36 | a fresh tab is an empty terminal |
| `TerminalRing.Tab.LineFeed` | apps/outrun_term.c:37-44 | `term_down` on the ring is the line feed of the list |
| `TerminalRing.Tab.ClearLine` | apps/outrun_term.c:25-27 | clearing cells of a row |
| `TerminalRing.Tab.ControlSequence` | apps/outrun_term.c:46-85 | `term_csi` on the ring is the control sequence on the list |
| `TerminalRing.Tab.FeedBytes` | apps/outrun_term.c:86-120 | after any byte stream the 1024-line ring shows the screen and the last 1000 scrolled lines of the terminal that keeps all lines |
| `TerminalRing.Tab.Scroll` | apps/outrun_term.c:121-127 | the window moves by the lines asked for, held between the screen and the oldest line kept |
| `TerminalRing.Tab.Shown` | apps/outrun_term.c:134-140 | the ring index used for showing and copying is the line of the window |
| `Powers.PowerOfTwoTest` | metal/crypto/scrypt.c:130 | the test on N accepts exactly the powers of two |
| `Scrypt.IntegerifyLow` | metal/crypto/scrypt.c:94-111 | the masked low word is the last block, as a little-endian integer, modulo any power of two up to 2^32 |
| `Scrypt.WordsFlip` | metal/crypto/scrypt.c:85 | a word mixed with another differs from it in exactly the bits the other has |
| `Scrypt.BlockMixOfFour` | metal/crypto/scrypt.c:80-92 | BlockMix of four blocks written out: which block is mixed into which, and the even results first |
| `Scrypt.RoMixOfTwo` | metal/crypto/scrypt.c:104-116 | ROMix with two table entries written out: the entries, and which one the state asks for |
| `ScryptMix.MixBlocks` | metal/crypto/scrypt.c:80-92 | `block_mix` in place is BlockMix of section 4 of RFC 7914, even blocks first |
| `ScryptMix.FillTable` | metal/crypto/scrypt.c:104-109 | V[i] is BlockMix iterated i times |
| `ScryptMix.WalkTable` | metal/crypto/scrypt.c:110-116 | the second loop walks through the table as section 5 of RFC 7914 says |
| `ScryptMix.RoMixInPlace` | metal/crypto/scrypt.c:104-116 | `ro_mix` computes ROMix, and writes nothing outside B, V and XY |
| `ScryptMix.ProductsAreRightIff` | metal/crypto/scrypt.c:80-151 | no 32-bit product of `block_mix`, `ro_mix` and `scrypt` is cut off if and only if 128r, 128rp and the last table offset (N-1)*32r stay below 2^32 |
| `ScryptKdf.AtIsFlat` | metal/crypto/scrypt.c:140-148 | a state stands in the working area if and only if its words do |
| `ScryptKdf.BytesReadBack` | metal/crypto/scrypt.c:145-150 | bytes stored as words are read back the same |
| `ScryptKdf.DeriveKey` | metal/crypto/scrypt.c:125-152 | for sizes whose products fit, or that are refused: refused exactly for bad parameters or too small an area, and else the key of section 6 of RFC 7914 |
| `ScryptKdf.WhatIsAsked` | metal/crypto/scrypt.c:145-151 | PBKDF2 is asked twice, both times with the password: for the state with the salt given, then for the key with the mixed state as salt |
| `ScryptKdf.StatesAreMixed` | metal/crypto/scrypt.c:145-149 | each of the p states is mixed on its own and keeps its place |
| `ScryptKdf.WordsAreLittle` | metal/crypto/scrypt.c:145-149 | the bytes of PBKDF2 are taken as words with the low byte first |
| `ScryptKdf.ParametersTaken` | metal/crypto/scrypt.c:130-132 | taken are a power of two for N, and r, p and a key length of at least 1 |
| `ScryptKdf.GuardIsRightIff` | metal/crypto/scrypt.c:119-138 | the size test lets no area pass that is too small if and only if the size is below 2^64 |
| `ScryptKdf.SizesFit` | metal/crypto/scrypt.c:119-151 | where the products fit, the size test is exact and B, V and XY lie side by side inside any area that passes it |
| `ScryptKdf.StateOfNoBytes` | metal/crypto/scrypt.c:104-149 | N = 2, r = 2^25, p = 1: all offsets are right, yet a state is copied as 0 bytes and PBKDF2 is asked for none |
| `ScryptKdf.StateOfNoWords` | metal/crypto/scrypt.c:105 | r = 2^27: a state has 0 words |
| `ScryptKdf.EntriesCollide` | metal/crypto/scrypt.c:107-112 | r = 1 and more than 2^27 entries: entry 2^27 is stored over entry 0 |
| `ScryptKdf.SizeOfNothing` | metal/crypto/scrypt.c:119-138 | N = 2^25, r = 2^31, p = 2^25 - 2: the size is 2^64, and an area of any size passes |
| `Bitmap.StrideHolds` | apps/bmp.h:23-25 | a row holds its pixels and at most three bytes more |
| `Bitmap.BmpHeader` | apps/bmp.h:49-67 | refused exactly for an empty or too large picture, else the 54 bytes of the header |
| `Bitmap.HeaderBytes` | apps/bmp.h:49-67 | where each field of a written header stands, as little-endian bytes |
| `Bitmap.BmpRow` | apps/bmp.h:71-81 | the pixels in blue, green, red order and zeros up to the stride; no other byte changes |
| `Bitmap.PixelIsInside` | apps/bmp.h:84-120 | whatever a file that parses contains, every pixel read lies inside it |
| `Bitmap.FileIsRead` | apps/bmp.h:90-110 | a file is accepted if and only if its bytes say: the two letters, a header of 40 bytes or more, 24 bits uncompressed, sides from 1 to 32767, and the rows inside the file |
| `Capture.StripsTile` | apps/outrun_snap.c:104-117 | for every height and strip height the strips tile the rows, from the bottom up, none empty |
| `Capture.HeaderReads` | apps/bmp.h:90-110 | a written header parses to its geometry if and only if the height is within the reader's limit |
| `Capture.EncodeStrip` | apps/outrun_snap.c:226-234 | a strip adds exactly its rows to the file, in file order |
| `Capture.SnapCapture` | apps/outrun_snap.c:207-235 | the result codes exactly, and on success the file is the header and every row of the rectangle once |
| `Capture.ValidIsInside` | apps/outrun_snap.c:207-212 | a rectangle is taken if and only if it has pixels and all of them are on the screen |
| `Capture.CaptureReadsBack` | apps/bmp.h:90-120 | the captured file parses with the geometry of the rectangle and each pixel read is the low 24 bits of the screen pixel |
| `Division.UDivTi3` | apps/web_libc.c:113-122 | q * b + r = a with r < b; no shift loses a bit; division by zero gives 0 |

## Left out

- ScryptKdf.DeriveKey: nothing is said of a request that passes the size test although its 32-bit products are cut off, past the inputs shown in `ScryptKdf` and `ScryptMix.ProductsAreRightIff`. Salsa20/8 and PBKDF2 are arbitrary functions of the right lengths.
- BuddyZone.Zone.FreePages: of a page that is neither free nor owned as a block by its caller (the inside of a held block, or an order it was not allocated with), only the guards are stated.
- BuddyBoot.MmInit: ranges that share a page above the identity map are excluded, though `mm_note_usable` records them; `BuddyBoot.MmInitOverlapping` follows them up to the first page released twice. The page tables of the physmap are not modelled, nor the bump allocator that holds the page array.
- BuddyZone.Zone.AllocPages: clearing of the pages under GFP_ZERO is not modelled; page contents are not part of the model.
- Descriptors.Kernel.AllocInstall: process slots are valid; the permanently empty table for an invalid slot, on which the doubling loop would not end, is outside the model. With interference nothing is promised about succeeding: three rounds can all find a full table.
- Descriptors.Kernel.ReleaseLocked: redirection entries and the resources behind a description (epoll, sockets, pipe buffers) are not modelled; a pipe is its two counts and the last drop frees the description.
- SpscRing.DepthOfTwoLoads: for fewer than 2^64 - 4096 bytes passing between the two loads.
- Files.AttachKeepsIff: for a pipe that is reserved and has no references yet, which `Files.ReservedStays` says of a pipe in the hands of its maker.
- SpscRing.Ring.Pop: nothing is said of what is read behind the end of the ring through the returned pointer, where the popped bytes are not one slice.
- Editor.Editor.Key: cursor movement, the filename field, the overwrite question as a dialogue and status texts are not modelled beyond what save and open need.
- TerminalRing.Tab.FeedBytes: selection, copying to a buffer, command recall, tabs and the clear command are not modelled.
- Capture.SnapCapture: ends with the finished file in memory; writing it in chunks, naming it and the presets are not modelled. The header cannot be refused for a rectangle that passed the earlier checks, so that result code does not occur.
- Capture.CaptureReadsBack: for heights within the limit of the reader; `Capture.HeaderReads` says what happens beyond it.
- Dns.DnsName: the answer section, CNAME chains and addresses of a reply are not modelled.
- Rendering, fonts, windows, event loops, system calls, TLS and sockets: input and output or foreign code.
- HTML layout, CSS colours and sizes, image pool, history and bookmarks of the browser: easy or without an exact law.
- Bookmarks, auto-indent and highlighting of the code editor: easy.
- IPv6 text addresses, memory and string functions of the browser's small C library other than memmove and the division.
- kernel64.c apart from the making, counting and giving up of descriptions and pipes, and everything known only from the documentation (scheduler, file system, IOMMU): not part of this model.
- Event counters, statistics and log output of the modelled functions.
