# Verified models of the course operating system, shell and libraries

This project models the parts of the repository whose correctness is least
obvious from their code, and proves what they promise for every input, run or
reachable state.

* **Page tables** (`Paging`, `PageWrites`, `Phys`, `Vmiter`, `KernelTable`,
  `Ptiter`, `MemUsage`).  Physical memory is a map from page frames to 512-entry tables;
  an address is a number below 2^64, so the mask and shift tests become
  equalities of quotients.  `Paging.Translate` is the reference meaning of an
  address, `Paging.Fresh` the cursor that a walk from the root gives.  The
  iterators are classes over that memory; reading a page that is not there does
  not verify, so the traversal that frees tables as it goes is safe because it
  verifies.  `Paging.Shaped` is the tree invariant, and
  `Ptiter.ShapedHasNoSharing` with `Ptiter.NoSharingIsShaped` show that it says
  no more than that no table page serves two positions.
* **The shell parser** (`ShellTokens`, `ShellRegions`, `ShellTheorems`,
  `ShellNesting`, `ShellWalk`, `ShellText`, `ShellQuoting`).  Pointers are indices into the line.
  `ShellTokens.Tokens` is the flat token stream; `ShellNesting.FlatLine` splits
  it three times, and the nested parsers are compared with that.
* **The initialisation guard and the scheduler** (`Guard`, `Scheduler`): a state
  machine over the atomic steps of any number of threads; a class whose
  `Schedule` picks the next process, and runs of its calls.
* **Library code** (`CharConv`, `Escape`, `Console`): number conversion, the
  escape-sequence buffer, and the console as a window onto an unbounded tape.
* **File copy and allocator** (`Stride`, `StrideTheorems`, `Derp`), with division
  facts in `Arith` and shared definitions in `Wrappers`.

Where a promise fails, the code is kept as it is and the exact condition is
proved:

* Unmapping (permission 0) inside a large page returns success and changes
  nothing, although the interface says that success changes the mapping: success
  changes it exactly when the permission is not 0, or the range of the cursor is
  a page, or nothing was mapped at the address (`Vmiter.Vmiter.TryMap`; a table
  with a large page: `Vmiter.LargePageStays`).
* At a non-canonical address, or when done, a non-zero permission without P, W
  and U passes the assertions of `try_map`, which then stores into a constant
  (`Vmiter.Vmiter.TryMap`; `KernelTable.StrayStoreHappens`).
* The nested walk over a command line equals the flat token stream exactly when
  no command ends in a word whose last character is a quoted or escaped blank,
  unless a comment follows (`ShellNesting.NestedIsFlat`; a line on which they
  differ: `ShellNesting.EscapedBlankIsLost`).
* `str()` reads past a token, and past the line, exactly when the token ends a
  region that was trimmed right after a backslash of a quoted word, as in `"a"\ `
  (`ShellText.TextDefined`, `ShellText.WalkedText`;
  `ShellText.EscapedBlankOverruns`).
* The console shows the input minus its complete colour sequences exactly when
  no unfinished sequence is broken by the ESC of a complete one
  (`Escape.StripVersusOutput`; `Escape.ClashHappens`).
* The strided copy is a permutation of the input exactly when the file is empty,
  or the initial offset is 0 and the file is no longer than the stride or the
  block, or the block size divides the stride
  (`StrideTheorems.StrideIsPermutation`).
* `m61_malloc` keeps the blocks a tiling exactly when the block it splits is not
  an exact fit (`Derp.MallocTiles`; `Derp.ExactFitHappens`), and its counters
  exact when it does not overwrite an allocated block's entry
  (`Derp.MallocCounts`; `Derp.CountersLost`).  What follows can be addresses past the buffer
  (`Derp.PastTheBuffer`).
* The page search of `kalloc` examines every page for every odd increment, and
  for no even one (`Phys.ProbeHits`, `Phys.EvenMisses`).

## Model

| member | source | states |
|---|---|---|
| `Paging.RestrictIsMask` | pset3/k-vmiter.cc:8 | the mask expression clears, of all flag bits, only P, W and U that the entry lacks |
| `Paging.WalkVia` | pset3/k-vmiter.cc:6-19 | two addresses under the same table of the walk: a walk to the second from the root is the walk from that table on |
| `Paging.WalkPa` | pset3/k-vmiter.hh:212-222 | the entry where the walk of `down` stops gives the physical address of the recursive translation, or shows that there is none |
| `Paging.WalkPerm` | pset3/k-vmiter.hh:231-236 | the rights accumulated going down, applied to the last entry, are the rights that the recursive translation computes going up |
| `Paging.FreshMeaning` | pset3/k-vmiter.hh:179-236 | the state of a new cursor determines rights and physical address of its address exactly as `Translate` does, for all 64-bit addresses |
| `Paging.RangeSameCursor` | pset3/k-vmiter.hh:199-208 | all addresses up to `last_va()` have the same entry, level and inherited rights |
| `Paging.RangeMeaning` | pset3/k-vmiter.hh:25-29 | (it + N).pa() == it.pa() + N with equal rights inside a present range; nothing is mapped inside an absent one |
| `Paging.RangeEndBounds` | pset3/k-vmiter.hh:199-208 | the range ends after its address, at a page boundary, at 2^64 at the latest |
| `Paging.RangeEndIsNext` | pset3/k-vmiter.hh:196-208 | `(va \| lbits_mask(lbits)) + 1` is the next multiple of the span of the level |
| `Paging.RangeMaximal` | pset3/k-vmiter.hh:199-208 | ranges are maximal: the address after one, short of 2^64, has another level or another index, whatever the tables hold |
| `Paging.CanonicalBits` | pset3/k-vmiter.cc:31-34 | the canonical addresses are those whose top 17 bits are equal |
| `Paging.LeafBaseIs` | pset3/k-vmiter.hh:213-218 | the base of a page is its frame, and that of a large page does not depend on bit 12 of its entry |
| `Phys.Machine.KallocFrom` | pset3/kernel.cc:117-148 | for any start page and odd increment, fails iff the size is too large or no allocatable page has refcount 0; else takes the first such page in the order of the search, changes its refcount alone and fills it with 0xCC |
| `Phys.Machine.Kalloc` | pset3/kernel.cc:117-148 | the same for start 0 and increment 1: the lowest such page |
| `Phys.OddReaches` | pset3/kernel.cc:122-145 | an odd increment reaches every residue modulo a power of two within that many steps |
| `Phys.ProbeHits` | pset3/kernel.cc:135-145 | every page is examined within NPAGES tries |
| `Phys.EvenMisses` | pset3/kernel.cc:131-145 | an even increment never examines a page of the other parity |
| `Phys.NeverHandedOut` | pset3/k-hardware.cc:339-356 | `kalloc` never hands out page 0, device and console memory, the kernel image or its stack page |
| `Phys.HandedOutOtherwise` | pset3/k-hardware.cc:339-356 | and every other free page of physical memory can be handed out |
| `Phys.PoisonBytes` | pset3/kernel.cc:141 | the words of a page handed out consist of 0xCC bytes |
| `Phys.RefcountBalance` | pset3/kernel.cc:135-143 | in any such run, also through the increments of process set-up and page allocation (lines 184-185, 203-204, 359-360), the count of a page is the references taken less those dropped |
| `Phys.NoPageHandedOutTwice` | pset3/kernel.cc:135-143 | in any run of allocations, claims and releases, when a page is handed out the releases of it so far equal its initial count plus all allocations and claims of it: no reference is left |
| `PageWrites.LinkShaped` | pset3/k-vmiter.cc:75-77 | linking an unused cleared page below an absent entry keeps the tree shape |
| `PageWrites.LinkAccess` | pset3/k-vmiter.cc:75-77 | and changes the translation of no address |
| `PageWrites.LinkStep` | pset3/k-vmiter.cc:69-79 | at the cursor of an address: translation unchanged everywhere, tree shape kept |
| `PageWrites.LeafElsewhere` | pset3/k-vmiter.cc:81-84 | storing a leaf changes the translation of no address outside its page |
| `PageWrites.SetStep` | pset3/k-vmiter.cc:81-84 | storing a leaf remaps exactly its page, and leaves its cursor valid |
| `PageWrites.OutsideStep` | pset3/k-vmiter.cc:71-77 | writes to pages outside the tree change no translation |
| `Vmiter.Shortcut` | pset3/k-vmiter.cc:26-30 | when the same-table test passes, the target is canonical and a walk from the cached table is the full walk from the root |
| `Vmiter.Vmiter.constructor` | pset3/k-vmiter.hh:179-183 | a new iterator has the cursor of a full walk |
| `Vmiter.Vmiter.Down` | pset3/k-vmiter.cc:6-19 | the loop computes the recursive walk from the current table, reads only table pages and does not panic |
| `Vmiter.Vmiter.FindImpl` | pset3/k-vmiter.cc:21-42 | whichever branch is taken, the cursor is that of a full walk to the target, or done iff stepping reaches 0 |
| `Vmiter.Vmiter.Find` | pset3/k-vmiter.hh:252-257 | moves to the address with the cursor of a full walk |
| `Vmiter.Vmiter.Advance` | pset3/k-vmiter.hh:258-275 | moves by a positive or negative distance modulo 2^64 with the cursor of a full walk |
| `Vmiter.Vmiter.Next` | pset3/k-vmiter.cc:44-50 | goes to the next page, or past the absent span to another entry, with the cursor of a full walk; done at 2^64 |
| `Vmiter.Vmiter.NextRange` | pset3/k-vmiter.hh:282-284 | goes to the end of the range and so to another entry, with the cursor of a full walk; done at 2^64 |
| `Vmiter.Vmiter.Reports` | pset3/k-vmiter.hh:212-236 | `perm()` and `pa()` of such a cursor are the rights and physical address of the reference translation |
| `Vmiter.Replay` | pset3/k-vmiter.cc:21-50 | after every run of `find`, `+=`, `-=`, `next` and `next_range`, the iterator is at the address the run leads to, equal to one built there, and reports the reference translation |
| `Vmiter.NextSkipsOnlyAbsent` | pset3/k-vmiter.hh:77-79 | no address that `next` passes over, beyond the current page, is mapped |
| `Vmiter.NextBounds` | pset3/k-vmiter.cc:44-50 | `next` makes progress to a page boundary, at most 2^64 |
| `Vmiter.NextIsNew` | pset3/k-vmiter.hh:282-284 | in a tree, the address after a range has another page-table entry |
| `Vmiter.BlockEndIsNext` | pset3/k-vmiter.cc:44-50 | the target of `next` is the next multiple of its step, also in the non-canonical gap |
| `Vmiter.AllRanges` | pset3/k-vmiter.hh:199-208 | from address 0, `next_range` until `done()` cuts the whole 64-bit space into consecutive ranges, each of constant rights and linear mapping, and ends |
| `Vmiter.ByteAndRange` | pset3/k-vmiter.cc:99-106 | the AND over the bytes of a range needs one of them |
| `Vmiter.Vmiter.RangePerm` | pset3/k-vmiter.cc:89-97 | equals the bitwise AND of the rights of every byte of [va, va + sz): all ones for 0 bytes, 0 with an absent, non-canonical or wrapped byte |
| `Vmiter.Vmiter.RangePermImpl` | pset3/k-vmiter.cc:99-106 | the same for the bytes from the cursor on, ANDed with what is given |
| `Vmiter.FlagsWritten` | pset3/k-vmiter.cc:56-67 | the assertions make the rights granted by the stored word those asked for |
| `Vmiter.Vmiter.LinkTable` | pset3/k-vmiter.cc:69-79 | one turn of the loop: links one cleared page, gives it reference count 1 and changes no other count, changes no mapping, steps down one level, keeps the cursor that of a full walk; fails only when no page is left |
| `Vmiter.Vmiter.LinkTables` | pset3/k-vmiter.cc:69-79 | the whole loop at a canonical address ends at the level of pages having changed no mapping, or fails with no page left; the new tables have count 1 and no other count changes |
| `Vmiter.Vmiter.StrayTable` | pset3/k-vmiter.cc:69-77 | where no table serves the address, the loop allocates and clears a page outside the tree before its stray store; it does so iff a page is left |
| `Vmiter.Vmiter.TryMap` | pset3/k-vmiter.cc:52-86 | success remaps exactly the page at the address to (pa, perm), except iff perm is 0 inside a large page; failure changes no mapping and means no page is left; a store into the constant `zero_pe` happens iff no table serves the address, perm is non-zero (then without P, W and U) and a page is left; in every case the tree shape, the other pages' contents, the reference counts of all but the new tables and the cursor's agreement with a full walk are kept |
| `Vmiter.LargePageStays` | pset3/k-vmiter.cc:81-85 | a well-formed table with a large page, at which unmapping does not meet its promise |
| `KernelTable.StaticApart` | pset3/k-hardware.cc:90-127 | the static pages of the kernel table form a tree whose pages `kalloc` never hands out, whatever their reference counts: the table meets what `try_map` needs |
| `KernelTable.StaticMeans` | pset3/k-hardware.cc:107-127 | before any call of `map`, the table maps 1 to 4 GiB to themselves for the kernel and nothing else, for all 64-bit addresses |
| `KernelTable.MapPage` | pset3/kernel.cc:64-74 | one `try_map` of a page to itself succeeds and extends the identity by exactly that page |
| `KernelTable.MapPhysical` | pset3/kernel.cc:64-74 | the loop of `kernel_start`, on any table that serves the low two megabytes: no call fails, [0x1000, 0x200000) maps to itself with P, W and U, page 0 is absent, every other address is as before |
| `KernelTable.InitKernelMemory` | pset3/k-hardware.cc:107-137 | from the static pages, the loop with one iterator ends with a table whose meaning is given in closed form for all addresses |
| `KernelTable.KernelStart` | pset3/kernel.cc:52-74 | after both loops, physical memory except page 0 maps to itself for everyone, 1 to 4 GiB for the kernel, and nothing else is mapped |
| `KernelTable.StrayStoreHappens` | pset3/k-vmiter.cc:65-77 | on the kernel table, at the first non-canonical address, asking for only an operating-system bit leads to the stray store |
| `Ptiter.Ptiter.constructor` | pset3/k-vmiter.cc:109-112 | starts at the first page of the post-order |
| `Ptiter.Ptiter.Down` | pset3/k-vmiter.cc:114-143 | comes to the first page of the visits left, reading only pages not visited yet, despite restarting from the root; ends |
| `Ptiter.Ptiter.Next` | pset3/k-vmiter.hh:335-337 | goes from one page of the post-order to the next, with every visited page possibly gone from memory |
| `Ptiter.MidAdvance` | pset3/k-vmiter.cc:125-140 | stepping right, crossing the canonical gap and restarting towards the parent each lose and gain no visit |
| `Ptiter.VisitedOnce` | pset3/k-vmiter.hh:130-139 | no page comes twice and the root never |
| `Ptiter.VisitsExactly` | pset3/k-vmiter.hh:147-149 | the pages visited are exactly the non-root table pages |
| `Ptiter.ChildrenFirst` | pset3/k-vmiter.hh:130-139 | every table comes after each of its child tables |
| `Ptiter.FreeLowTables` | pset3/k-vmiter.hh:130-139 | the documented loop, freeing each page as it is visited, never reads a freed page and frees exactly the low half's table pages and the root |
| `Ptiter.AllTables` | pset3/k-memviewer.cc:89-91 | run to `done()`, the iterator yields the whole post-order |
| `Ptiter.ShapedHasNoSharing` | pset3/k-vmiter.hh:130-139 | a tree shape means no table page serves two positions |
| `Ptiter.NoSharingIsShaped` | pset3/k-vmiter.hh:130-139 | and if none does, there is a tree shape |
| `MemUsage.Mark` | pset3/k-memviewer.cc:62-66 | adds the flags to the page of the address, if tracked, and to no other |
| `MemUsage.FlagsApart` | pset3/k-memviewer.cc:21-34 | the flags of pids 1 to 28 are distinct and apart from the kernel, user and non-identity flags |
| `MemUsage.PageHits` | pset3/k-memviewer.cc:110-116 | a mapped page, even inside a large page, holds one physical page |
| `MemUsage.AddedPage` | pset3/k-memviewer.cc:110-117 | a user page adds exactly its marks, to one physical page |
| `MemUsage.AddedRange` | pset3/k-memviewer.cc:118-120 | a range without user access adds no marks and ends at the low half's end at the latest |
| `MemUsage.MarkProcess` | pset3/k-memviewer.cc:110-121 | afterwards a tracked page has gained the user and process flags iff a user-accessible low address maps into it, and the non-identity flag iff one does at another address |
| `ShellTokens.Tokenizer.Advance` | pset4/helpers.cc:36-115 | moves to the next token, whose kind is that of its characters and whose end is where it should be |
| `ShellTokens.ReadToken` | pset4/helpers.cc:47-115 | the branches and loops read the token of the recursive specification |
| `ShellTokens.NextToken` | pset4/helpers.cc:36-115 | a token is empty iff it is EOL iff it is at the end, and `TYPE_OTHER` does not occur |
| `ShellTokens.KindIsText` | pset4/helpers.cc:51-114 | for every region, the kind of a token is determined by its characters: `;`, `&`, `\|`, `&&`, `\|\|`, `(`, `)`, digits with an arrow and its tail, or else a word |
| `ShellTokens.TokenEndsWell` | pset4/helpers.cc:51-114 | operators and redirections are as long as they can be, and a word goes on to a blank or special character |
| `ShellTokens.SkipMeans` | pset4/helpers.cc:15-24 | before a token only blanks are skipped; there is no further token iff only blanks or a comment follow |
| `ShellTokens.BlankCharacters` | pset4/helpers.cc:16 | which characters are blanks |
| `ShellTokens.Tokenizer.Str` | pset4/helpers.cc:117-138 | returns the token's text, which the quoting round trips determine; on a token of a NUL-free line its loop runs past the token iff the region splits an escape at its end |
| `ShellText.TextDefined` | pset4/helpers.cc:117-138 | for every region of a NUL-free line, `str()` stops exactly at the end of a token unless the region ends, before the end of the line, at an unescaped backslash outside single quotes of a quoted word; the token is then the last of the region |
| `ShellTokens.OverrunIff` | pset4/helpers.cc:98-136 | the loops of `operator++` and `str()` take the same steps over a word except at such a backslash |
| `ShellText.TrimmedText` | pset4/helpers.cc:117-138 | a flat token always has a text, and keeps one when trimmed iff trimming does not cut an escape |
| `ShellText.CommandText` | pset4/helpers.cc:117-245 | of the words of a walked command only the last can be without a text |
| `ShellText.WalkedText` | pset4/helpers.cc:117-245 | `str()` is defined on every token of the nested walk of a NUL-free line iff no command ends in a quoted word with an escaped blank last, unless a comment follows |
| `ShellText.CleanIsUncut` | pset4/helpers.cc:226-228 | which holds on every line whose nested walk is the flat split |
| `ShellText.EscapedBlankOverruns` | pset4/helpers.cc:117-138 | a line whose only word `str()` overruns |
| `ShellText.EscapeRoundTrip` | pset4/helpers.cc:36-138 | non-empty NUL-free words, each character escaped, joined by blanks, tokenize to exactly these words |
| `ShellQuoting.QuotingRoundTrip` | pset4/helpers.cc:94-138 | any word put together from bare, single-quoted and double-quoted parts, with escapes, in any region of any line, is one token whose `str()` is what the parts hold |
| `ShellQuoting.OpenQuoteRoundTrip` | pset4/helpers.cc:94-138 | the same when the last quotation is not closed: the word goes on to the end of the region |
| `ShellRegions.Parser.constructor` | pset4/helpers.cc:170-173 | a region starts after its leading blanks, or at its end when only a comment is left |
| `ShellRegions.Parser.NextOperator` | pset4/helpers.cc:175-178 | `next_op` is the kind of the token after the region |
| `ShellRegions.Parser.FirstDelimited` | pset4/helpers.cc:221-230 | delimits the first sub-region of the specification |
| `ShellRegions.Parser.NextDelimited` | pset4/helpers.cc:232-245 | moves to the next sub-region of the specification |
| `ShellRegions.ScanAndTrim` | pset4/helpers.cc:222-229 | the two loops find the first delimiter and drop exactly the blanks before it |
| `ShellRegions.TrimBack` | pset4/helpers.cc:226-228 | drops blanks only, and all of them |
| `ShellTheorems.TokenKeep` | pset4/helpers.cc:36-115 | a token is read the same in a shorter region that contains it |
| `ShellTheorems.BlankEndsWord` | pset4/helpers.cc:226-228 | only a word can end in a blank |
| `ShellTheorems.TrimChanges` | pset4/helpers.cc:226-228 | trimming changes a token iff its last blank is exposed, keeps its kind, and is idempotent |
| `ShellTheorems.CutStream` | pset4/helpers.cc:221-230 | tokenizing a trimmed region gives the tokens before the delimiter, the last one trimmed |
| `ShellTheorems.RegionShows` | pset4/helpers.cc:175-245 | a region's tokens and `next_op` are those of the flat stream up to and at the first delimiter |
| `ShellTheorems.Progress` | pset4/helpers.cc:232-245 | `++` moves strictly forward until `end()` |
| `ShellTheorems.WalkIsGroups` | pset4/helpers.cc:221-245 | walking one level yields the token stream split at its delimiters, trimmed |
| `ShellNesting.GroupsOfCut` | pset4/helpers.cc:221-245 | trimming before a split makes no difference to trimming after it |
| `ShellNesting.FlatLineIs` | pset4/helpers.cc:158-160 | in the flat split, conditionals end in `;` or `&`, pipelines in `&&` or `\|\|`, commands in `\|`, only the last of each in nothing; none of these is left in a command; and the kinds of all tokens can be read off in order |
| `ShellNesting.FlatLineKeeps` | pset4/helpers.cc:158-160 | all other tokens are in the commands, in order |
| `ShellNesting.NestedIsFlatTrimmed` | pset4/helpers.cc:158-245 | for every line, conditionals, pipelines, commands and tokens are the flat stream split at `;` `&`, then `&&` `\|\|`, then `\|`, each command's last token trimmed |
| `ShellNesting.NestedIsFlat` | pset4/helpers.cc:158-245 | they are exactly the flat split iff no command ends in an exposed blank |
| `ShellNesting.EscapedBlankIsLost` | pset4/helpers.cc:226-228 | a line on which they differ |
| `ShellWalk.VisitTokens` | pset4/sh61.hh:212-218 | the loop from `token_begin()` to `token_end()` yields the region's flat token stream |
| `ShellWalk.VisitWords` | pset4/helpers.cc:117-138 | `str()` on each token of any region gives its text, or overruns it iff the region splits an escape at its end |
| `ShellWalk.VisitCommands` | pset4/sh61.hh:192-210 | the loop to `end()` over commands yields the specified regions with their tokens and operators |
| `ShellWalk.VisitLine` | pset4/sh61.hh:180-218 | the nested loops over parsers and tokenizers end and yield the trimmed flat split of the line; it is the flat split iff the line is clean, and all its tokens have texts iff no trimming cuts an escape |
| `Guard.StepInv` | pset3/k-hardware.cc:1197-1221 | every atomic step of every thread keeps the protocol invariant |
| `Guard.RunInv` | pset3/k-hardware.cc:1197-1221 | so does every interleaving |
| `Guard.GuardSafe` | pset3/k-hardware.cc:1197-1221 | for any number of threads and any interleaving: at most one acquire returns 1, returns of 0 follow the release, one initialiser at most, and after the release the 2 is in the guard or with exactly one thread about to put it back |
| `Guard.SomeoneInitialises` | pset3/k-hardware.cc:1197-1213 | from the start, in every interleaving in which some thread has taken three steps, an acquire has returned 1 |
| `Guard.EveryCallCanEnd` | pset3/k-hardware.cc:1197-1221 | from every reachable state, every call under way can be brought to its return; once somebody has been told to initialise, and so after the release, it returns 0 |
| `Guard.FastPath` | pset3/k-hardware.cc:1199-1201 | with 2 in the guard the load alone ends the call |
| `Guard.NoOneWaitsForNothing` | pset3/k-hardware.cc:1202-1212 | a thread spins only while another thread's pending step will put 2 into the guard |
| `Scheduler.Kernel.Schedule` | pset3/kernel.cc:370-395 | picks the first runnable process in cyclic order after the current one; without one, a round of the loop ends where it began |
| `Scheduler.Closer` | pset3/kernel.cc:370-386 | a call that runs another process brings a runnable one nearer |
| `Scheduler.RunWithin` | pset3/kernel.cc:370-395 | a process that stays runnable is run after as many calls as its cyclic distance at most |
| `Scheduler.Fair` | pset3/kernel.cc:370-395 | and so within MAXNPROC calls, whatever happens to the others |
| `Scheduler.RunsInTurn` | pset3/kernel.cc:370-395 | with all runnable they are run in turn, so the bound is exact |
| `CharConv.OverflowTest` | pset3/lib.cc:271 | the division test detects exactly the overflow of x * base + digit |
| `CharConv.DigitLetters` | pset3/lib.cc:334 | each digit is written as its character of 0 to 9 and a to z, and read back from it |
| `CharConv.CapitalLetters` | pset3/lib.cc:266-267 | capitals are read like small letters in bases up to 17 |
| `CharConv.NoDigit` | pset3/lib.cc:262-270 | in bases up to 10 only the digits of the base are read |
| `CharConv.FromCharsUnsigned` | pset3/lib.cc:255-286 | consumes all leading digits; E_INVAL iff there is none, E_RANGE iff their value is 2^64 or more, otherwise the value |
| `CharConv.FromChars` | pset3/lib.cc:288-302 | the same for signed values, with E_RANGE iff the value is outside [-2^63, 2^63) |
| `CharConv.DigitsValue` | pset3/lib.cc:304-337 | the digit string of a number denotes the number |
| `CharConv.Shortest` | pset3/lib.cc:304-337 | no shorter digit string does |
| `CharConv.ThreeDigits` | pset3/lib.cc:306-323 | counting three digits at a time counts the digits |
| `CharConv.CountDigits` | pset3/lib.cc:306-323 | the loop computes the length of the digit string |
| `CharConv.ToCharsUnsigned` | pset3/lib.cc:304-337 | writes exactly the digit string and nothing else, or reports overflow iff it does not fit and writes nothing |
| `CharConv.ToChars` | pset3/lib.cc:339-349 | the same with a sign; `E_OVERFLOW` iff it does not fit, and then nothing is written but the sign of a negative value, if there is any room |
| `CharConv.RoundTripUnsigned` | pset3/lib.cc:255-337 | `from_chars` reads back, from the buffer, what `to_chars` wrote into it, for all bases, buffers and 64-bit values that fit |
| `CharConv.RoundTrip` | pset3/lib.cc:288-349 | the same for signed values |
| `Escape.StepKeepsPrefix` | pset3/lib.cc:775-788 | what is collected is a proper prefix of a sequence, shorter than the 12-byte buffer |
| `Escape.FeedPiece` | pset3/lib.cc:771-818 | fed a complete sequence the filter shows nothing and sets its colour; fed anything else it shows it in the current colour |
| `Escape.FilterIsParser` | pset3/lib.cc:758-818 | for every byte stream, what comes out is the input without the complete sequences that a parser with lookahead finds, each byte in the colour of the last complete sequence before it or the initial one; what is pending is the unfinished rest |
| `Escape.ColorIsSelected` | pset3/lib.cc:790-816 | the accumulating loop over a complete sequence selects the colour that its parameters, the decimal numbers between semicolons with none counting as 0, give when applied to gray in order |
| `Escape.HueParameters` | pset3/lib.cc:773-812 | parameters 30 to 37 and 90 to 97 set the red, green and blue bits of the foreground as the bits of the last digit say, dim and bright, and leave the background; 40 to 47 and 100 to 107 the other way round |
| `Escape.OtherParameters` | pset3/lib.cc:797-804 | 0 gives gray on black, 1 and 2 switch brightness alone, 7 swaps the halves and twice does nothing, all others do nothing |
| `Escape.SelectedByte` | pset3/lib.cc:790-816 | a selected colour leaves the byte of the character alone |
| `Escape.PiecesAreInput` | pset3/lib.cc:758-818 | that parser loses, repeats and moves nothing |
| `Escape.SequenceLenIs` | pset3/lib.cc:775-790 | the sequences it finds are `ESC m` and `ESC [` digits and semicolons `m`, in 12 bytes at most |
| `Escape.StripVersusOutput` | pset3/lib.cc:758-818 | output and pending bytes are the input with its complete sequences removed iff no unfinished sequence is broken by the ESC of a complete one |
| `Escape.ClashHappens` | pset3/lib.cc:784-788 | a stream on which they differ |
| `Console.ReadColor` | pset3/lib.cc:790-816 | on a complete sequence the loop returns the colour that the list of its parameters selects |
| `Console.Printer.constructor` | pset3/lib.cc:704-711 | the start cell, with a negative position meaning the cursor and one past the screen its start |
| `Console.Printer.LineIsBlank` | pset3/lib.cc:713-719 | true iff no cell of the row holds a visible character |
| `Console.BlankCell` | pset3/lib.cc:715 | the mask tests for no character or a space on a black background |
| `Console.Printer.LowestBlank` | pset3/lib.cc:728-735 | finds the start of the lowest run of blank lines, or 0 |
| `Console.Printer.Scroll` | pset3/lib.cc:721-748 | moves up the rows that the mode and the blank line select and clears the last, or goes back to the first cell; the window moves one row down the tape |
| `Console.ScrolledRow` | pset3/lib.cc:740-746 | row by row: those above the blank line stay, the others move up, the last is cleared |
| `Console.Printer.Display` | pset3/lib.cc:820-836 | in every mode, at most one scroll and then the character, or blanks to the end of the row |
| `Console.CellHolds` | pset3/lib.cc:834 | a cell holds its character in the low byte and its colour in the high byte |
| `Console.Printer.Putc` | pset3/lib.cc:820-836 | one step of the escape filter, with all that it lets through displayed; while the buffer is flushed, the character itself |
| `Console.Printer.PutcImpl` | pset3/lib.cc:771-818 | one step of the escape filter on the 12-byte buffer, never outside it |
| `Console.Printer.Flush` | pset3/lib.cc:758-769 | displays the collected bytes in order through the re-entrant `putc`, which collects none of them again |
| `Console.ShowsScroll` | pset3/lib.cc:742-748 | a scrolled screen is the window one row further down the tape |
| `Console.Puts` | pset3/lib.cc:842-846 | for every stream, with scrolling on, the screen is a window onto the tape written sequentially by what the filter lets through, in its colours, scrolled no further than the text requires |
| `Console.ConsolePuts` | pset3/lib.cc:838-851 | at the cursor, the screen is a window onto the tape written by the painted string followed by its unfinished rest, which the flush of `move_cursor` shows; at a given position the rest is not shown; the result is the cell after the text |
| `Stride.InFile.Read` | pset5/io61.cc:73-87 | the bytes from the file position, fewer only at end of file |
| `Stride.OutFile.Write` | pset5/io61.cc:112-124 | appends the buffer |
| `Stride.StrideCopy` | pset5/stridecat61.cc:33-76 | for every initial offset the loop ends and writes the bytes of the input at the positions of the trace, in its order |
| `StrideTheorems.GoodStride` | pset5/stridecat61.cc:33-76 | the trace is a permutation when the block size divides the stride or the file is short |
| `StrideTheorems.BadStride` | pset5/stridecat61.cc:71-75 | otherwise some position is copied twice |
| `StrideTheorems.NeverZero` | pset5/stridecat61.cc:71-75 | from any other position the loop never comes back to position 0 |
| `StrideTheorems.StrideIsPermutation` | pset5/stridecat61.cc:33-76 | the exact condition for a permutation, for every size, block size, stride and initial offset |
| `StrideTheorems.CopyKeepsBytes` | pset5/stridecat61.cc:33-76 | under that condition the output holds every byte of the input, as often |
| `StrideTheorems.TraceIsTransposed` | pset5/stridecat61.cc:71-75 | with block size 1 the trace is a matrix transposition |
| `StrideTheorems.CopyTwice` | pset5/stridecat61.cc:33-76 | a copy with stride T and one with stride K restore a file of T * K bytes |
| `Derp.Allocator.Malloc` | pset1b/m61-derp.cc:15-75 | the whole new block map, counters and result; a tiling survives iff the chosen block was no exact fit |
| `Derp.Allocator.Free` | pset1b/m61-derp.cc:77-93 | the whole new state; a tiling survives |
| `Derp.RoundedFits` | pset1b/m61-derp.cc:56-57 | rounding to a multiple of 16 never exceeds the chosen block of a tiling |
| `Derp.MallocTiles` | pset1b/m61-derp.cc:59-66 | the blocks still tile the 8 MiB buffer in multiples of 16 iff the split was no exact fit |
| `Derp.FreeTiles` | pset1b/m61-derp.cc:77-93 | freeing keeps the tiling |
| `Derp.MallocGives` | pset1b/m61-derp.cc:15-75 | a request that succeeds adds exactly the block it returns, with the size asked for, to the allocated ones, unless it overwrites one; one that fails changes nothing |
| `Derp.FreeGives` | pset1b/m61-derp.cc:77-93 | freeing takes exactly the block at the address out of them |
| `Derp.MallocCounts` | pset1b/m61-derp.cc:59-72 | active count and bytes stay the sums over allocated blocks iff the request does not overwrite the entry of an allocated block behind an exact fit |
| `Derp.CountersLost` | pset1b/m61-derp.cc:15-93 | two requests for 16 bytes, the first freed, and a third: the counters are no longer the sums |
| `Derp.FreeCounts` | pset1b/m61-derp.cc:90-92 | the same for freeing |
| `Derp.RunSafe` | pset1b/m61-derp.cc:15-93 | in every run up to the first exact fit, the blocks tile the buffer, are disjoint and hold their users' sizes, and the counters are exact |
| `Derp.RunTotals` | pset1b/m61-derp.cc:68-70 | the total statistics count every request that succeeded, and its size |
| `Derp.FirstFit` | pset1b/m61-derp.cc:23-29 | allocation succeeds when any free block is large enough, at an address no higher than that of any such block |
| `Derp.ExactFitHappens` | pset1b/m61-derp.cc:59-62 | a request for the whole buffer breaks the tiling |
| `Derp.EmptyBlockGrows` | pset1b/m61-derp.cc:56-66 | a request that is given an entry of size 0 leaves a free block of 2^64 - 16 bytes |
| `Derp.PastTheBuffer` | pset1b/m61-derp.cc:15-75 | after a request for the whole buffer, one for 0 bytes and one of any size get addresses past the buffer |

## Left out

- Hardware and assembly: interrupts, device registers, TLB invalidation, keyboard and the drawing of the memory viewer.
- Iterators that are done: `next`, `next_range`, `last_va` and `range_size` shift by 64 there, which is undefined, so the model asks that they are not called.
- Bits 52 to 63 of page-table entries (execute-disable among them), which no operation here reads, and permission arguments with bits above the low twelve.
- Shared or cyclic table pages, and leaves at or above 4 GiB in the two lowest levels (the panic of `down`); a large-page bit in the root table is taken as the code takes it, as a leaf.
- `vmiter::map`, `kptr` and the typed overloads: one call each of what is modelled.
- `kfree` and `kfree_ptp` are not written in the repository; freeing a page is modelled as taking it out of memory.
- The `ptiter` loop over process tables in `memusage::refresh` (it tests `it.va()` of an iterator that may be done) and the fallback loop over the kernel table.
- Memory order: the guard's relaxed load and the release fences of `try_map` are modelled as sequentially consistent steps.
- The bodies of `run_line` and `command::run`, process groups and signals of the shell.
- `strtol`, `strtoul`, `vprintf` and the other string routines of the library.
- Stride.StrideCopy: does not model a size given by option, write errors, or parameters so large that a position plus block and stride reaches 2^64.
- Derp.Allocator.Malloc: does not model wrap-around of the statistics counters or failure of the system allocator.
- The simple allocators of the same problem set, `cat61`-style copies, tests and their drivers: they would add only easy properties.
