# Dafny models of the ibcs-us kernel data structures

ibcs-us runs programs of old Unix systems in user space and carries its own small kernel for them. This
project models the parts of that kernel that keep state of their own, in the form the C code has them
(classes, arrays, loops over buffers), and proves what they are for. `dafny verify dfyconfig.toml` checks
everything.

## What is modelled

| files | part of the system |
|---|---|
| `LruRing`, `HashChains`, `ShortInode`, `ShortInodeHang` | `ibcs/short-inode.c`: the table of 65533 slots that is a coalesced hash table and an LRU ring at once |
| `Heap`, `HeapScan` | `ibcs/ibcs-lib.c`: the next-fit allocator over a circular list of headers |
| `Chars`, `FmtSpec`, `Fmt`, `FmtLaws`, `Strtoul` | `ibcs/ibcs-lib.c`: the bounded formatter; `ibcs/linux26-compat.c`: the number reader |
| `PathSpec`, `Path`, `PathLaws` | `ibcs/filemap.c`: the one-pass path normaliser |
| `FilemapText`, `FilemapGrammar`, `FilemapParse`, `Filemap`, `FilemapRun` | `ibcs/filemap.c`: the parser that turns a text into a linked list inside its own buffer, and the rewriter |
| `Futex`, `Break` | `ibcs/linux26-compat.c`, `per-svr4/misc.c`: the futex lock and the emulated break |
| `ReadDir` | `per-svr4/misc.c`: directory reads as 16-byte entries |
| `XtiSpec`, `XtiLaws`, `Xti` | `per-svr4/xti.c`: the TLI endpoint, its message queue and its state |
| `SetFrame`, `Segments286` | `x286/x286emul.c`, `x286/emu_memory.c`: the start-up frame and the segments of a 286 program |

Each method is proved against a specification that does not mention its loops: a fold over path
components, a move-to-end list, a tiling of the heap, an unbounded output string, a machine over a queue of
messages. The main results are about that specification, over all inputs, all states or all runs.

## Main results

* **Short inodes.** Over any run that maps at most 65533 distinct inodes, each inode always gets the same
  number and two inodes never share one (`MapAll`), although chains of different hashes merge and links of
  untouched slots are not in memory. Over any run at all, evictions included, the LRU links are one ring in
  the order of the move-to-end list (`MapMany`). A call returns if and only if its walk does within 65533
  steps.
* **Heap.** The headers always tile the heap; live blocks are disjoint and no call changes their extent or
  contents; `malloc` takes the first fit in its scan order and moves the break exactly when no run of free
  blocks, coalesced or not, holds the request. It returns if and only if `Ends` holds, which it always does
  after another `malloc`.
* **Paths.** The in-place normaliser computes the fold of the components through a stack, for every source
  and size, or reports that the buffer is too small. On strings: ".." cancels the one name before it, "." and
  repeated slashes mean nothing, names stay, and a result is a fixed point.
* **File maps.** Parsing in place yields a list, made of records that overwrite their own keywords, which
  reads back as the rules of the text; printing rules and parsing gives back the rules; a path is mapped by
  walking that list in its buffer to the first rule that matches (`FilemapRun.MapWithFile`).
* **Frame.** Decoding the start-up frame gives back `argc`, `argv` and `envp`, with near and far pointers.
* **Directories.** Reading to the end yields every entry that fits the count, once and in order, in the build
  with folded inodes and in the one with mapped inodes, which is the one this repository makes. Names are
  recovered from their chunks if and only if no inode field comes out as 0xffff.
* **Lock.** For any number of threads and any interleaving the lock word plus the number of holders is 1 and
  no wake-up is lost.
* **Endpoint.** Every run conserves messages. A run that reads every message to its end hands over each as it
  was put if and only if it puts no message before one partly read.
* **Segments and break.** Every run keeps the limits; a grow that succeeds returns bytes that nobody holds.
  Every break granted is below the mapped end, and above the mapped start under an exact condition.
* **Formatter.** The measuring pass and the writing pass agree; printed numbers are read back.

## Where the code does not do what it promises

Each of these is part of a contract named here, which also says when the promise does hold.

* `ibcs_malloc` may search for ever: coalescing can absorb the block the search started from. It ends if and
  only if some run of free blocks is large enough, or the start is in use, is the first block or the end
  marker, or follows a block in use (`Heap.Allocator.Scan`, `HeapScan.ScanNeverEnds`). Two allocations,
  freed in the order they were made, are enough (`HeapScan.TwoFreesThenHang`).
* A request above 0xfffffffc bytes wraps round and is given a block of one word (`Heap.Units`).
* When the least recently used slot is itself the home slot of the new inode and shares its chain, the links
  that are left belong to no chains (`ShortInode.EvictingSharedHomeBreaksChains`); otherwise they stay. One
  such eviction and then one of the next slot on the chain leave a table in which a call of `short_inode_map`
  never returns (`ShortInodeHang.TwoEvictionsHang`): map 3, 0x10002, 5, 6, ... up to 65535, then 0x20001 and 0x10004, and the
  call for 0x30000 goes round a cycle that its start is not on (`ShortInodeHang.HangingRun`).
* From the working directory `/` every name comes out with two slashes in front. This is the only working
  directory that does so (`PathLaws.CwdLaw`).
* `%c` prints its argument and then the letter c, since the format is not advanced past it
  (`FmtSpec.PercentC`), and `%%` prints both of its characters (`FmtLaws.StringsAndPercent`); exactly the plain `c` directives
  print their letter again (`FmtSpec.LetterPrintedAgain`).
* A blank line that ends with a carriage return makes a file map invalid, while a rule or a comment may end with
  one (`FilemapGrammar.ReturnAloneIsBad`).
* An octal conversion of 2^60 or more needs more than the 20 bytes of its buffer, and a format that ends
  after an `l` modifier is read past its end (`Fmt.WideFits`, `FmtSpec.Safe`). Formatted output that is empty
  makes `ibcs_vwritef` ask for a write of -1 bytes (`Fmt.Vwritef`).
* As configured (Makefile.defs:10), with mapped inodes, `abi_read_dir` stores one byte of the inode instead of
  two, and the other byte is whatever the caller's buffer held. The field is wrong unless that byte was right
  (`ReadDir.MappedField`), can be zero, and when both bytes are 0xff the name runs into the next one
  (`ReadDir.MappedRun`, `ReadDir.NamesRunTogether`).
* The offset of a partly read message belongs to the endpoint: a message put in front of it is read from the
  wrong place and past its end (`XtiSpec.DeliveredIffClean`, `XtiSpec.HalfReadAnswer`).
* In every build of this repository `Priv` is a null pointer (include/ibcs-us/per-svr4/tli.h:346-347 with
  `_KSL_IBCS_US`, which Makefile.defs:12 sets), so the requests of the endpoint are refused with EINVAL; the
  model is of the endpoint with its private data, as the kernel build has it.
* A stack size at or above the frame, or with an environment so large that the frame starts below the stack
  size, passes the test for stack space because the difference is cut to 16 bits: the near segment may then
  grow over the frame (`Segments286.Setup`, `Segments286.StackTooLarge`).
* Growing the stack to offset 0 with an empty near segment sets its limit to 0xffff
  (`Segments286.Segments.StkGro`). brkctl commands other than 1 to 3, shrinking the implied segment, and the
  increment -2^31, which is its own negative, are not checked (`Segments286.Segments.IntBrkctl`).
* `abi_brk` grants breaks below the mapped heap when they are in the page of the recorded break, or of the
  recorded start, and that page is below it: after a new mapping for a break of 0x1001 the heap starts at
  0x2000 and 0x1500 is granted (`Break.GrantedAboveIff`, `Break.GrantedBelowHeap`). The COFF loader sets the
  start to the address of the .bss, which may lie below the mapping (binfmt-coff/binfmt-coff.c:652-653).
* `abi_brk` may lower the recorded break before it refuses the request (`Break.Mm.AbiBrk`).
* `simple_strtoul` takes `a` to `f` for digits in every base, and control codes 16 to 25 for 0 to 9
  (`Strtoul.SimpleStrtoul`).

## Model

| member | source | states |
|---|---|---|
| `LruRing.MoveToEndPermutes` | ibcs/short-inode.c:234-240 | moving a slot to the end keeps the order a permutation of all slots, with the positions updated as its inverse |
| `LruRing.TouchMovesToEnd` | ibcs/short-inode.c:142-162 | the link writes of one use leave one ring over all slots whose order is the old one with the slot moved to the end, whichever of its neighbours and the ends coincide |
| `LruRing.ReadRingIsOrder` | ibcs/short-inode.c:237-240 | following the next links from any place of the order meets exactly the rest of the order |
| `HashChains.InsertAfterLinks` | ibcs/short-inode.c:228-229 | the two joins insert the new slot after its home slot and leave all other chains as they were |
| `HashChains.RemoveLinks` | ibcs/short-inode.c:178-185 | joining the neighbours takes a slot off its chain and leaves the rest linked both ways |
| `HashChains.PrevUndoesNext` | ibcs/short-inode.c:168-172 | on linked chains each link is the inverse of the other |
| `HashChains.FirstReturn` | ibcs/short-inode.c:216-219 | a walk is back at its start for the first time after exactly one turn of the chain |
| `HashChains.FullTurnMeetsAll` | ibcs/short-inode.c:216-219 | a walk that came back has met every other slot of the chain |
| `ShortInode.HashValIdentity` | ibcs/short-inode.c:121-136 | an inode in 3..65535 has the slot of its own number as home |
| `ShortInode.XorBit` | ibcs/short-inode.c:127 | bit i of the exclusive or is set exactly if bit i of the two numbers differs, for all numbers and i |
| `ShortInode.XorOfHalves` | ibcs/short-inode.c:125-128 | the exclusive or of the halves of an inode is a 16-bit number whose bits say where the halves differ |
| `ShortInode.HomeIs` | ibcs/short-inode.c:121-136 | the home of an inode is the slot of the one number whose 16 bits say where its halves differ, 0, 1 and 2 being moved to the end |
| `ShortInode.LazyInitedKeeps` | ibcs/short-inode.c:105-115 | lazy initialisation cannot be seen by a reader of the links |
| `ShortInode.ShortInodeMap.constructor` | ibcs/short-inode.c:96-115 | a table of zeros is the ring 0, 1, 2, ... and agrees with the empty map |
| `ShortInode.LruJoinedLinks` | ibcs/short-inode.c:142-148 | a join changes exactly one next and one prev link of the ring, as read through untouched slots, and nothing of the hash side |
| `ShortInode.UsedIsTouched` | ibcs/short-inode.c:154-162 | the writes of a use are an unlinking of the slot, with the oldest slot moved on if it was that, and a linking in before the oldest one; hash side and inodes stay |
| `ShortInode.HashJoinedLinks` | ibcs/short-inode.c:168-172 | a join changes exactly one next and one prev link of the chains; ring and inodes stay |
| `ShortInode.HashFreedChains` | ibcs/short-inode.c:178-185 | the links are then those of the chains without the slot, if it was in use, else of the same chains |
| `ShortInode.ShortInodeMap.Touch` | ibcs/short-inode.c:237-240 | the ring stays valid and its order is the old one with the slot moved to the end; hash links and inodes are kept |
| `ShortInode.ShortInodeMap.Walk` | ibcs/short-inode.c:216-219 | the first slot along the chain that holds the inode, or the home slot again; given up if and only if no number of steps ends the loop |
| `ShortInode.AllocHomeKeepsChains` | ibcs/short-inode.c:209-211 | taking an unused home slot puts it on a chain of its own; ring and other slots stay |
| `ShortInode.AllocOldestLinked` | ibcs/short-inode.c:225-231 | a slot other than the home slot is off its old chain and on that of the home slot, just after it |
| `ShortInode.ShortInodeMap.Lookup` | ibcs/short-inode.c:203-233 | it ends exactly if the walk does; then the slot holds the inode, no other slot changed hands, the ring is untouched, and chains and agreed map are kept unless a shared home slot was evicted |
| `ShortInode.ShortInodeMap.Map` | ibcs/short-inode.c:192-249 | all branches, with no table, with special inodes, with evictions and with walks that never end: when it returns, numbers in 3..65535, the order moved to the end, a valid ring in every state, unused slots first; an inode whose home is unused returns and gets the number that the bits of its halves give |
| `ShortInode.ShortInodeMap.MapAgreed` | ibcs/short-inode.c:192-249 | while a slot is unused a call keeps every number given before and adds at most its own |
| `ShortInode.ShortInodeMap.MapAll` | ibcs/short-inode.c:20-26 | over a whole run on at most 65533 inodes, two calls return the same number if and only if they asked for the same inode |
| `ShortInode.ShortInodeMap.MapMany` | ibcs/short-inode.c:192-249 | over any run, evictions included, up to a call that never returns: read from the oldest slot the links give the order before the run with each used slot moved to its end in turn |
| `ShortInode.AllocHomeKeepsMap` | ibcs/short-inode.c:204-211 | taking an unused home slot extends the agreed map |
| `ShortInode.AllocOldestKeepsChains` | ibcs/short-inode.c:225-231 | taking a slot other than the home slot, in use or not, keeps the chains |
| `ShortInode.AllocOldestKeepsMap` | ibcs/short-inode.c:225-231 | taking an unused oldest slot extends the agreed map: the inode is on the chain through its home slot |
| `ShortInode.ChainsReturn` | ibcs/short-inode.c:217-219 | while the chains are linked every walk ends |
| `ShortInode.WalkBound` | ibcs/short-inode.c:217-219 | a walk that has not stopped within 65533 steps never stops |
| `HashChains.MeetsNothingNew` | ibcs/short-inode.c:217-219 | whatever a walk along any links meets without coming back, it meets within as many steps as there are slots |
| `ShortInodeHang.TwoEvictionsHang` | ibcs/short-inode.c:225-231 | after the home slot and then the other slot of a chain of two are evicted, no call for a further inode of that home returns |
| `ShortInodeHang.HangingRun` | ibcs/short-inode.c:192-249 | a run of calls from an empty table after which the call for 0x30000 never returns |
| `ShortInode.WalkIsComplete` | ibcs/short-inode.c:217-220 | a walk that met only other inodes shows that the inode is not in the table |
| `ShortInode.UsedMovesToEnd` | ibcs/short-inode.c:237-240 | the table after the last statements of a call is a ring in move-to-end order, and its first slot is the new oldest one |
| `ShortInode.EvictingLoneHomeKeepsChains` | ibcs/short-inode.c:225-231 | evicting a home slot that is alone on its chain keeps the chains |
| `ShortInode.EvictingSharedHomeBreaksChains` | ibcs/short-inode.c:225-231 | evicting a home slot that shares its chain leaves links that no chains describe |
| `ShortInode.OldestIsUnused` | ibcs/short-inode.c:225 | while fewer inodes are mapped than there are slots the oldest slot is unused |
| `ShortInode.UnusedStayFirst` | ibcs/short-inode.c:199-242 | unused slots stay a prefix of the order |
| `ShortInode.StaysAgreed` | ibcs/short-inode.c:192-249 | with a slot to spare, one more inode evicts nothing and the table goes on agreeing with the map |
| `ShortInode.NumbersDistinct` | ibcs/short-inode.c:242-249 | numbers of agreed or special inodes are equal if and only if the inodes are |
| `ShortInode.EvictionMeansFull` | ibcs/short-inode.c:225-231 | a slot is taken from its inode only if all slots are in use and it is the least recently used |
| `ShortInode.SmallInodeKeepsItsNumber` | ibcs/short-inode.c:199-242 | an inode in 3..65535 whose home slot is unused is mapped to itself |
| `Heap.Units` | ibcs/ibcs-lib.c:795-797 | the words hold the bytes wanted if and only if the 32-bit sum does not wrap |
| `Heap.LiveBlocksDisjoint` | ibcs/ibcs-lib.c:784-882 | in a tiled heap live blocks lie within the heap and do not overlap |
| `Heap.BlockOf` | ibcs/ibcs-lib.c:784-882 | every word of the heap is in a block |
| `Heap.Absorb` | ibcs/ibcs-lib.c:818-820 | a free block takes in the free block after it; the tiling and all live blocks are kept |
| `Heap.Split` | ibcs/ibcs-lib.c:829-832 | a free block is split in two; the tiling and all live blocks are kept |
| `Heap.Claim` | ibcs/ibcs-lib.c:833-835 | setting the busy bit makes the block live and keeps the others |
| `Heap.Grow` | ibcs/ibcs-lib.c:872-878 | the end marker becomes a live block and a new end marker follows |
| `Heap.Release` | ibcs/ibcs-lib.c:888-893 | clearing the busy bit keeps the tiling and the other live blocks |
| `Heap.ScannedHoldsNothing` | ibcs/ibcs-lib.c:812-839 | nothing fits in the part of the heap a search has left behind |
| `Heap.StartIsNotPassed` | ibcs/ibcs-lib.c:838-839 | under `Ends` the search cannot run past where it started |
| `Heap.ScanGoesOn` | ibcs/ibcs-lib.c:812-839 | from a settled block the search goes on, or is over and nothing fits anywhere |
| `Heap.Allocator.constructor` | ibcs/ibcs-lib.c:778-781 | nothing is allocated at first |
| `Heap.Allocator.Coalesce` | ibcs/ibcs-lib.c:815-820 | all free blocks that follow are merged into the block, live blocks are untouched |
| `Heap.Allocator.Scan` | ibcs/ibcs-lib.c:812-839 | finds the first fit in the order of the search, or gives up only if no run of free blocks holds the request |
| `Heap.Allocator.Take` | ibcs/ibcs-lib.c:821-836 | the block is exactly as long as asked for, is live, and lies where nothing was live; the next search starts at the block right after it |
| `Heap.Allocator.Extend` | ibcs/ibcs-lib.c:842-878 | a new block at the end of the heap, the very first one included; the break is one word above the end marker |
| `Heap.Allocator.Malloc` | ibcs/ibcs-lib.c:784-882 | the payload has the words asked for and was outside every live block; live blocks keep extent and contents; the break moves if and only if nothing fitted; the tiling of the whole heap is kept; the next search starts right after the block, or where this one did if the heap grew, and always ends |
| `Heap.TwoCalls` | ibcs/ibcs-lib.c:812-839 | next fit over two calls: the second block is the first that fits from the place right after the first one on, round the heap |
| `Heap.AnchoredEnds` | ibcs/ibcs-lib.c:838-839 | a search whose start is in use, an end of the heap or right after a block in use always ends |
| `Heap.Allocator.Free` | ibcs/ibcs-lib.c:888-893 | exactly this block is no longer live; all others keep extent and contents |
| `HeapScan.ScanNeverEnds` | ibcs/ibcs-lib.c:812-839 | if `Ends` fails, no number of steps of the loop finds a block or gives up |
| `HeapScan.TwoFreesThenHang` | ibcs/ibcs-lib.c:784-893 | a heap two calls of malloc and two of free lead to, in which the next larger request never returns |
| `PathSpec.SplitJoin` | ibcs/filemap.c:92-159 | splitting undoes joining for components without slashes |
| `PathSpec.ResolveResolved` | ibcs/filemap.c:92-159 | the fold leaves no empty or "." component and ".." only as a leading run of a relative path |
| `PathSpec.ResolveAgain` | ibcs/filemap.c:92-159 | folding resolved components changes nothing |
| `PathSpec.NormalIdempotent` | ibcs/filemap.c:63-69 | normalising twice is normalising once |
| `Path.EndsDotDotIsKeeps` | ibcs/filemap.c:121-125 | the test on the last bytes of the buffer is true exactly if ".." must be kept |
| `Path.CopyComponent` | ibcs/filemap.c:149-158 | one component and its slash are copied, or the call fails exactly if they do not fit |
| `Path.EraseComponent` | ibcs/filemap.c:139-141 | exactly the last component and its slash are erased |
| `Path.DotDot` | ibcs/filemap.c:117-145 | the buffer holds the stack with ".." pushed, or the call fails exactly if it is kept and does not fit |
| `Path.NextDotDot` | ibcs/filemap.c:117-145 | one step of the fold, or its failure, for a ".." component |
| `Path.NextNamed` | ibcs/filemap.c:149-158 | one step of the fold, or its failure, for a component that is copied |
| `Path.Components` | ibcs/filemap.c:92-164 | the loop computes the bounded fold over all components and fails exactly when that does |
| `Path.Terminate` | ibcs/filemap.c:160-166 | the trailing slash goes, an empty path becomes ".", and the null is written inside the buffer |
| `Path.NormalisePath` | ibcs/filemap.c:70-167 | for every source, the buffer holds the specified path and its null, which without a working directory is the normal form of the source; the result is its length with the null; errors are those of the specification; nothing outside the buffer is written |
| `Path.BuildIsResolve` | ibcs/filemap.c:92-159 | a bounded fold that does not fail is the unbounded one |
| `Path.BuildHasRoom` | ibcs/filemap.c:126-152 | the bounded fold cannot fail with room for the source and two more |
| `Path.TargetIsNormal` | ibcs/filemap.c:63-69 | a success that needs no working directory is the normal form of the source |
| `PathLaws.DotDotCancels` | ibcs/filemap.c:114-145 | ".." cancels the name before it and nothing else, at the end of any path or inside it |
| `PathLaws.DotsAndSlashesGo` | ibcs/filemap.c:96-113 | "." and repeated or final slashes mean nothing |
| `PathLaws.RootIsTop` | ibcs/filemap.c:135 | ".." at the root is the root |
| `PathLaws.NamesStay` | ibcs/filemap.c:119-158 | a path of names, after leading ".." if it is relative, is its own normal form |
| `PathLaws.NamesFit` | ibcs/filemap.c:149-158 | a path of names is accepted if and only if the buffer holds it and its null, and else refused as too long |
| `PathLaws.ErrorsAre` | ibcs/filemap.c:81-89 | a failure is that of getcwd, ERANGE exactly if the working directory does not fit, or a path that is too long |
| `PathLaws.RelativeToCwd` | ibcs/filemap.c:75-91 | from a normal working directory a relative path is normalised as if written after it |
| `PathLaws.RootCwdDoublesSlash` | ibcs/filemap.c:86-90 | from "/" each plain name comes out with two slashes before it |
| `PathLaws.CwdLaw` | ibcs/filemap.c:75-91 | the law for relative paths holds if and only if the working directory is not "/" |
| `PathLaws.LengthAboveOne` | ibcs/filemap.c:66-68 | the returned length is always greater than 1 |
| `PathLaws.RoomForPath` | ibcs/filemap.c:126-152 | a buffer two longer than the source always suffices |
| `PathLaws.RoomFromCwd` | ibcs/filemap.c:86-152 | with the working directory in front, three more than both lengths always suffice |
| `FilemapText.ParseLine` | ibcs/filemap.c:277-338 | in a line with a rule the two paths are where they are said to be, in order, apart, and absolute |
| `FilemapText.RuleIsValid` | ibcs/filemap.c:290-338 | a parsed rule has two absolute paths, both or neither of which end with a slash |
| `FilemapText.EntryParses` | ibcs/filemap.c:283-338 | a printed rule parses to itself |
| `FilemapText.PrintParse` | ibcs/filemap.c:194-205 | printing any list of rules, with comments and blank lines between them, and parsing gives the rules in order |
| `FilemapGrammar.RuleIff` | ibcs/filemap.c:277-338 | a line means a rule with its paths at given places if and only if, character by character, it consists of gap, keyword, gap, path, gap, first arrow, gap, path and trailing blanks or returns |
| `FilemapGrammar.NothingIff` | ibcs/filemap.c:276-282 | a line means nothing if and only if it is blank or its first other character is # |
| `FilemapGrammar.FirstBadLine` | ibcs/filemap.c:262-290 | after any good lines a bad one is reported by its number, counted from 1 |
| `FilemapGrammar.ReturnAloneIsBad` | ibcs/filemap.c:280-290 | a line that is a carriage return is bad, while a comment or a rule may end with one |
| `FilemapParse.SkipBlanksAt` | ibcs/filemap.c:185-191 | the next place of the line that is not blank |
| `FilemapParse.FindText` | ibcs/filemap.c:301 | the first arrow from a place on, or the end of the string |
| `FilemapParse.FindSeparator` | ibcs/filemap.c:300-309 | the first arrow with blanks around it in this line, or none: steps of three characters miss nothing |
| `FilemapParse.TrimAt` | ibcs/filemap.c:310-328 | the end of a path without its trailing blanks, and carriage returns for the second path |
| `FilemapParse.ConvertFrom` | ibcs/filemap.c:295-314 | the first path is recorded and terminated, and the rest of the line is still in the buffer |
| `FilemapParse.ConvertTo` | ibcs/filemap.c:315-338 | the second path is recorded and terminated exactly if the line is good, and nothing else is written |
| `FilemapParse.ConvertLine` | ibcs/filemap.c:277-338 | a line is accepted exactly if the specification accepts it, and the record over its keyword holds its rule; no byte outside the line changes |
| `FilemapParse.Link` | ibcs/filemap.c:335-344 | the record is added to the end of the list and all earlier records stay |
| `FilemapParse.ListReads` | ibcs/filemap.c:393-394 | walking the offsets from any record reads the rules from there on |
| `FilemapParse.ListGrows` | ibcs/filemap.c:339-343 | writing the link of the last record leaves every rule of the list as it was |
| `FilemapParse.ParseBuffer` | ibcs/filemap.c:262-370 | the number of the first bad line; else, if every offset fits 16 bits, a list in the buffer that reads as exactly the rules of the text, in order |
| `FilemapParse.LoadFile` | ibcs/filemap.c:206-370 | the same for a file of any size, whose text ends at its first null; there is no list exactly if there is no rule or a bad line |
| `FilemapParse.ShortTextFits` | ibcs/filemap.c:53-58 | every offset of a text up to 64K fits |
| `FilemapParse.PrintedFile` | ibcs/filemap.c:194-205 | the text of a printed file means the rules it was printed from |
| `Filemap.FirstMatch` | ibcs/filemap.c:393-407 | the first rule in file order that matches |
| `Filemap.AppliesIff` | ibcs/filemap.c:394-403 | in the characters of rule and path: a rule that does not end with a slash applies to its own path only and gives its target, one that does applies to its path followed by any rest and gives its target followed by that rest |
| `Filemap.Match` | ibcs/filemap.c:394-403 | the comparison loop and its two tests decide exactly whether a rule matches |
| `Filemap.ShiftRight` | ibcs/filemap.c:425-434 | the tail with its null moves right without loss |
| `Filemap.ShiftLeft` | ibcs/filemap.c:435-440 | the tail with its null moves left without loss |
| `Filemap.MoveTail` | ibcs/filemap.c:423-440 | the tail is where the new directory name ends, or the buffer is unchanged exactly if it does not fit |
| `Filemap.Apply` | ibcs/filemap.c:408-444 | the buffer holds target and suffix and the result is their length with the null, or the call fails with the buffer unchanged |
| `FilemapRun.FindRule` | ibcs/filemap.c:393-407 | the walk along the offsets in the buffer stops at the record of the first rule that matches, or at the end |
| `FilemapRun.FilemapMap` | ibcs/filemap.c:381-445 | the first matching rule applied to the normalised path; 0, with the path in the buffer, if and only if in its characters no rule applies |
| `FilemapRun.MapWithFile` | ibcs/filemap.c:206-445 | parsing and mapping together: a path is mapped by the rules that the text of the file means |
| `SetFrame.PlaceEnv` | x286/x286emul.c:238-246 | every environment string is in memory at its even place below the one before |
| `SetFrame.PlaceArgs` | x286/x286emul.c:248-256 | every argument is in memory below the one before, and nothing above changed |
| `SetFrame.PushEnvNull` | x286/x286emul.c:258-261 | a null pointer of either size at an even address |
| `SetFrame.PushEnvPointers` | x286/x286emul.c:266-281 | walking up the strings with the even step meets each of them: the pointers are those of the environment in order |
| `SetFrame.PushArgPointers` | x286/x286emul.c:292-306 | the same for the arguments |
| `SetFrame.ReadTableAt` | x286/x286emul.c:266-306 | a table of pointers ended by a null pointer reads back as the strings they point to |
| `SetFrame.SetFrame` | x286/x286emul.c:230-312 | from the returned offset the frame decodes to exactly argc, argv and envp in order, with near and with far pointers |
| `ReadDir.Fold` | per-svr4/misc.c:668-674 | a folded inode is not zero and fits two bytes |
| `ReadDir.FoldLaw` | per-svr4/misc.c:668-674 | small inodes stay, and two inodes fold to the same number if and only if their low halves agree, 0 being taken for 0xfffe |
| `ReadDir.MappedField` | per-svr4/misc.c:679-681 | a field with a mapped inode is right if and only if the second byte of the buffer was right already, is the continuation mark if and only if both bytes are 0xff, and zero if and only if both are 0 |
| `ReadDir.EncodeLength` | per-svr4/misc.c:619 | an entry takes 16 bytes for every 14 characters begun |
| `ReadDir.DecodeEncodeAll` | per-svr4/misc.c:608-618 | names of any length and inode fields are recovered from their chunks, in order |
| `ReadDir.RecoverableIff` | per-svr4/misc.c:608-681 | entries, and also names alone, are recovered if and only if no inode field is 0xffff |
| `ReadDir.PutIno` | per-svr4/misc.c:663-681 | the inode field in both builds: two bytes of the folded inode, or one of the mapped inode beside an old one |
| `ReadDir.PutEntry` | per-svr4/misc.c:626-695 | the bytes written are the encoding of the entry, in either build, after what was there |
| `ReadDir.Directory.Read` | per-svr4/misc.c:555-705 | one read passes over some entries and returns the encoding of those that can fit at all, written over what the buffer held; nothing at or above count is written; it stops before the end only if the next entry does not fit any more or one like the last would fill the buffer |
| `ReadDir.Directory.ReadAll` | per-svr4/misc.c:575-705 | all reads together return the encoding of every entry that fits the count, each once and in order, each call over what the buffer held before it |
| `ReadDir.WrittenAllAt` | per-svr4/misc.c:628-681 | over a run each name is shown as it is and each field is its inode put over some byte the buffer held; folded inodes do not depend on it and are never zero |
| `ReadDir.FoldedRun` | per-svr4/misc.c:663-674 | with folded inodes a program decodes the entries that fit from a whole run if and only if none folds to 0xffff |
| `ReadDir.MappedRun` | per-svr4/misc.c:675-681 | as built, it decodes their names if and only if no mapped inode with low byte 0xff was put over an old byte 0xff |
| `ReadDir.NamesRunTogether` | per-svr4/misc.c:679-681 | a buffer and a mapping with which two names are decoded as one |
| `Futex.StepKeepsExclusive` | ibcs/linux26-compat.c:1071-1084 | every step keeps: word 1 and no holder, or word 0 and one holder |
| `Futex.StepKeepsWakeup` | ibcs/linux26-compat.c:1071-1084 | every step keeps: when the word is free and a thread sleeps, another is about to wake one or to try |
| `Futex.EveryRun` | ibcs/linux26-compat.c:1065-1084 | in every state of every run of any number of threads the word plus the number of holders is 1 and no wake-up is lost |
| `Futex.SleeperIsNotAlone` | ibcs/linux26-compat.c:1065-1084 | while a thread sleeps another one holds the lock or is active |
| `Futex.FreeLockIsTaken` | ibcs/linux26-compat.c:1065-1084 | when the word is free and a thread sleeps, two steps lead to a holder |
| `Break.PageAlignMonotone` | ibcs/linux26-compat.c:215-246 | rounding up to pages keeps order and changes only unaligned addresses |
| `Break.Mm.FromBss` | ibcs/linux26-compat.c:222-225 | the heap extends the .bss, the break lies in it or at its end |
| `Break.Mm.NewMapping` | ibcs/linux26-compat.c:226-242 | the heap is a page of its own from the rounded break on |
| `Break.Mm.DoBrk` | ibcs/linux26-compat.c:843-872 | when it fails, and that the mapped end stays page aligned, is at least the break asked for and never falls to the start |
| `Break.Mm.Linux26Brk` | ibcs/linux26-compat.c:1508-1527 | a break is granted if and only if it is not below the minimum, and then lies in the mapped heap |
| `Break.Mm.AbiBrk` | per-svr4/misc.c:132-160 | when a break is granted, in terms of the state before; that it is then not above the mapped end, nor below the mapped start if the page it was compared with is above it; the recorded break and the mapped end after every answer |
| `Break.GrantedAboveIff` | per-svr4/misc.c:139-153 | all that a call could grant lies at or above the start of the heap if and only if neither the break nor the start reaches into the page below it |
| `Break.GrantedBelowHeap` | per-svr4/misc.c:132-160 | a state right after set-up and a break below the heap that is granted |
| `Break.Mm.Run` | per-svr4/misc.c:132-160 | over every run the mapped end is page aligned and not below the rounded break, and each answer is right for its request; if break, start and minimum are above the start of the heap, every break granted lies in it |
| `FmtSpec.SpecAdvances` | ibcs/ibcs-lib.c:483-521 | every directive is longer than its '%' and ends within the format |
| `FmtSpec.LetterPrintedAgain` | ibcs/ibcs-lib.c:525-605 | inside a format every directive is left behind except a plain `c` one, after whose argument the letter is printed too, whatever its flags and widths |
| `FmtSpec.PercentC` | ibcs/ibcs-lib.c:526-530 | "%c" prints its argument and then the letter c |
| `FmtLaws.DirectiveReads` | ibcs/ibcs-lib.c:483-521 | a directive reads as it is written: an optional minus, a minimum width that pads with zeros if it begins with one, a maximum width after a dot, up to two modifiers |
| `FmtLaws.OneNumber` | ibcs/ibcs-lib.c:531-596 | %d, %u, %o, %x, %X and %p print their number signed, in decimal, in octal, and in hexadecimal with small and with capital letters |
| `FmtLaws.DecimalReads` | ibcs/ibcs-lib.c:531-551 | a decimal text has a minus sign exactly for the negative numbers of %d, and its digits read back as the absolute value |
| `FmtLaws.WideReads` | ibcs/ibcs-lib.c:559-592 | the digits have the value of the number cut to 32 bits, or to 64 with two modifiers |
| `FmtLaws.DigitsLetters` | ibcs/ibcs-lib.c:587-590 | digits above 9 are letters from a, or from A, on |
| `FmtLaws.NoLeadingZero` | ibcs/ibcs-lib.c:542-545 | no number but 0 begins with the digit 0 |
| `FmtLaws.Padded` | ibcs/ibcs-lib.c:612-645 | a text is padded to the minimum width with the padding character, behind it if it is left justified, else before it |
| `FmtLaws.CutKeeps` | ibcs/ibcs-lib.c:606-608 | the maximum width keeps the beginning of the text |
| `FmtLaws.StringsAndPercent` | ibcs/ibcs-lib.c:569-574 | %s prints its argument, and %% both of its characters |
| `Fmt.DigitCount` | ibcs/ibcs-lib.c:542-545 | a number has at most k digits if and only if it is below the k-th power of the base |
| `Fmt.WideFits` | ibcs/ibcs-lib.c:554-595 | 64 bits always fit the buffer in hexadecimal, and in octal if and only if they are below 2^60 |
| `Fmt.PutDigits` | ibcs/ibcs-lib.c:588-593 | the end of the buffer holds the digits of the number |
| `Fmt.PutDecimal` | ibcs/ibcs-lib.c:535-551 | the same for decimal numbers with their sign |
| `Fmt.Directive` | ibcs/ibcs-lib.c:483-521 | flags, widths and modifiers as specified |
| `Fmt.ConvertText` | ibcs/ibcs-lib.c:525-605 | the text of every conversion, the place after it and the arguments left |
| `Fmt.EmitJustified` | ibcs/ibcs-lib.c:609-645 | text and padding on the right side, as much as fits |
| `Fmt.EmitDirective` | ibcs/ibcs-lib.c:483-645 | after a directive the buffer holds a beginning of the unbounded output, all of it so far if there is room |
| `Fmt.LiteralOutput` | ibcs/ibcs-lib.c:464-479 | the unbounded output begins with everything up to the next '%' |
| `FmtSpec.SafeWithLess` | ibcs/ibcs-lib.c:463-480 | with less room no more directives are reached |
| `Fmt.Vfmt` | ibcs/ibcs-lib.c:440-651 | the first min(size-1, L) characters of the unbounded output and a null, and that count plus 1; the same number without a buffer; 0 for sizes 0 and 1 |
| `Fmt.Vwritef` | ibcs/ibcs-lib.c:687-693 | the two passes agree and the whole output is written; -1 bytes are asked for when it is empty |
| `Strtoul.SimpleStrtoul` | ibcs/linux26-compat.c:978-1010 | the value modulo 2^32 and the end, for every string and base |
| `Strtoul.DigitsValue` | ibcs/ibcs-lib.c:542-591 | the value of the digits of a number is the number |
| `Strtoul.ScanDigits` | ibcs/linux26-compat.c:995-1005 | scanning digits gives their value modulo 2^32, up to the first character that is no digit |
| `Strtoul.DigitsRead` | ibcs/linux26-compat.c:978-1010 | any digits that do not look like a prefix read as their value modulo 2^32, in any base |
| `Strtoul.PrefixReads` | ibcs/linux26-compat.c:982-991 | after 0x, 0X, 0o or 0O a number is read in base 16 or 8, whatever base was asked for |
| `Strtoul.NoBaseIsTen` | ibcs/linux26-compat.c:992-994 | base 0 is base 10 |
| `Strtoul.ReadsBack` | ibcs/linux26-compat.c:978-1010 | every unsigned 32-bit number in decimal or hexadecimal, zero padded to any width, reads back unchanged, with the end just after it |
| `Strtoul.PercentU` | ibcs/ibcs-lib.c:531-553 | what "%u" prints is read back in base 10 |
| `Strtoul.Percent08X` | ibcs/ibcs-lib.c:577-596 | what "%08x" prints has eight digits and is read back in base 16 |
| `XtiSpec.WholeIff` | per-svr4/xti.c:672-727 | length and offset go on agreeing with the messages if and only if the step puts nothing before a message partly read |
| `XtiSpec.OneAckInFront` | per-svr4/xti.c:880-1166 | each request puts exactly one acknowledgement or refusal of its own primitive at the very front; a confirmation at the back comes exactly with a granted bind or connect; a refusal keeps the state |
| `XtiLaws.AnswersRead` | per-svr4/xti.c:112-155 | the words a program reads in an acknowledgement and in a refusal |
| `XtiLaws.IndicationsRead` | per-svr4/xti.c:541-556 | the words of a connection indication and of a disconnection, and where the address is |
| `XtiLaws.RetypedReads` | per-svr4/xti.c:968-976 | a confirmation is the request with another first word |
| `XtiLaws.RefusedBind` | per-svr4/xti.c:985-1004 | which error words each error of the bind system call is reported with, and that the state stays |
| `XtiLaws.BindGranted` | per-svr4/xti.c:890-984 | a bind is granted exactly to an unbound endpoint whose address, if one is named, the system grants |
| `XtiLaws.BoundToListen` | per-svr4/xti.c:931-984 | bound with a backlog, an endpoint takes connections and can neither connect nor be bound again |
| `XtiLaws.BoundToConnect` | per-svr4/xti.c:955-1166 | bound without one, it connects and then transfers data, takes no connections, and cannot be bound again before it is unbound |
| `XtiLaws.FailedConnect` | per-svr4/xti.c:1141-1166 | a failed connection keeps the state and is told by a disconnection behind the acknowledgement |
| `XtiLaws.DeliverLength` | per-svr4/xti.c:673-674 | a read hands over as many bytes as there is room for, or all that are left |
| `XtiSpec.RunConserves` | per-svr4/xti.c:100-161 | in every run each message put is still queued or has left the queue once |
| `XtiSpec.CleanRunIsFaithful` | per-svr4/xti.c:672-727 | if no message is put before one partly read, what was handed over of each message read to its end is that message, and of each other one its beginning |
| `XtiSpec.UncleanRunGoesWrong` | per-svr4/xti.c:672-727 | after a run that puts a message before one partly read, some message was discarded or came out wrong, or the next one will run past its end |
| `XtiSpec.DeliveredIffClean` | per-svr4/xti.c:672-727 | a run in which every message is read to its end hands over each as it was put if and only if it puts no message before one partly read |
| `XtiSpec.HalfReadAnswer` | per-svr4/xti.c:685-724 | two requests with the first answer half read: of the second answer its second half is delivered, and then what is behind it |
| `Xti.Endpoint.constructor` | per-svr4/socksys.c:170-177 | an endpoint in the given state with an empty list |
| `Xti.Endpoint.PushFront` | per-svr4/xti.c:550-561 | the list is the old one with a message before it |
| `Xti.Endpoint.PushBack` | per-svr4/xti.c:979-981 | the list is the old one with a message behind it |
| `Xti.Endpoint.TimodOk` | per-svr4/xti.c:100-128 | an acknowledgement of the primitive at the front |
| `Xti.Endpoint.TimodError` | per-svr4/xti.c:130-161 | a refusal with both error numbers at the front |
| `Xti.Endpoint.Bind` | per-svr4/xti.c:881-1005 | queue and state are those of the machine for a bind request |
| `Xti.Endpoint.Connect` | per-svr4/xti.c:1029-1166 | queue and state are those of the machine for a connect request |
| `Xti.Endpoint.Unbind` | per-svr4/xti.c:1270-1273 | always granted |
| `Xti.Endpoint.UpdateSocket` | per-svr4/xti.c:468-567 | a connection indication at the front, exactly if a listening stream socket has a new connection |
| `Xti.Endpoint.GetControl` | per-svr4/xti.c:672-727 | bytes, foreign ones included, length, offset and list are those of the machine for a read of the given room |
| `Xti.Endpoint.Remove` | per-svr4/xti.c:1521-1526 | the front message leaves the list and the offset is reset |
| `Xti.Endpoint.ReadMessage` | per-svr4/xti.c:672-727 | reading to the end with any rooms of at least one byte gives the message, and the list loses exactly it |
| `Xti.Endpoint.Run` | per-svr4/xti.c:664-1273 | the linked list refines the machine over every sequence of requests, deliveries and discards |
| `Segments286.Segments.constructor` | x286/x286emul.c:360-367 | the limits that are set up, in 16 bits |
| `Segments286.Setup` | x286/x286emul.c:360-371 | when the program exits for want of stack space; else the limits are right, and the near segment ends below the stack if and only if the stack size, to 16 bits, is below the frame |
| `Segments286.RoomForStack` | x286/x286emul.c:367 | the 16-bit difference is below the stack if and only if the 16-bit stack size is |
| `Segments286.StackTooLarge` | x286/x286emul.c:367-371 | a set-up that passes the test with the near segment reaching above the stack |
| `Segments286.Segments.StkGro` | x286/emu_memory.c:31-57 | when it succeeds, the new limit of the near segment, that the limits stay right, and exactly when the segment is then below the stack |
| `Segments286.Segments.AddSegment` | x286/emu_memory.c:158-173 | a new, empty segment is made if and only if there is memory and a free descriptor |
| `Segments286.Segments.PickSegment` | x286/emu_memory.c:138-207 | which segment is changed or made, the answer to every request in scope, and that failing changes nothing |
| `Segments286.ExpectedIs` | x286/emu_memory.c:141-185 | a new segment is answered if and only if the increment is in range, there is memory and a descriptor is free; the last one is extended if it has room, and else a new one is made unless the small-data guard refuses |
| `Segments286.Segments.IntBrkctl` | x286/emu_memory.c:120-252 | the exact answer to every request in scope; a grow returns bytes not in use and adds exactly those, a shrink takes away exactly the bytes from its answer on; the exact condition for other requests, the increment -2^31 included, to keep the invariant |
| `Segments286.Segments.Brk` | x286/emu_memory.c:65-87 | when it succeeds, and the new limits |
| `Segments286.Segments.Run` | x286/emu_memory.c:31-252 | over every run of calls in scope, from any set-up, the invariant holds, every request is granted exactly when it should be, each grow adds and each shrink takes away exactly the range it returns, stack growth takes nothing away, and a near segment below the stack stays there |

## Left out

- `ShortInode.ShortInodeMap.Map`: does not model the semaphore around the call or the trace message; the steps of the walk are counted so that a loop without end can be reported, where the code would go on.
- `ShortInode.ShortInodeMap.MapAll`: inode 0xffffffff is the mark of an unused slot and is excluded from the claims about chains and numbers; the ring claims include it.
- `Heap.Allocator.Malloc`: only the allocator moves the break, brk requests succeed, addresses are not bounded above, and the semaphore is not modelled; a call that never returns is excluded by `Ends`, whose failure is proved to mean exactly that.
- `Heap.Allocator.Free`: the payload is one that was allocated and not freed since, as the caller must see to.
- `Path.NormalisePath`: needs room for two characters, as the code writes "." and a null without looking; the working directory is what the system call answers, absolute and without "..".
- `FilemapRun.FilemapMap`: if the rule that applies is one for a single file, its target fits the buffer, which the code copies without looking.
- `FilemapParse.LoadFile`: when a path or the next record is 64K or more from its record, the 16-bit offset is cut off and nothing is said of the list; opening, reading and memory succeed; the buffer starts at an even address.
- `SetFrame.SetFrame`: the strings and tables fit the 64K segment, which starts at an even address, as the code demands without looking.
- `ReadDir.Directory.Read`: errors of readdir, lseek and of the copy to the caller are left out; what an inode is mapped to is a function of the inode over the run, as `ShortInode.ShortInodeMap.MapAll` shows it to be while no slot is evicted.
- `Break.Mm.Run`: mremap succeeds, the lock is not modelled, and breaks lie two pages below the end of the 32-bit address space.
- `Fmt.Vfmt`: formats that overrun the 20-byte buffer or end after an `l` are excluded by `Safe` as far as such a directive is reached; widths and precisions do not overflow an int; a missing argument reads as 0 or the empty string.
- `Fmt.Vwritef`: the output is shorter than 2^31-1 and the write itself is not modelled.
- `Xti.Endpoint.Bind`: the address kludges, user memory faults and failing allocations are left out; the socket calls answer as the caller of the method says. The private data of the file exists.
- `Xti.Endpoint.GetControl`: the values of bytes behind a message are not modelled, only that they are not its own.
- `Xti.Endpoint.Run`: option management, T_CONN_RES, T_DISCON_REQ, T_DATA_REQ and T_UNITDATA_REQ forward to sockets and are not modelled.
- `Segments286.Segments.IntBrkctl`: a command other than 1 to 3 names a segment below 256, as the code indexes the table without looking.
- `Segments286.Setup`: descriptors with limits above 64K are not considered.
- `Segments286.Segments.Run`: descriptor updates of the processor are not modelled; the addresses of segments are the business of malloc.
- `Futex.EveryRun`: liveness under a fair scheduler is not stated beyond `Futex.FreeLockIsTaken`; writer locks are the same code (include/ibcs-us/linux26-compat/linux/rwsem.h:26-39).
- The fd table, loaders, signal trampolines, tables of system calls, errors and signals, and the copying of structures between layouts are not part of this model; they would add only easy members or need a model of the processor.
