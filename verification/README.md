# PennMUSH: locks, compression, attributes and message queues

This project models the parts of PennMUSH that compute something hard to get
right, and proves what they are for.

**Locks** (`src/boolexp.c`). A lock is parsed into a tree, the tree is
rewritten, labelled "assembly" is generated from it, jumps that land on jumps
are threaded, and five-byte instructions are emitted, followed by the strings
they use. A virtual machine runs the bytes, a decompiler turns them back into
text, and a cleanup overwrites tests of objects that are gone. Every test of the
outside world is an oracle that takes a state and returns an answer and a new
state, for any type of state: two evaluations that end in the same state for
every such oracle have made the same probes in the same order. The main results
are that the bytes compute the value of the tree that was parsed, with the same
probes in the same order and without ever leaving the instructions or their
strings (`CompileCorrect`); that this holds across a whole database of locks,
cleaned up or not, however they refer to each other and guard who may read them
(`DecideCompiledCorrect`); that locks which refer to each other in a ring are
shut and a chain of them which ends at no lock is open up to the limit
(`RingShut`, `ChainOpen`); that the parser takes exactly the phrases of the
grammar (`ParsesExactly`); that threading terminates, keeps the meaning from
every instruction on and leaves no jump on a jump; that reading the decompiled
text back gives the rewritten tree with its chains regrouped, and so the same
meaning (`DecompileParses`, `DecompileMeaning`), and that without the rewriting
it would be printed right exactly when no NOT stands over a NOT
(`DoubleNotMisprints`); exactly when what is read back compiles to the very same
bytes (`ReloadSame`), which rests on the bytes of a lock depending on nothing
but where its jumps end up (`ThreadLanded`, `CompileIsTreeBytes`); that cleaning
up keeps the meaning (`CleanupMeaning`), also when the cleaned lock is printed
and read back (`CleanedReadsBack`); and that the text the database conversion
tool prints for old locks is read as the same tree up to the regrouping of `|`
(`ConvertedLockReads`).

**Huffman compression** (`src/comp_h.c`). From any character counts: joining
gives a tree with the fewest bits for those counts (`HuffmanOptimalTree`);
squashing keeps it full and in order and never rotates around a missing child
(`FixDepthFull`); after the ones and end-of-string have been added every byte
has exactly one code (`TableComplete`), no code text has eight zeros in a row
(`StreamNoEightZeros`); and every text that fits the buffer survives being
compressed, stored up to the first zero byte, and decompressed
(`HuffmanRoundTrip`). The codes of the finished tree are exactly those of the
squashed one with the ones put in (`FinishedCodes`), so initialisation gives up
exactly if one of these is too long (`ShortCodesExactly`); squashing leaves a
tree alone exactly if it has no lopsided node (`LeftAlone`), and makes chains
short enough that were not (`ChainSquashed`). That no code is too long holds
when the depth that squashing measures is at most 23, and there are trees
measured at 24 and at 25, the limit, for which it does not (`SquashedFits`,
`SquashedTooLong`). A joined tree no deeper than 20 is taken as it is, without
squashing, and all its codes are short enough (`ShallowFits`); it is no deeper
when no character makes up less than one in 28657 of the text, because a
cheapest tree that is deep must weigh at least a Fibonacci number of times its
rarest character (`DeepIsHeavy`, `NoneRareShallow`). The loops that pack and
unpack bits, and the linked nodes that are rotated and spliced in place, are
proved against these definitions.

**Word compression** (`src/comp_w8.c`). One table of words serves every string
ever compressed. Over any run, a text comes back from its compressed string at
the end of the run if and only if each marker byte in it closes a word that was
found in the table or put into it (`RunBack`, `BackExactly`); a text without the
marker always does. A word that has a slot goes out as three bytes
(`WordLength`), and an equal text is compressed to the same bytes ever after
(`CompressAgain`).

**Attributes** (`src/attrib.c`). An object's attributes are a sorted array that
is also a forest of names. Over any run of adding, clearing and wiping every
parent is present, the root flag says which names have something below them, and
the object stays within its limit (`RunsKeepForest`); wiping leaves exactly the
names with something unwritable at or below them (`WipeCharacterised`), which
the loop that deletes from the array while walking along it is proved to do
(`AtrClearChildren`); clearing takes one attribute away, and only if nothing is
below it (`ClearCharacterised`); and the text found under a name at the end of a
run is the one that was set last and has not been taken away since
(`AtrAddStores`, `RunText`).

**Message queues** (`src/bufferq.c`). Over any run of adding and resizing, the
bytes in use fit the buffer and parse as the latest of the messages that were
taken in (`RunKeeps`), and none is lost exactly if all of them always fit
(`NothingLost`).

## How it is laid out

Each part has a module of definitions with its theorems, and modules of methods
that work as the C code does, each proved to do what a definition says. `Bytes`
has bytes, C strings and ints in memory. Locks: `LockTree` (trees, meaning,
rewriting), `LockAsm` (code generation), `JumpThreading`, `LockBytecode`
(emission, the machine), `LockCompiler` (the whole compiler), `LockBuilder` (the
compiler in place), `LockGrammar` (tokens, the parser), `LockPhrases` (what it
takes), `LockDecompile`, `LockStored` and `LockUnparse` (the decompiler),
`LockLanding` (where jumps end up), `LockReload` (printing, reading back and
compiling again), `EvalLocks`, `LockCleanup`, `CleanedLocks`, `IndirectLocks`,
`OldLocks`. Huffman: `HuffmanTree`, `HuffmanCodes`, `HuffmanCodec`,
`HuffmanOptimal`, `HuffmanTable`, `HuffmanDepth`, `HuffmanLength`,
`HuffmanSquash` and, in place, `HuffmanNodes`, `HuffmanInit`, `HuffmanText`.
Words: `WordComp`, `WordTable`. Attributes: `AttrNames`, `AttrForest`,
`AttrRuns`, `AttrStore`, `AttrAccess`, `AttrWipe`, `AttrAdd`. Queues:
`BufferQueue`, `BufferStore`.

`dafny verify dfyconfig.toml` checks everything.

## Where the code and its documentation differ

The model follows the code.

- The comment at the head of `src/boolexp.c` (lines 69-80) says that jump
  threading is the only optimization; `optimize_bvm_ast` (line 1717) also folds
  `!!x`, `!#true`, `!#false` and `=#n|+#n`.
- That rewriting is not idempotent: `!!=#1|+#1` exposes a new pair, which the
  code leaves (`OptimizeNotIdempotent`). A second pass changes nothing exactly
  when no OR of the lock as written, other than a pair, becomes one once the
  NOTs over its sides cancel out (`OptimizeTwice`).
- `TYPE^` with a letter that is none of R, E, T and P leaves the result
  register as it was (`src/boolexp.c` lines 557-576), so the meaning of a tree
  takes the register that it starts with.
- The comment at the head of `src/comp_w8.c` says that the high bit of all text
  is stripped and that a word takes two bytes; the code keeps eight bits and
  puts a marker byte in front. The marker is said to be the one character that
  cannot be represented (lines 126-128), but it comes back where it ends a word
  that goes into the table (`BackExactly`); on its own it is lost (`MarkerLost`).
- `fix_tree_depth` promises no depth, and measures a one for every eight zeros
  where `add_ones` puts one in after seven, and none for the one that is forced
  on the left edge. A tree that it leaves alone as no deeper than CODE_BITS can
  therefore have codes of up to two bits more (`SquashedFits`,
  `SquashedTooLong`); a code that is too long ends initialisation
  (`src/comp_h.c` lines 267-271), which the model's `HuffInitCompress` reports.
- Saving and loading a database need not give a lock its bytes back, although it
  keeps its meaning: `!((=#1&=#2)&=#3)` and `(=#2|=#1)|+#1` come back different
  (`ReloadDiffers`).
- The parser does not look at what comes after a phrase (`src/boolexp.c` line
  1929), so that `#1)` is read as `#1` (`ParsesExactly`); and for a text that it
  refuses it returns what stands for no lock (lines 1930-1931), which everyone
  passes (`NoLockIsTrue`). That is for its callers to notice.
- `reallocate_bufferq` gives more bytes per line than `allocate_bufferq`
  (`src/bufferq.c` lines 116 and 151), so a queue that is resized to as many
  lines as it has still changes size (`ResizedLarger`).
- `shift_bufferq` frees room for the whole new message, not only for what does
  not fit; its fault message (lines 89-96) cannot come up (`FindKept`).

## Model

| member | source | states |
|---|---|---|
| Bytes.DecodeEncode | src/boolexp.c:1893-1895 | an int written as four bytes and read back is the same int |
| LockTree.EvalIsTruth | src/boolexp.c:1517-1584 | where every test comes out one way and changes nothing, the value of a lock is that of the formula of logic it is written as |
| LockTree.ObjectTests | src/boolexp.c:451-476 | tests of an object that is gone fail and ask nothing; of one that is there, `x` passes whom `=x` or `+x` does, and only `$x` and `@x/lock` ask |
| LockTree.TypeNamed | src/boolexp.c:557-576 | `TYPE^` with the name of a type, in either case, passes exactly the objects of that type, whatever was evaluated before |
| LockTree.TypeUnknown | src/boolexp.c:557-576 | with any text that begins like none of them it passes just if what was evaluated before did |
| LockTree.OptimizePreservesMeaning | src/boolexp.c:1717-1771 | rewriting a lock changes neither its value, from any incoming result register, nor the probes and their order, in any world |
| LockTree.OptimizeSettlesNots | src/boolexp.c:1717-1771 | after rewriting no NOT stands over a NOT or a constant |
| LockTree.OptimizeFixedPoints | src/boolexp.c:1717-1771 | rewriting leaves a tree alone if and only if it has no such NOT and no `=x` OR `+x` pair |
| LockTree.OptimizeShrinks | src/boolexp.c:1717-1771 | rewriting never makes a tree larger |
| LockTree.OptimizeTwice | src/boolexp.c:1717-1771 | a second rewriting changes nothing if and only if, in the lock as written, no OR other than a pair becomes a pair when pairs of NOTs over its sides are dropped |
| LockTree.OptimizeNotIdempotent | src/boolexp.c:1717-1771 | a lock for which a second rewriting does change something |
| LockAsm.GenExtends | src/boolexp.c:1517-1584 | generating code only adds to the code, the strings and the labels there are, and adds at least one instruction |
| LockAsm.GenLabels | src/boolexp.c:1439-1584 | all labels in the code of a tree are different and from the range handed out for it |
| LockAsm.GenJumps | src/boolexp.c:1517-1584 | every jump in the code of a tree has its label further on in it |
| LockAsm.GenStrings | src/boolexp.c:1456-1584 | string numbers are those of stored strings, a test that uses the string register comes right after a LOADS, and nothing returns |
| LockAsm.GenerateWellFormed | src/boolexp.c:1591-1610 | generated code has these properties as a whole and ends in its only RET |
| LockAsm.GenRuns | src/boolexp.c:1517-1584 | the code of a tree, wherever it stands, leaves the tree's value in the result register, having made the same probes in the same order |
| LockAsm.GenerateCorrect | src/boolexp.c:1591-1610 | running generated code gives the value of the tree |
| JumpThreading.ThreadOnceThreadable | src/boolexp.c:1796-1829 | one threading step keeps labels unique and every jump going forward |
| JumpThreading.ThreadOnceDecreases | src/boolexp.c:1785-1830 | it leaves less code beyond where the jump lands, which is why revisiting a jump terminates although labels are inserted |
| JumpThreading.ChainRuns | src/boolexp.c:1803-1808 | sending a jump on along a jump of the same kind changes neither result nor probes |
| JumpThreading.BypassRuns | src/boolexp.c:1809-1824 | sending it to a new label behind a jump of the other kind does not either |
| JumpThreading.ThreadRuns | src/boolexp.c:1785-1830 | threading changes neither result nor probes, from whichever instruction the code is run |
| JumpThreading.MovedToOrder | src/boolexp.c:1785-1830 | threading keeps the instructions in order and their opcodes |
| JumpThreading.ThreadFinishes | src/boolexp.c:1785-1830 | when it is done no jump lands on a jump |
| JumpThreading.ThreadSkeleton | src/boolexp.c:1785-1830 | it changes nothing but labels and where jumps go |
| JumpThreading.ThreadWellFormed | src/boolexp.c:1785-1830 | threaded code is still well formed |
| LockBytecode.OpNumber | src/boolexp.c:177-202 | opcode numbers can be decoded |
| LockBytecode.EmittedString | src/boolexp.c:1660-1673 | the offset of a string is where exactly that zero-terminated string starts, behind the instructions |
| LockBytecode.JumpGoes | src/boolexp.c:1640-1651 | a jump's final argument counts the instructions before its label, which is ahead |
| LockBytecode.DecodeInsn | src/boolexp.c:1837-1907 | each emitted instruction decodes to its opcode and final argument at five times its number |
| LockBytecode.EmitRuns | src/boolexp.c:1837-1907 | the machine on the bytes does what the assembly does, and stays safe |
| LockBytecode.SafeAt | src/boolexp.c:424-603 | at each instruction executed, its address is a multiple of five inside the instruction section, its strings start in the string section, and the string register is what the LOADS just before it put there |
| LockBytecode.DoTest | src/boolexp.c:445-603 | the interpreter's cases set the result register as specified |
| LockCompiler.AssembleEmittable | src/boolexp.c:1920-1948 | what is emitted is well formed and fits |
| LockCompiler.AssembleThreaded | src/boolexp.c:1920-1948 | in what is emitted no jump lands on a jump |
| LockCompiler.CompileCorrect | src/boolexp.c:1516-1948 | for every lock and world, running the compiled bytes from R=0 gives the value of the lock as parsed, with the same probes in the same order, safely throughout |
| LockBuilder.OptimizeBvmAst | src/boolexp.c:1717-1771 | the in-place rewriting of tree nodes does the specified rewriting |
| LockBuilder.OptimizeNot | src/boolexp.c:1748-1767 | the cases of NOT, on the nodes |
| LockBuilder.BvmAsm.AppendInsn | src/boolexp.c:1456-1508 | a new node with the instruction is linked behind the tail of the list, which reads as before with the instruction at its end |
| LockBuilder.BvmAsm.AppendInsnString | src/boolexp.c:1456-1508 | a string is looked for among those stored and stored only if it is new |
| LockBuilder.BvmAsm.GenerateBvmAsm1 | src/boolexp.c:1517-1584 | the recursive generator produces the specified code, with parentheses by the outer node |
| LockBuilder.BvmAsm.GenerateBvmAsm | src/boolexp.c:1591-1610 | and ends it with RET |
| LockBuilder.BvmAsm.InsnAfterLabel | src/boolexp.c:1682-1695 | finds the node that a jump to a label goes to, and follows no null pointer on the way |
| LockBuilder.BvmAsm.OptimizeBvmAsm | src/boolexp.c:1785-1830 | the loop over the list, which stays on a jump it has changed, does the specified threading |
| LockBuilder.BvmAsm.FindPosOfLabel | src/boolexp.c:1640-1651 | counts the instructions before a label |
| LockBuilder.BvmAsm.OffsetToString | src/boolexp.c:1660-1673 | adds up the lengths of the strings before one |
| LockBuilder.BvmAsm.EmitBytecode | src/boolexp.c:1837-1907 | the emission loops write the specified bytes, although they overwrite the arguments of the list with final ones as they go |
| LockBuilder.CompileLock | src/boolexp.c:1920-1948 | all stages in place give the specified bytes |
| LockGrammar.Parser.E | src/boolexp.c:1407-1430 | the descent for OR parses as specified and never goes back |
| LockGrammar.Parser.T | src/boolexp.c:1380-1403 | the descent for AND |
| LockGrammar.Parser.F | src/boolexp.c:1361-1376 | the descent for NOT, parentheses and atoms |
| LockGrammar.PrintParses | src/boolexp.c:1361-1430 | printed tokens parse to the end as the tree with its chains regrouped to the right, in the server's printing style and in that of the conversion tool |
| LockGrammar.NestMeaning | src/boolexp.c:1380-1430 | regrouping chains keeps the meaning and the probes |
| LockPhrases.ParsesExactly | src/boolexp.c:1361-1430 | the parser makes a tree of what a text begins with if and only if that is a phrase of the grammar which stands for the tree and is not gone on with; what is left is not looked at |
| LockPhrases.ParsedMatched | src/boolexp.c:1172-1184 | in a text that is parsed to its end every parenthesis is matched |
| LockPhrases.OpenRefused | src/boolexp.c:1172-1184 | `(#1` is refused |
| LockPhrases.ParensNeeded | src/boolexp.c:1517-1584 | the parentheses that are generated, and printed, are needed: without them the NOT in front or the AND behind would take in a part of what they are around |
| LockDecompile.UnparseGen | src/boolexp.c:699-841 | decompiling the code of any tree shows its tokens with the `!` of a NOT over a NOT behind what is negated and every other one in front |
| LockDecompile.DecompiledIsPrint | src/boolexp.c:717-735 | those are the tokens of the printed tree if and only if no NOT stands right over a NOT |
| LockDecompile.AfterCloseSkips | src/boolexp.c:745-762 | the search for a closing parenthesis passes over the code of any subtree |
| LockDecompile.GenParensMatched | src/boolexp.c:745-762 | every opening parenthesis in generated code finds its closing one with something after it |
| LockStored.StoredIs | src/boolexp.c:1837-1907 | the bytes at five times i are the i-th instruction of the rewritten tree without its labels, with its string |
| LockUnparse.UnparseBoolexp | src/boolexp.c:699-841 | the decompiler's loop prints what is specified |
| LockUnparse.ShowInsn | src/boolexp.c:717-835 | one turn of it, with the NEGR look-ahead |
| LockUnparse.FindClose | src/boolexp.c:745-762 | the inner search finds just past the matching parenthesis |
| LockUnparse.DecompilePrints | src/boolexp.c:699-841 | what is decompiled from a compiled lock is the printed rewritten tree |
| LockUnparse.DecompileParses | src/boolexp.c:699-841 | parsing it gives the rewritten tree with its chains nested to the right, using up all the text |
| LockUnparse.DecompileMeaning | src/boolexp.c:699-841 | so the lock that is read back means what the lock first parsed meant |
| LockUnparse.DoubleNotMisprints | src/boolexp.c:699-841 | code generated for a tree without rewriting it decompiles to the printed tree if and only if no NOT stands right over a NOT |
| EvalLocks.IsEvalLock | src/boolexp.c:1996-2014 | the scan says whether softcode tests are ahead |
| EvalLocks.EvalLockFound | src/boolexp.c:1996-2014 | for a compiled lock that is if and only if the lock as parsed has an eval or indirect part |
| EvalLocks.EvalTests | src/boolexp.c:1995-2015 | to have such a part is to have such a test |
| EvalLocks.HasEvalOptimize | src/boolexp.c:1717-1771 | rewriting neither adds nor removes such parts |
| LockLanding.ThreadLanded | src/boolexp.c:1785-1830 | jump threading changes where no jump ends up |
| LockLanding.EmitLanded | src/boolexp.c:1837-1907 | once no jump lands on a jump, the bytes are given by the instructions, where their jumps end up, and the strings |
| LockReload.GenLaid | src/boolexp.c:1517-1584 | where the jumps in the code of a tree end up is a function of the tree and of what follows it |
| LockReload.CompileIsTreeBytes | src/boolexp.c:1517-1948 | so the bytes of a compiled lock, through all the stages, are a function of its rewritten tree that uses no labels |
| LockReload.NestLaid | src/boolexp.c:1380-1584 | regrouping its chains changes nothing in the code of a tree in which no chain that gets parentheses starts with a group of its own kind |
| LockReload.NestDiffers | src/boolexp.c:1380-1584 | and in any other tree it makes some jump end up in another place |
| LockReload.RewrittenReload | src/boolexp.c:699-1948 | a compiled lock, regrouped and compiled again, has the same bytes if and only if its rewritten tree is like that and regrouping brings no `=x` OR `+x` pair together |
| LockReload.ReloadSame | src/boolexp.c:699-1948 | a compiled lock that is printed, read back and compiled again has the same bytes if and only if, as it was written, no chain of it that gets parentheses starts with a group of its own kind, and no chain of ORs ends in a pair that is not folded as it stands |
| LockReload.ReloadDiffers | src/boolexp.c:699-1948 | a lock for each half of that which does come back with other bytes |
| LockCleanup.CleanupBoolexp | src/boolexp.c:2240-2282 | overwriting in place does what is specified, and it is reported if and only if something changed |
| LockCleanup.OverwriteRuns | src/boolexp.c:2252-2273 | overwriting one test of a dead object changes neither result nor probes, and stays safe |
| LockCleanup.CleanedLeavesNone | src/boolexp.c:2240-2282 | no test of a garbage object is left |
| LockCleanup.CleanupMeaning | src/boolexp.c:2240-2282 | a cleaned compiled lock still has the meaning of the lock as parsed |
| LockCleanup.CleanupsMeaning | src/boolexp.c:2240-2282 | and so does one that has been cleaned up any number of times, of different objects |
| CleanedLocks.CleanedScrubs | src/boolexp.c:2252-2273 | cleaning up leaves each instruction as it was or, if it tests a garbage object, makes it load false, and leaves the strings alone |
| CleanedLocks.UnparseScrubbed | src/boolexp.c:699-841 | decompiling cleaned bytes prints what it would have printed before, with `#false` in place of each test that is gone |
| CleanedLocks.PruneMeaning | src/boolexp.c:2252-2273 | a tree with `#false` for each test of a dead object has the same meaning and makes the same probes |
| CleanedLocks.PruneTests | src/boolexp.c:2252-2273 | the tests left in it are exactly those that are not of a dead object |
| CleanedLocks.CleanedParses | src/boolexp.c:2240-2282 | the text of a cleaned compiled lock parses to the end as the rewritten tree with `#false` for each test of a garbage object and its chains nested to the right |
| CleanedLocks.CleanedReadsBack | src/boolexp.c:2240-2282 | the lock read back from a cleaned one means what the lock first parsed meant |
| IndirectLocks.DecideCompiledCorrect | src/boolexp.c:394-609 | for any database of locks that refer to each other and guard each other as Examine, Zone and Control locks, cycles included, running the compiled locks, as cleanups have left them, decides what the trees say with the same probes in the same order |
| IndirectLocks.SoftcodeLevel | src/boolexp.c:478-494 | softcode that a test on an attribute runs finds the level of evaluation raised, so that locks it evaluates come under the same limit |
| IndirectLocks.RingShut | src/boolexp.c:405-411 | locks that are nothing but indirect locks on one another are shut, whatever the ring they form and whoever may read them |
| IndirectLocks.RingQuiet | src/boolexp.c:465-477 | and ask nothing, if no lock has to be evaluated to say who may read them |
| IndirectLocks.RingShutCompiled | src/boolexp.c:394-477 | and so it is when they are compiled and cleaned up |
| IndirectLocks.NoLockIsTrue | src/boolexp.c:402-413 | where there is no lock, the outcome is that of the lock `#true`, as a tree and compiled: whoever is a good object passes, unless the evaluation is too deep |
| IndirectLocks.ChainOpen | src/boolexp.c:405-477 | a chain of indirect locks that may be read, which ends where there is no lock, is open if and only if all of it is within the limit, and asks nothing |
| IndirectLocks.ChainOpenCompiled | src/boolexp.c:394-609 | and so it is when compiled and cleaned up |
| IndirectLocks.WhoMayRead | hdrs/lock.h:104-106 | where evaluating locks changes nothing, a lock may be read if and only if some granting fact holds or some lock that grants it is passed, in whatever order they are tried |
| IndirectLocks.LockedOut | hdrs/lock.h:104-106 | who has no granting fact and passes none of these locks, whatever evaluating them changes, may not read it |
| IndirectLocks.Evaluator.EvalBoolexp | src/boolexp.c:394-609 | the evaluator terminates, decides as specified, and puts the recursion counter back |
| IndirectLocks.Evaluator.Interpret | src/boolexp.c:424-609 | the interpreter loop runs the bytes as specified |
| IndirectLocks.Evaluator.Cycle | src/boolexp.c:425-603 | one turn of it |
| IndirectLocks.Evaluator.Indirect | src/boolexp.c:465-477 | an indirect test finds out whether the lock may be read and decides it, both one level deeper than the counter it has raised, and puts it back |
| IndirectLocks.Evaluator.CanReadLock | hdrs/lock.h:104-106 | who sees all, controls the object, or passes the Examine lock of what is visual may read a lock, and finding out makes the specified probes |
| IndirectLocks.Evaluator.Control | src/predicat.c:377-422 | what flags and ownership leave open is settled by the zone's lock, the zone master's and the object's own Control lock, in that order |
| OldLocks.PrintOldIsPrint | dbtools/boolexp.cpp:30-212 | the conversion tool's print methods print the tree in their own style of parentheses |
| OldLocks.ConvertedLockReads | dbtools/boolexp.cpp:179-193 | the server reads a converted lock to the end as the old tree with its chains of OR regrouped, and as the very same tree if and only if no OR was the left part of an OR |
| OldLocks.ConvertedLockMeaning | dbtools/boolexp.cpp:179-193 | so the converted lock means what the old one meant |
| HuffmanTree.PrefixFree | src/comp_h.c:252-278 | no code is the beginning of another |
| HuffmanTree.FixDepthFull | src/comp_h.c:185-218 | squashing keeps a tree full and its leaves in order, and at each node rotates only when all the subtrees that it moves are there |
| HuffmanNodes.RotateRight | src/comp_h.c:198-202 | the pointer assignments rotate right and keep the nodes separate |
| HuffmanNodes.RotateLeft | src/comp_h.c:209-213 | and left |
| HuffmanNodes.FixTreeDepth | src/comp_h.c:185-218 | squashing linked nodes in place does the specified squashing and returns its depth |
| HuffmanNodes.ForceFirstOne | src/comp_h.c:456-468 | splices a one in at the fifth position of the left edge, or where the edge ends |
| HuffmanNodes.AddOnesBelow | src/comp_h.c:222-248 | splices ones in as specified |
| HuffmanNodes.AddEosBelow | src/comp_h.c:481-495 | adds end-of-string down the left edge |
| HuffmanNodes.FinishTree | src/comp_h.c:448-495 | all three together |
| HuffmanCodes.ForceOneLeaves | src/comp_h.c:456-468 | forcing the one keeps the leaves in order |
| HuffmanCodes.AddOnesLeaves | src/comp_h.c:222-248 | and so does adding ones |
| HuffmanCodes.SoundCode | src/comp_h.c:448-472 | with its ones, every code contains a one and has at most four zeros at its front, two at its end, and seven in a row |
| HuffmanCodes.FinishCodes | src/comp_h.c:478-495 | adding end-of-string adds the code of exactly eight zeros and changes no other |
| HuffmanCodes.StreamNoEightZeros | src/comp_h.c:448-472 | no sequence of such codes has eight zeros in a row anywhere |
| HuffmanOptimal.SwapCheaper | src/comp_h.c:394-428 | moving the lighter of two weights to the deeper leaf costs nothing |
| HuffmanOptimal.ExchangeTwoLeast | src/comp_h.c:394-428 | for every tree there is one with the two least weights joined that is cheaper by what the join costs |
| HuffmanTable.SortFromSorts | src/comp_h.c:378-388 | the insertion sort sorts by falling count and keeps the forest |
| HuffmanTable.MergeKeepsForest | src/comp_h.c:415-418 | joining the two lightest trees keeps all characters and a best tree in reach |
| HuffmanTable.JoinOnceKeeps | src/comp_h.c:402-428 | after the joined tree has been put back the table is sorted again |
| HuffmanTable.HuffmanOptimalTree | src/comp_h.c:378-428 | the tree has each character other than end-of-string at exactly one leaf and, of all trees that do, takes the fewest bits for the counts |
| HuffmanInit.FillTable | src/comp_h.c:311-324 | the table starts with a leaf for each character |
| HuffmanInit.SortTable | src/comp_h.c:378-388 | the sorting loops sort the table as specified |
| HuffmanInit.JoinTable | src/comp_h.c:402-428 | the joining loop leaves the specified tree in place 1 |
| HuffmanInit.SquashAndFinish | src/comp_h.c:438-495 | parts 4(c) to 4(e) on the nodes |
| HuffmanInit.AdjustedCounts | src/comp_h.c:348-369 | a closing bracket counts as often as an opening one, a newline a sixteenth as often, character 255 once less, and every other as often as it was counted |
| HuffmanInit.BuildTree | src/comp_h.c:292-495 | the whole construction gives the finished squashed tree of the adjusted counts, over all characters |
| HuffmanDepth.ShallowFits | src/comp_h.c:185-278 | a joined tree of depth 20 or less is left as it is by squashing, and its finished codes are no longer than CODE_BITS |
| HuffmanDepth.UncleHeavier | src/comp_h.c:394-428 | in a cheapest tree no part of one side of a node weighs more than the other side |
| HuffmanDepth.DeepIsHeavy | src/comp_h.c:394-428 | a cheapest tree of depth n, with no count below m, weighs at least m times the Fibonacci number of n + 2 |
| HuffmanDepth.NoneRareShallow | src/comp_h.c:378-428 | so if no character makes up less than one in 28657 of the text the joined tree is no deeper than 20 |
| HuffmanLength.FinishedCodes | src/comp_h.c:222-248 | the codes of the finished tree are exactly those of the squashed one, with a one after the zeros that lead to where it is forced, after each seven zeros, and at the end after three or more, and eight zeros for end-of-string |
| HuffmanLength.FinishedCodeIs | src/comp_h.c:453-468 | which code that is depends on nothing else in the tree: the forced one comes after four zeros, or at the end of a code that is all zeros and shorter |
| HuffmanLength.ShortCodesExactly | src/comp_h.c:252-278 | no code of the finished tree is too long if and only if none of the squashed tree is with these ones in it |
| HuffmanLength.DepthIsMeasure | src/comp_h.c:185-218 | the depth that squashing returns is the measure of the tree that it leaves, rotated or not |
| HuffmanLength.SquashedFits | src/comp_h.c:185-278 | a tree squashed to CODE_BITS has finished codes at most two bits longer than that depth, and one squashed to CODE_BITS - 2 has none that is too long |
| HuffmanLength.SquashedTooLong | src/comp_h.c:185-278 | trees that squashing leaves alone at depths CODE_BITS - 1 and CODE_BITS, with a finished code two bits longer, which is too long |
| HuffmanSquash.LeftAlone | src/comp_h.c:185-218 | squashing leaves a tree alone if and only if no node of it has, where it is, one side measured beyond CODE_BITS and more than one above the other |
| HuffmanSquash.ChainSquashed | src/comp_h.c:185-218 | chains of 26 to 30 nodes have a code that is too long as they stand, and are squashed to trees of depth CODE_BITS that have none |
| HuffmanText.TableComplete | src/comp_h.c:252-278 | every byte labels exactly one leaf of the finished tree, the table holds the one path to it, and that of end-of-string is eight zeros |
| HuffmanText.BuildCtable | src/comp_h.c:252-278 | the recursion fills both arrays from the tree, and stops if and only if a code is longer than CODE_BITS |
| HuffmanText.HuffInitCompress | src/comp_h.c:292-514 | initialisation returns if and only if no code of the squashed tree is longer than CODE_BITS with the ones that are put in; then the arrays hold the code table, and all lengths are from 1 to CODE_BITS; it takes the joined tree as it is if and only if no node of it is lopsided; it does return if the measured depth is at most CODE_BITS - 2, or the joined tree is no deeper than 20, as it is when no character is rare |
| HuffmanText.CountBits | src/comp_h.c:78-82 | the counting pass counts the bits that the packing pass writes |
| HuffmanText.StageFits | src/comp_h.c:32-35 | what is on the stage always fits CODE_BITS + CHAR_BITS - 1 bits |
| HuffmanText.PutCode | src/comp_h.c:91-99 | putting one code on the stage and emptying full bytes packs its bits |
| HuffmanText.PutEos | src/comp_h.c:104-109 | the last bytes fill the buffer to exactly the length computed before |
| HuffmanText.HuffTextCompress | src/comp_h.c:70-112 | the bytes written are the packed codes of the text, filled up with zeros to the computed length |
| HuffmanText.WalkTree | src/comp_h.c:118-135 | one step of the decoder, which goes on, returns, or reports that the child is not there |
| HuffmanText.HuffTextUncompress | src/comp_h.c:156-182 | on any bytes the decoder returns with the specified string in the buffer, comes to a missing child, or runs past its input, exactly when it is specified to |
| HuffmanCodec.FullByteNotZero | src/comp_h.c:448-452 | no byte that is all code is zero |
| HuffmanCodec.CompressedLength | src/comp_h.c:78-86 | the compressed bytes are the fewest that the code of the text and eight zeros fit in |
| HuffmanCodec.StoredLength | src/comp_h.c:70-112 | what is stored ends with the last byte that has code in it, and the zero |
| HuffmanCodec.StoredKeepsCode | src/comp_h.c:70-112 | cutting at the first zero byte keeps all bits of the code |
| HuffmanCodec.WalkText | src/comp_h.c:118-182 | the decoder gives the text and at most one end-of-string after it, although the last byte may have been cut |
| HuffmanCodec.RoundTrip | src/comp_h.c:69-182 | compress, store as a C string, decompress: the text comes back, no missing child is stepped to, and nothing is read past the zero byte |
| HuffmanText.HuffmanRoundTrip | src/comp_h.c:69-514 | the same with the tree and table made from any counts |
| WordComp.FindStored | src/comp_w8.c:179-188 | searching finds a slot if and only if the word is in it |
| WordComp.WordsDistinct | src/comp_w8.c:177-214 | no word is in two slots |
| WordComp.PutWordOk | src/comp_w8.c:162-220 | putting a word keeps all this, changes no taken slot, puts out no zero and no more bytes than the word has |
| WordComp.WordLength | src/comp_w8.c:162-220 | a word of more than three characters for which there is a slot that has it or is free, among those where it is searched for, goes out as the three bytes for that slot, and any other as it is |
| WordComp.EmptyHasPlace | src/comp_w8.c:177-214 | in an empty table there is such a slot for every word |
| WordComp.CompressAgain | src/comp_w8.c:234-269 | with any later table an equal text is compressed to the same bytes, and the table stays as it is |
| WordComp.CompressedBack | src/comp_w8.c:234-329 | a compressed text decompresses with any later table |
| WordComp.BackExactly | src/comp_w8.c:126-329 | a compressed text decompresses to itself, with any later table, if and only if each marker in it closes a word of more than three characters that was found in the table or put into it |
| WordComp.MarkerLost | src/comp_w8.c:126-128 | a text for which that fails, and which is lost: the marker alone |
| WordComp.RunBack | src/comp_w8.c:161-329 | over any run of texts, each comes back at the end under exactly that condition, and every one without the marker does; compressed strings have no zero and are no longer than their texts |
| WordTable.WordTable.HashFn | src/comp_w8.c:359-369 | the hash in 32-bit arithmetic |
| WordTable.WordTable.Search | src/comp_w8.c:179-202 | the probe loop ends where the search does, and never at a free slot with a zero low byte |
| WordTable.WordTable.OutputPreviousWord | src/comp_w8.c:162-220 | puts the gathered word out and into the table as specified |
| WordTable.WordTable.WordTextCompress | src/comp_w8.c:234-269 | the loop over the text leaves the specified table and output, within the buffers |
| WordTable.WordTable.WordTextUncompress | src/comp_w8.c:285-329 | the loop gives the specified text, and panics exactly when a word is missing |
| AttrNames.BelowTogether | src/attrib.c:122-144 | the names below one come together in strcmp order |
| AttrNames.BetweenBelow | src/attrib.c:130-141 | a name between another and one below it begins with it and goes on with a character no later than the backtick |
| AttrForest.WellFormedByChildren | src/attrib.c:122-144 | the invariant holds if and only if every parent is present and each root flag says whether there is an immediate child |
| AttrForest.GoodNameParts | src/attrib.c:88-107 | a name below another is good if and only if that one is, its last part is neither empty nor has characters that names may not have, and it is not too long |
| AttrForest.GoodAbove | src/attrib.c:88-107 | all that a good name is below is good |
| AttrForest.WhoMayWrite | src/attrib.c:383-403 | God may write to every attribute; a wizard to what neither is nor is below anything internal or, if that counts, safe; anyone else besides only to what is neither kept by wizards nor locked by others, all the way up |
| AttrForest.CreatedKeys | src/attrib.c:945-988 | creating an attribute adds its name and the missing names above it, and nothing else |
| AttrForest.CreatedWellFormed | src/attrib.c:945-988 | creating one keeps the forest in order if and only if its own flags do not say it is a root |
| AttrForest.WipeCharacterised | src/attrib.c:1027-1146 | wiping a present, writable attribute that is not safe leaves, at or below it, exactly the names with something unwritable at or below them; it succeeds if and only if none is left; nothing else changes but the parent's root flag |
| AttrForest.ClearCharacterised | src/attrib.c:1090-1146 | clearing a present, writable attribute that is not safe takes it alone away, and refuses, changing nothing, if and only if something is below it; nothing else changes but the parent's root flag |
| AttrForest.RemovalRefused | src/attrib.c:1090-1106 | clearing or wiping an attribute that is absent, safe, or not to be written to changes nothing, and says which it is |
| AttrForest.RemovedWellFormed | src/attrib.c:1090-1146 | clearing and wiping keep the forest in order |
| AttrForest.AtrAddStores | src/attrib.c:923-1019 | setting an attribute either changes nothing or leaves it with the text as given, the setter's owner as its creator, and the flags it had, or its defaults, but for the two that the text decides; every other attribute keeps its text and creator, names above a new one are marked as roots, and what is new besides are those of them that were missing |
| AttrForest.AtrAddOutcome | src/attrib.c:923-1019 | and which of these it is, by the name, the permissions on it and all it is below, and the limit |
| AttrForest.HasColonMeans | src/attrib.c:840-860 | the colon that makes a text a command is one that an even number of backslashes comes right before |
| AttrForest.AtrAddKeeps | src/attrib.c:923-1019 | adding keeps it in order, and the object within its limit |
| AttrRuns.RunsKeepForest | src/attrib.c:922-1173 | over any run of adding, clearing and wiping the forest stays in order and the object within its limit |
| AttrRuns.RunText | src/attrib.c:922-1173 | over any run, the text under a name is the one that was set last, if it has not been taken away since |
| AttrRuns.LastSetStays | src/attrib.c:922-1173 | what a call has set is there at the end if no later one sets it again or takes it away |
| AttrRuns.RunsKeepNames | src/attrib.c:88-107 | every name stays a good one |
| AttrStore.ForestSize | src/attrib.c:534-563 | the array has as many attributes as there are names |
| AttrStore.AttrList.FindAtrInList | src/attrib.c:534-563 | all ways of looking up find a name if and only if it is there |
| AttrStore.AttrList.FindLinear | src/attrib.c:545-555 | the loop that stops early |
| AttrStore.AttrList.FindBinary | src/attrib.c:556-562 | halving |
| AttrStore.AttrList.FindAtrPosInList | src/attrib.c:571-584 | finds the one place where a name keeps the array sorted |
| AttrStore.AttrList.AttrReserve | src/attrib.c:594-615 | growing keeps the attributes and empties the new slots |
| AttrStore.AttrList.AtrCheckCapacity | src/attrib.c:624-638 | afterwards there is room for one more |
| AttrStore.AttrList.AttrShrink | src/attrib.c:645-674 | giving back room keeps the attributes, and leaves less than twice what is needed |
| AttrStore.AttrList.AtrMoveDown | src/attrib.c:683-687 | makes room |
| AttrStore.AttrList.AtrMoveUp | src/attrib.c:696-703 | closes a gap and puts an empty slot at the end |
| AttrStore.AttrList.CreateAtr | src/attrib.c:711-739 | adds a name, keeping the array sorted and ended |
| AttrStore.AttrList.AtrFreeOne | src/attrib.c:2631-2644 | takes one away, keeping the others in order |
| AttrStore.AttrList.AtrSubBranch | src/attrib.c:123-144 | finds the first attribute below one if and only if there is any, whatever else sorts in between |
| AttrStore.AttrList.AtrSubBranchPrev | src/attrib.c:153-178 | the same, one before |
| AttrAccess.GoodAtrName | src/attrib.c:88-107 | accepts exactly the good names |
| AttrAccess.SetCmdFlags | src/attrib.c:840-860 | finds the first unescaped colon behind `$` or `^` |
| AttrAccess.CanWriteAttr | src/attrib.c:383-403 | looks at the attribute and all that it is below |
| AttrAccess.CanCreateAttr | src/attrib.c:446-498 | decides as specified, and counts exactly the names that have to be created |
| AttrAdd.CreateRoots | src/attrib.c:950-981 | creates what is missing above a name and marks all of it |
| AttrAdd.AtrAddTo | src/attrib.c:923-1019 | adding on the array does what is specified, with its outcome |
| AttrWipe.AtrClearChildren | src/attrib.c:1028-1078 | deleting while walking the array leaves below a name exactly what is blocked, and says whether that was nothing |
| AttrWipe.RealAtrClr | src/attrib.c:1090-1146 | clearing and wiping on the array do what is specified, with their outcomes |
| BufferQueue.DecodeEncodeLong | src/bufferq.c:63-64 | a time survives being copied to the buffer |
| BufferQueue.ParseRecord | src/bufferq.c:57-66 | a record is parsed from its bytes, whatever comes after |
| BufferQueue.ParseEncodeAll | src/bufferq.c:189-214 | the bytes of records parse as those records |
| BufferQueue.EvictedFewest | src/bufferq.c:79-87 | what is pushed out is the fewest of the oldest that cover the room asked for, or all |
| BufferQueue.AddedKeeps | src/bufferq.c:46-70 | a message goes to the end, and pushes out nothing while there is room for it, and otherwise the fewest of the oldest that take as much room as it does; one that is too long changes nothing |
| BufferQueue.ResizedKeeps | src/bufferq.c:147-172 | resizing pushes out the fewest of the oldest that take what is in use beyond the new size, and nothing if all of it fits |
| BufferQueue.ResizedLarger | src/bufferq.c:116-151 | a line takes up more when a queue is resized than when it is new, by what is kept beside one message |
| BufferQueue.AddedOk | src/bufferq.c:46-70 | adding never uses more than the size |
| BufferQueue.ResizedOk | src/bufferq.c:147-172 | nor does resizing |
| BufferQueue.RunKeeps | src/bufferq.c:45-172 | over any run, the bytes in use fit, parse as the records, and those are the latest of the messages taken in |
| BufferQueue.NothingLost | src/bufferq.c:45-172 | over any run nothing is lost if and only if all that has been taken in so far always fits the size there is |
| BufferStore.BufferQ.AddToBufferq | src/bufferq.c:46-70 | adding to the buffer does what is specified |
| BufferStore.BufferQ.FindKept | src/bufferq.c:79-96 | the loop stops at the end of a message with what is specified to go, and its fault does not come up |
| BufferStore.BufferQ.ShiftBufferq | src/bufferq.c:73-106 | the rest is moved to the front |
| BufferStore.BufferQ.ReallocateBufferq | src/bufferq.c:147-172 | resizing does what is specified |
| BufferStore.BufferQ.IterBufferq | src/bufferq.c:189-214 | gives the messages one after another |
| BufferStore.BufferQ.BufferqLines | src/bufferq.c:234-249 | counts as many messages as are said to be buffered |

## Left out

- Softcode evaluation, wildcard and regular expression matching, flags, powers, ownership, zones, channels and hosts: they are oracles of the lock's world, fixed only in what they are asked. The locks that permissions come down to are evaluated.
- The text inside lock atoms, its escaping, and matching object names: atoms are opaque tokens, so a lock is printed and read back token by token.
- Truncation at BUFFER_LEN when locks are parsed or printed, failed allocation, chunk storage, interned names and reference counts: text fits and memory is there.
- The stream parser of `dbtools/boolexp.cpp`, and the database formats it reads: `OldLocks` starts from the trees it builds.
- Storage in chunks as it is done: `Stored` keeps a string up to its first zero byte, which is what fetching it by its length does.
- How the counts for Huffman compression are read from a file: they are a parameter.
- LockBuilder.BvmAsm.EmitBytecode: the bytes are put together as a sequence, where the source fills an array whose length it has added up first.
- HuffmanNodes.ForceFirstOne: the source walks down the left edge in a loop, which the model does by recursion; so do `AddOnesBelow` and `AddEosBelow`.
- HuffmanNodes.AddOnesBelow: the character in an inner node that is spliced is copied as in the source, but the one in a joined node, which the source leaves unset, is taken to be end-of-string.
- HuffmanText.PutCode: bits that do not overlap are added instead of combined with `|`, and shifts are products and quotients by powers of two.
- HuffmanText.HuffTextUncompress: where the source would follow a null pointer or read past the end of its input, the method ends and says which.
- WordTable.WordTable.WordTextUncompress: a marker with fewer than two bytes behind it, where the source reads past the end, counts as a missing word.
- AttrStore.AttrList.FindBinary: `bsearch` belongs to the C library; the model halves the range itself.
- AttrStore.AttrList.CreateAtr: the creator of a new attribute, which the source leaves as it finds it, is arbitrary.
- Values of attributes are kept as text; compressing them is modelled on its own.
- Modification times, notices to players, logging, and the warning about unanchored patterns.
- `atr_new_add`, which loads databases without checks, `atr_cpy`, attribute inheritance, and iterating over attributes by pattern.
- BufferStore.BufferQ.ReallocateBufferq: for zero lines, `realloc` to no bytes is taken to give an empty buffer, which the C library leaves open.
