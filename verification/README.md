# MyKernel, modelled and proved in Dafny

This project models five parts of MyKernel and proves what they keep, what they compute and how long
they can take.

- **FAT32 volume** (`Bytes`, `Fat*`): a disk of sectors, the copies of the allocation table on it, cluster
  chains and the root directory. `FatDisk` and `FatVolume` read and write sectors. `FatLayout` says when a
  volume is well laid out: the root chain and the chain of every live root entry are in range, end-marked
  and pairwise disjoint. A layout gives a map from 8.3 names to files and directories, and every operation
  is proved to act on that map. Clusters that belong to no chain of the root or of a root entry (the
  contents of sub-directories, or leaked clusters) are called foreign; they are counted and proved untouched.
- **MyLang and its calculator** (`Grammar*`, `Calculator*`, `MyLang*`): expressions are trees that keep
  every blank, so that a tree and its text determine each other. The calculator is an object whose position
  and error flag its routines move. On top of it, variables are replaced by numbers in the text, and scripts
  run line by line. `MyLangScript.Means` is the meaning of a script by its structure, and `MyLangPrograms`
  goes all the way from programs over expression trees to running their text.
- **RAM filesystem** (`RamTree`, `RamPaths`, `RamFs`): a table of 256 nodes with parent indices, a current
  directory, breadth-first deletion and path walking.
- **Kernel heap** (`HeapBlocks`, `KernelHeap`): a megabyte of bytes with block headers in it, first-fit
  allocation, splitting and merging. Block lists are ghost; the headers are real bytes.
- **Scheduler, keyboard ring, mount table** (`Scheduler`, `Keyboard`, `MountTable`): state machines over
  their steps, with the code itself as a class beside each.

A method takes a ghost layout or block list where its proof needs one. C strings are sequences without
their terminating zero. Where a property fails, the model keeps the code as it is and the failing family is
stated:

- A FAT name that starts with byte 0xE5 is written with success and is then not there
  (`FatTheorems.WriteThenRead`).
- A write that runs out of clusters half-way keeps the volume well laid out, but takes every free cluster. Under a
  name that was there it leaves a piece of the new text. Under a new name nothing appears, and all the free
  clusters are lost, but for one that the root directory may have grown by (`FatOps.StoreFile`, `FatApi.Write`,
  `FatTheorems.TornConserves`).
- Removing a name that does not exist leaves the disk alone exactly when the name is empty or the root directory
  is not full; otherwise it takes one cluster for the root, or answers with an I/O error if there is none
  (`FatApi.Unlink`).
- The second copy of the table is not zeroed by formatting, so the copies never agree on a new volume
  (`FatFormat.NeverMirrored`). For some sizes the table is too short for the last clusters:
  `RoomForEntries` is the exact condition on the size (`FatFormat.FormatFits`, `FatFormat.FormatTooSmall`). In every
  stretch of 1026 sizes from 1026 k + 24 on at least the first 18 fail (`FatFormat.StretchFails`), and above
  264240167 sectors, just under 126 gibibytes, all of them do (`FatFormat.FormatTooLarge`).
- Rounding a request up wraps around exactly above 0xFFFFFFF8, and the caller then gets less than was asked for
  (`KernelHeap.AlignWraps`, `KernelHeap.Heap.Kmalloc`).
- A block inside a while body is not run as a block: its first line is a syntax error (`MyLangPrograms.NestedLoop`).
- A variable name reads as its own value exactly when it has at most 15 characters (`MyLangLines.NameLimit`).
- A side of a comparison counts as its value exactly up to 63 characters; of a longer one only the front is read,
  so that a one with enough leading zeros equals zero (`MyLangLines.SideLimit`, `MyLangLines.OneIsZero`).
- Reading a file below the printed current directory differs from reading it by name for the empty name and
  for names of 48 characters or more (`RamPaths.PrintedPath`). The printed directory is complete exactly when
  the walk up to the root has at most 16 nodes (`RamFs.PwdComplete`), and calls make walks of up to 252 nodes
  (`RamFs.DigDown`).
- A mount path of more than 15 characters is stored cut: it can be mounted twice and cannot be unmounted under
  its own name (`MountTable.Mounts.MountAt`, `MountTable.LongMount`).

## Model

| member | source | states |
|---|---|---|
| FatVolume.Volume.FatGet | src/fat32.c:147-158 | reads entry c as the low 28 bits of the first copy |
| FatVolume.Volume.FatSet | src/fat32.c:160-182 | stores 28 bits of the value at entry c and changes no other entry and no cluster, on whichever sector it lies |
| FatVolume.Volume.SetInCopy | src/fat32.c:166-180 | one copy's sector gets the patched entry |
| FatDisk.RawAfterSet | src/fat32.c:160-182 | of all raw entries in all copies only entry c changes, and only below its top 4 bits |
| FatDisk.SetKept | src/fat32.c:160-182 | top bits, sectors outside the tables and agreement of the copies survive a set |
| FatDisk.SetMirrored | src/fat32.c:160-182 | copies that agree on every sector still agree after a set |
| FatDisk.TableOnDisk | src/fat32.c:147-158 | on which sector and at which offset each entry of the table is |
| FatDisk.ClusterOnDisk | src/fat32.c:205-208 | on which sector and at which offset each byte of each cluster is |
| FatVolume.Volume.AllocCluster | src/fat32.c:184-193 | takes the first free cluster and marks it as a chain of its own; 0 exactly when none is free |
| FatVolume.Volume.FreeChain | src/fat32.c:195-203 | terminates on any table, even a cyclic one, and zeroes exactly the clusters reachable from the start |
| FatChains.FreeingStep | src/fat32.c:195-203 | what has been zeroed and where the walk stands, one link further |
| FatChains.FreeingMeasure | src/fat32.c:195-203 | each round lowers the number of entries in use |
| FatChains.ChainReaches | src/fat32.c:195-203 | on a chain, what is reachable is the chain |
| FatChains.ChainDistinct | src/fat32.c:542-570 | a chain that ends never comes by a cluster twice |
| FatChains.ChainUnique | src/fat32.c:542-570 | a start cluster has one chain |
| FatChains.ChainEnds | src/fat32.c:195-203 | a chain ends at an entry of 0x0FFFFFF8 or more |
| FatVolume.Volume.ReadCluster | src/fat32.c:205-208 | reads the cluster's sectors in order |
| FatVolume.Volume.WriteCluster | src/fat32.c:210-213 | writes one cluster and nothing else |
| FatNames.NameTo83 | src/fat32.c:215-232 | fills in the upper-case, blank-padded key of the name, as KeyBytes gives it byte by byte |
| FatNames.KeyBytes | src/fat32.c:215-232 | every byte of every key: up to 8 before the first dot, up to 3 after a dot there, small letters less 32, blanks elsewhere |
| FatNames.KeyFirst | src/fat32.c:215-232 | a key never starts with 0, and starts with 0xE5 exactly when the name does |
| FatNames.KeyIgnoresCase | src/fat32.c:215-232 | names that differ only in letters being 97 to 122 or those less 32 have the same key |
| FatLayout.LayoutUnique | src/fat32.c:254-272 | a disk has at most one layout |
| FatLayout.FilesBytes | src/fat32.c:254-272 | a name is in the map exactly when the bytes of some root entry list it |
| FatLayout.ListedEntry | src/fat32.c:542-570 | which of its bytes make that entry a directory or a file, and how long |
| FatLayout.EntryLayout | src/fat32.c:529-537 | the 32 bytes of an entry that is written |
| FatDirectory.ScanCluster | src/fat32.c:307-333 | within one cluster: the entry with the name, or the first reusable one, or none |
| FatDirectory.GrowRoot | src/fat32.c:335-346 | appends a zeroed cluster to the root chain and keeps every file and foreign cluster |
| FatDirectory.FindSlot | src/fat32.c:299-351 | finds the entry if the key is in the map, otherwise the first reusable one, growing the root only when it is full |
| FatDirectory.Lookup | src/fat32.c:254-272 | finds an entry exactly when its key is in the map |
| FatSteps.GrowKeeps | src/fat32.c:335-346 | growing the root changes no file and no chain |
| FatSteps.FreeKeeps | src/fat32.c:495-498 | freeing a file's chain leaves every other file as it was |
| FatSteps.BuildKeeps | src/fat32.c:508-527 | clusters taken from the free ones disturb no chain and no file |
| FatSteps.PutKeeps | src/fat32.c:529-537 | writing one directory entry changes exactly that entry's name in the map |
| FatBuild.AppendHolds | src/fat32.c:508-524 | the chain built so far holds the text written so far |
| FatOps.ReadChain | src/fat32.c:554-568 | the bytes of the chain, cut to size and buffer |
| FatOps.ReadFile | src/fat32.c:542-570 | answers and contents are those of the map, cut to the buffer |
| FatOps.WriteNext | src/fat32.c:508-524 | one more cluster of text, or nothing changed when none is free |
| FatOps.FillChain | src/fat32.c:508-524 | the whole allocation loop: as many clusters as the text needs or as there are, holding the text so far |
| FatOps.WriteChain | src/fat32.c:505-527 | a chain of exactly the needed clusters that holds the text; failure exactly when there are too few |
| FatOps.FreeFile | src/fat32.c:495-498 | zeroes exactly the old chain |
| FatOps.StoreFile | src/fat32.c:492-539 | old chain out, new chain in, entry replaced: the map has the new text and all else as before, or the torn outcome: a piece of the new text under a name that was there, an empty file stays empty, no cluster is free, and for a new name the foreign clusters are the old ones and all that were free |
| FatOps.StoreDone | src/fat32.c:492-539 | the finished write as one change of the map, with conservation of foreign clusters |
| FatOps.TornDone | src/fat32.c:495-510 | after running out of clusters the layout still holds, only the name written to is affected, what it has is a piece of the new text, and nothing is free |
| FatApi.Write | src/fat32.c:479-540 | exact answer for every volume and name; on success the map is updated at the key alone, and a refused write leaves no free cluster: a piece of the text under a known name, and for a new name the same map with all free clusters lost, but for one if the root grew |
| FatApi.MakeDir | src/fat32.c:573-634 | exact answer; on success an empty directory with dot entries appears under the key, all else kept |
| FatApi.ReserveDir | src/fat32.c:583-608 | the new directory's cluster with its two dot entries |
| FatApi.NewDirEmpty | src/fat32.c:573-634 | a new directory counts as empty |
| FatApi.DirIsEmpty | src/fat32.c:651-665 | empty exactly when nothing but ignored entries comes before the first unused one; EmptyBytes says the same in bytes |
| FatApi.EmptyBytes | src/fat32.c:651-665 | a directory counts as empty exactly when no entry before the first unused one is anything but deleted, part of a long name or one of the two dot entries |
| FatApi.FileInside | src/fat32.c:651-665 | a file of any name that can be found again makes its directory count as not empty |
| FatApi.Unlink | src/fat32.c:636-674 | exact answer; a directory is refused, with the disk unchanged, exactly when its first cluster has something in it; on success exactly the key is gone and its chain is free; for a missing name the disk changes exactly when the root is full, and then by one cluster |
| FatApi.RemoveDone | src/fat32.c:667-673 | deleting the entry and freeing its chain, as one change of the map |
| FatTheorems.Conservation | src/fat32.c:184-203 | free clusters, clusters on chains and foreign ones add up to all clusters, and no chain shares any |
| FatTheorems.TornConserves | src/fat32.c:495-510 | after a write that ran out, clusters on chains and foreign ones are all there are |
| FatTheorems.Run | src/fat32.c:479-674 | every sequence of writes, mkdirs and unlinks, whatever each answers, keeps the layout and does to the map what the answers say |
| FatTheorems.CleanRunConserves | src/fat32.c:479-674 | after a clean run without foreign clusters every cluster is free or on one chain; once the map is empty again only the root's are in use |
| FatTheorems.FormatAndRun | src/fat32.c:376-758 | the same from formatting on, for any operations on the new volume |
| FatTheorems.WriteThenRead | src/fat32.c:479-570 | a successful write reads back under every name with the same key, and so under every one that differs in case only, exactly unless it starts with 0xE5 |
| FatTheorems.MakeDirThenUnlink | src/fat32.c:573-674 | unlink after mkdir restores the map and the foreign clusters |
| FatFormat.Mount | src/fat32.c:376-398 | mounts exactly the accepted boot sectors, told by their bytes, and takes each figure of the geometry from the bytes that hold it |
| FatFormat.Format | src/fat32.c:677-758 | writes every byte of the boot sector and of FSInfo, both tables as they really come out, and a blank root; no other sector |
| FatFormat.BootFront | src/fat32.c:694-710 | the boot sector's fields before the sizes |
| FatFormat.BootBack | src/fat32.c:711-722 | and after them |
| FatFormat.BootNames | src/fat32.c:697-720 | the three names in it |
| FatFormat.InfoBytes | src/fat32.c:725-733 | every byte of FSInfo |
| FatFormat.FormatFits | src/fat32.c:685-692 | the new geometry is sound exactly for the sizes of RoomForEntries |
| FatFormat.FormatTooSmall | src/fat32.c:685-692 | the sizes that fail are exactly those between 1026 k + 24 and 1024 k + 40 plus twice the first estimate, for some k |
| FatFormat.StretchFails | src/fat32.c:685-692 | in every stretch of 1026 sizes at least the first 18 fail |
| FatFormat.FormatTooLarge | src/fat32.c:685-692 | 264240167 is the largest size that does not |
| FatFormat.DefaultFits | src/fat32.c:680-692 | below 2048 sectors the size used instead gives tables of 64 sectors for 8172 clusters, which fit |
| FatFormat.NewVolume | src/fat32.c:677-758 | a new volume is well laid out and empty |
| FatFormat.NeverMirrored | src/fat32.c:736-748 | the two copies differ on every new volume |
| FatFormat.FormatAndMount | src/fat32.c:376-398 | formatting and mounting gives the empty map |
| Calculator.Ipow | src/calc.c:29-43 | square-and-multiply is repeated multiplication; error exactly for a negative exponent |
| Calculator.Parser.ParseFactor | src/calc.c:48-84 | reads a factor of the grammar and its value, or raises the error exactly when there is none; never clears it |
| Calculator.Parser.ParsePower | src/calc.c:87-97 | the same for right-associative powers |
| Calculator.Parser.ParseTerm | src/calc.c:100-122 | the same for left-associative products and truncating quotients |
| Calculator.Parser.ParseExpr | src/calc.c:125-141 | the same for sums |
| Calculator.CalcEval | src/calc.c:143-154 | error 0 exactly when the whole text derives from the grammar and has a value, and then that value |
| Calculator.CalcMeans | src/calc.c:143-154 | the answer v is the value of some, and so of every, tree of the text |
| CalculatorLaws.QuotientIs | src/calc.c:100-122 | what a quotient leaves over is smaller than the divisor and has the sign of the dividend |
| CalculatorLaws.RaiseAdds | src/calc.c:29-43 | powers add up in the exponent |
| CalculatorLaws.OneOperator | src/calc.c:87-141 | for all factors x and y, what x+y, x-y, x*y, x/y and x^y come to as texts |
| CalculatorLaws.SignsAndBrackets | src/calc.c:48-97 | signs and brackets as texts; a minus belongs to the base of a power |
| CalculatorLaws.TwoOperators | src/calc.c:87-141 | products before sums, the left one first, and of powers the right one, as texts |
| CalculatorLaws.BlanksSkipped | src/calc.c:22-25 | blanks and tabs, and nothing else, are passed over |
| GrammarComplete.CompleteE | src/calc.c:125-141 | a tree's text, followed by what cannot continue it, parses to that tree |
| GrammarComplete.ParseDerives | src/calc.c:143-154 | the parser finds the derivation exactly when there is one |
| GrammarComplete.Unambiguous | src/calc.c:48-141 | a text has at most one tree |
| MyLangVars.Variables.Find | src/mlang.c:68-73 | finds a name exactly when it is set, with its value |
| MyLangVars.Variables.Set | src/mlang.c:75-90 | updates the map; refused exactly for a new name when 32 are set |
| MyLangVars.Variables.Reset | src/mlang.c:63-66 | no variable is set |
| MyLangVars.TableCount | src/mlang.c:75-90 | used slots and set names are equally many |
| MyLangExpand.DecimalOfText | src/mlang.c:109-127 | a number's digits read back as the number |
| MyLangExpand.SubstMeansE | src/mlang.c:93-135 | numbers in place of variables keep the value, negative ones under ^ and after a minus included |
| MyLangExpand.ExpandE | src/mlang.c:93-135 | expanding a tree's text is printing the substituted tree |
| MyLangExpand.NameCharacters | src/mlang.c:55-61 | which characters names are made of |
| MyLangLines.ExpressionMeaning | src/mlang.c:93-146 | evaluating the text of any tree is evaluating the tree under the variables, if it fits the buffer |
| MyLangLines.NameLimit | src/mlang.c:97-104 | a name always reads as its own value exactly up to 15 characters |
| MyLangLines.LongName | src/mlang.c:97-104 | a longer name is read as several |
| MyLangLines.ConditionMeaning | src/mlang.c:149-199 | a comparison holds as the values of its sides compare, for sides of any length |
| MyLangLines.Comparisons | src/mlang.c:186-198 | the text with each of the six signs between its sides holds exactly as the integers compare |
| MyLangLines.SideLimit | src/mlang.c:172-181 | a side of n characters always counts as its value exactly when n is at most 63 |
| MyLangLines.BufferLimit | src/mlang.c:137-146 | an expanded expression has a value exactly up to 127 characters |
| MyLangLines.OneIsZero | src/mlang.c:172-181 | a comparison with a longer side that comes out wrong |
| MyLangLines.TruthMeaning | src/mlang.c:165-170 | an expression alone holds unless it is zero |
| MyLangLines.AssignMeaning | src/mlang.c:233-255 | an assignment sets exactly its variable to the value of its expression |
| MyLangLines.PrintMeaning | src/mlang.c:210-231 | print shows the value and changes no variable |
| MyLangScript.SplitJoin | src/mlang.c:264-275 | splitting undoes joining exactly if there is room for the lines and none is too long or has a newline |
| MyLangScript.Balanced | src/mlang.c:300-313 | the search for an end passes over every complete statement |
| MyLangScript.RunMeans | src/mlang.c:277-391 | line-by-line execution of a program is its structured meaning, in every state |
| MyLangScript.RunThen | src/mlang.c:277-391 | what follows a program is run after it, unless it has failed |
| MyLangScript.StrayEnd | src/mlang.c:286-290 | an end that closes nothing stops the script after what comes before it |
| MyLangScript.MissingEnd | src/mlang.c:292-369 | a block without an end stops it before any of the block is done |
| MyLangScript.ScriptMeans | src/mlang.c:262-392 | the same from the script's text |
| MyLangInterpreter.DigitsOfNumber | src/mlang.c:116-123 | the digits, lowest first |
| MyLangInterpreter.Interpreter.ExpandExpr | src/mlang.c:93-135 | the expansion, refused exactly when it does not fit |
| MyLangInterpreter.Interpreter.EvalExpr | src/mlang.c:137-146 | the value of the text under the variables |
| MyLangInterpreter.Interpreter.EvalCondition | src/mlang.c:149-199 | whether the condition holds, or that it cannot be told |
| MyLangInterpreter.Interpreter.ExecLine | src/mlang.c:205-259 | variables, output and result of one line |
| MyLangInterpreter.Interpreter.FindEnd | src/mlang.c:299-313 | the end that matches, or none |
| MyLangInterpreter.Interpreter.ExecWhile | src/mlang.c:371-382 | at most 10000 rounds |
| MyLangInterpreter.Interpreter.Rebuild | src/mlang.c:327-336 | the sub-script is never cut off by its buffer |
| MyLangInterpreter.Interpreter.ExecIfBody | src/mlang.c:318-344 | an if's body, nested blocks included, by recursion on fewer lines |
| MyLangInterpreter.Interpreter.ExecScript | src/mlang.c:262-392 | variables, output and result of any text; terminates |
| MyLangInterpreter.Interpreter.ExecProgram | src/mlang.c:262-392 | for the text of a program, what the program means |
| MyLangPrograms.ActionMeans | src/mlang.c:205-259 | the text of an assignment, a print, a string or a comment does what the tree says |
| MyLangPrograms.TestMeans | src/mlang.c:149-199 | the text of a test holds as its trees' values say |
| MyLangPrograms.LoopMeans | src/mlang.c:371-382 | the rounds over the text are the rounds over the trees |
| MyLangPrograms.ProgramMeans | src/mlang.c:262-392 | the lines of a program over trees mean what the program does, in every state |
| MyLangPrograms.TextMeans | src/mlang.c:262-392 | the same from the program's text, split into lines again |
| MyLangPrograms.RunText | src/mlang.c:262-392 | executing the text of such a program evaluates its trees, sets its variables and follows its structure |
| MyLangPrograms.LoopGivesUp | src/mlang.c:371-382 | a loop that counts and whose condition always holds has counted to exactly 10000 |
| MyLangPrograms.NestedLoop | src/mlang.c:371-382 | a block inside a loop ends the script with a syntax error in the first round that reaches it |
| RamTree.UpExists | src/fs.c:192-199 | every live node's parent walk reaches the root |
| RamTree.ParentOutside | src/fs.c:192-199 | no directory is inside its own child |
| RamTree.AddKeeps | src/fs.c:128-158 | a new node keeps the tree |
| RamTree.RenameKeeps | src/fs.c:442-453 | a new name keeps the tree |
| RamTree.RemoveKeeps | src/fs.c:207-243 | removing a set closed under children keeps the tree |
| RamTree.ClosedHasAll | src/fs.c:220-231 | such a set around a node has everything below it |
| RamFs.FileSystem.constructor | src/fs.c:85-102 | the initial tree, node by node |
| RamFs.InitialNodes | src/fs.c:85-102 | the nodes of the initial tree, one by one |
| RamFs.FileSystem.AllocNode | src/fs.c:104-109 | the first free slot |
| RamFs.FileSystem.FindChild | src/fs.c:111-119 | the node of that name in that directory |
| RamFs.FileSystem.Mkdir | src/fs.c:128-141 | exact answer; one directory added, nothing else changed |
| RamFs.FileSystem.Touch | src/fs.c:143-158 | exact answer; one empty file added |
| RamFs.FileSystem.Cd | src/fs.c:160-180 | where the current directory goes in every case; two dots go to the parent and stay at the root |
| RamFs.FileSystem.CdAndBack | src/fs.c:160-180 | two dots lead out of a directory that was entered, to where one was |
| RamFs.FileSystem.CwdInSubtree | src/fs.c:192-199 | the walk tells whether the current directory is inside; it terminates |
| RamFs.FileSystem.Fan | src/fs.c:220-231 | the children of one node are queued; the queue is never full |
| RamFs.SweptAll | src/fs.c:220-231 | a worked-off queue is exactly the subtree |
| RamFs.FileSystem.RmSubtree | src/fs.c:207-243 | frees exactly the subtree, moves the current directory to its parent exactly when it was inside |
| RamFs.FileSystem.Rm | src/fs.c:246-265 | exact answer; exactly one node freed |
| RamFs.FileSystem.RmRf | src/fs.c:268-279 | exact answer; exactly the subtree freed |
| RamFs.FileSystem.WriteBin | src/fs.c:281-305 | exact answer; exactly one file has the data |
| RamFs.WrittenReads | src/fs.c:285-342 | what was written is read, every other name reads as before |
| RamFs.Answers | src/fs.c:121-453 | the answers of making, opening, copying, renaming and removing, by what the directory holds |
| RamFs.CopyReads | src/fs.c:420-439 | a copy reads as its original, all else as before |
| RamFs.MoveReads | src/fs.c:442-453 | the new name reads as the old one did, the old one is gone, all else as before |
| RamFs.RemoveReads | src/fs.c:246-265 | what was removed is not found, all else as before |
| RamFs.AppendedIs | src/fs.c:308-332 | a newline and the text after what was there, or the text alone in an empty file, cut to 8191 |
| RamFs.FileSystem.Append | src/fs.c:308-332 | newline and text as far as they fit |
| RamFs.FileSystem.Read | src/fs.c:335-342 | reading by name |
| RamFs.FileSystem.ReadThrough | src/fs.c:344-389 | reading by path |
| RamPaths.RelativePath | src/fs.c:344-389 | a path is read from the root exactly if it starts with a slash |
| RamPaths.DotsLead | src/fs.c:369-371 | two dots lead to the parent, and at the root stay there |
| RamPaths.DotStays | src/fs.c:344-389 | one dot and an empty component lead nowhere |
| RamPaths.NameLeads | src/fs.c:344-389 | a name leads to the directory of that name and on from there, and to nothing else |
| RamFs.FileSystem.MkdirP | src/fs.c:391-418 | exact answer; the nodes added are directories named in the path, the path then exists, and nothing happens if it did |
| RamFs.FileSystem.Cp | src/fs.c:420-439 | exact answer; one copy added |
| RamFs.FileSystem.Mv | src/fs.c:442-453 | exact answer; one name changed |
| RamFs.FileSystem.Pwd | src/fs.c:511-532 | the printed path for every depth and buffer |
| RamFs.PwdComplete | src/fs.c:511-532 | the printed path is complete exactly up to 16 nodes |
| RamFs.DigDown | src/fs.c:128-180 | any number of mkdir and cd calls, up to what the table holds, gives a walk one node longer, and its path is printed whole exactly below 16 calls |
| RamPaths.Descend | src/fs.c:344-389 | reading along a printed path arrives in its directory |
| RamPaths.PrintedPath | src/fs.c:335-389 | reading below the printed path is reading by name, exactly for which names |
| RamFs.FileSystem.PwdThenRead | src/fs.c:511-532 | the same of the two calls |
| RamFs.FileSystem.Run | src/fs.c:85-453 | after any sequence of calls the table is a tree and the current directory is in it |
| KernelHeap.AlignWraps | src/kmalloc.c:23-25 | rounding up covers the request exactly when it does not wrap, and gives 0 when it does |
| KernelHeap.Heap.constructor | src/kmalloc.c:27-33 | one free block |
| KernelHeap.Heap.SplitBlock | src/kmalloc.c:35-47 | two blocks tile what one did, or nothing changes |
| KernelHeap.Heap.Coalesce | src/kmalloc.c:49-59 | one pass merges the list and leaves every payload alone |
| HeapBlocks.CoalesceMerges | src/kmalloc.c:49-59 | no two free neighbours remain; extent, bytes in use and live pointers are kept |
| KernelHeap.Heap.Kmalloc | src/kmalloc.c:61-77 | the first free block that is large enough; null exactly when every free block is smaller; at least what was asked for exactly if rounding did not wrap; all other payloads kept |
| KernelHeap.Heap.Kfree | src/kmalloc.c:79-91 | exactly the pointer is no longer live; null and a pointer behind a header marked free change nothing; afterwards the header is marked, also when the block was merged into another, so freeing twice is freeing once |
| KernelHeap.Heap.Krealloc | src/kmalloc.c:93-112 | the old bytes come along, no other payload changes, null exactly when nothing fits, and the size is covered exactly if rounding did not wrap |
| HeapBlocks.LiveApart | src/kmalloc.c:61-77 | live payloads are disjoint |
| HeapBlocks.LiveBounds | src/kmalloc.c:61-77 | live payloads are in bounds |
| KernelHeap.Heap.FreeAll | src/kmalloc.c:79-91 | freeing everything in any order restores the initial block |
| HeapBlocks.AllFree | src/kmalloc.c:49-59 | a merged list with nothing live is the initial block |
| HeapBlocks.SumsFill | src/kmalloc.c:114-123 | used, free and headers add up to the window |
| KernelHeap.Heap.Stats | src/kmalloc.c:114-123 | the counters are those sums |
| Scheduler.Table.constructor | src/sched.c:34-53 | the shell runs alone |
| Scheduler.Table.PickNext | src/sched.c:55-65 | the first ready task going round |
| Scheduler.Table.Yield | src/sched.c:67-80 | hands over to the waiting task that comes first and starts its slice; does nothing exactly when none waits |
| Scheduler.Table.SpawnTask | src/sched.c:82-106 | the first free slot becomes ready; refused exactly without slot or stack |
| Scheduler.Table.OnTick | src/sched.c:115-131 | hands over exactly at the tenth tick of a slice with a task waiting |
| Scheduler.Table.ExitTask | src/sched.c:133-148 | the waiting task that comes first goes on and the ended one is free; task 0 never ends |
| Scheduler.StepKeeps | src/sched.c:55-148 | exactly the current task runs, the others are ready or free, task 0 stays |
| Scheduler.ExitFindsNext | src/sched.c:133-148 | there is always a ready successor |
| Scheduler.YieldHandsOver | src/sched.c:67-80 | what a yield does to every task of the table |
| Scheduler.TickHandsOver | src/sched.c:115-131 | what a tick does to them, and when it switches |
| Scheduler.ExitHandsOver | src/sched.c:133-148 | what an exit does to them |
| Scheduler.StepNearer | src/sched.c:55-148 | a waiting task comes nearer with every switch and tick |
| Scheduler.BoundedWaiting | src/sched.c:55-148 | in every interleaving a task still waiting has seen fewer than 7 switches and 70 ticks |
| Scheduler.WaitingEndsRunning | src/sched.c:55-148 | a task stops waiting only by running |
| Scheduler.EveryTaskRuns | src/sched.c:55-148 | every run with 70 ticks or 7 switches from where a task is ready has a prefix after which it runs |
| Keyboard.PushAdds | src/keyboard.c:48-54 | a push is refused exactly at 255 pending, otherwise it goes to the end |
| Keyboard.StepKeeps | src/keyboard.c:43-109 | delivered plus buffered is accepted, whichever side steps |
| Keyboard.NothingLost | src/keyboard.c:43-109 | in every interleaving delivery is the front of what was accepted, in order |
| Keyboard.TypedIsAccepted | src/keyboard.c:43-109 | in every interleaving in which the ring is never full, what is accepted is exactly what all the scancodes type, in order |
| Keyboard.Driver.BufferPush | src/keyboard.c:48-54 | the push |
| Keyboard.DecodeMeans | src/keyboard.c:56-97 | over every run of scancodes: shift is down exactly when the last shift code without prefix was a press, the prefix flag is set exactly after 0xE0, and which character each code types |
| Keyboard.KeyTypes | src/keyboard.c:20-38 | the keys of the four rows type the characters printed on them, the upper ones exactly with shift |
| Keyboard.OtherKeys | src/keyboard.c:20-38 | what the other keys type, and which type nothing |
| Keyboard.ArrowTypes | src/keyboard.c:56-97 | the arrows after the prefix, and that nothing else types after it |
| Keyboard.Driver.Irq | src/keyboard.c:56-97 | the same of the handler: its flags are those facts about all codes so far, and it buffers exactly the character typed |
| Keyboard.Driver.TryGetChar | src/keyboard.c:104-109 | the oldest character |
| MountTable.Mounts.constructor | src/vfs.c:27-36 | only the root is mounted |
| MountTable.Mounts.FindMount | src/vfs.c:38-44 | the mount with that path |
| MountTable.Mounts.MountAt | src/vfs.c:46-87 | exact answer; one slot filled; no path twice exactly if the stored one was not there; a FAT mount adds to the RAM filesystem nothing but the missing directories of its path |
| MountTable.Mounts.Umount | src/vfs.c:89-103 | exact answer; one slot cleared |
| MountTable.MatchIsComponentPrefix | src/vfs.c:137-143 | a mount matches exactly the paths with its components in front |
| MountTable.BestUnique | src/vfs.c:130-148 | the longest match is unique |
| MountTable.Owned | src/vfs.c:130-158 | exactly the absolute paths have an owner |
| MountTable.Rebuilt | src/vfs.c:150-158 | owner, the slash between them exactly if there is one, and the rest make up the path |
| MountTable.Mounts.Resolve | src/vfs.c:123-162 | the longest match's file system and the rest, cut to the buffer |
| MountTable.Mounts.MountThenUmount | src/vfs.c:46-103 | umount after mount restores the owner of every path |
| MountTable.LongMount | src/vfs.c:76-98 | a path stored cut is not found again |

## Left out

- FatVolume.Volume.FreeChain: asks that the links it follows are in range, because an out-of-range link makes the source read outside the table.
- KernelHeap.Heap.Kfree: asks for null, a live pointer or one behind a header marked free, because the source takes the bytes before any other pointer for the header of a block in use.
- KernelHeap.Heap.Krealloc: for a size above 0xFFFFFFF8, where rounding wraps, asks that no block fits or that the new one is not smaller than the old, because otherwise the source copies past its end.
- RamFs.FileSystem.MkdirP: asks for components shorter than 48 characters, because longer ones run over a buffer in the source.
- RamFs.FileSystem.Pwd: of a walk of more than 16 nodes the source prints only the lowest part, and the contract says so instead of the whole path.
- MountTable.Mounts.MountAt: for a FAT mount asks for components shorter than 48 characters, as MkdirP does.
- MyLangScript.ScriptMeans: covers scripts within the line limits whose while bodies are flat; MyLangPrograms.NestedLoop says what becomes of the others.
- FAT32: disk errors, partition probing, fat32_ls, fat32_cat, long file names and writing inside sub-directories are not modelled; the static sector and cluster buffers are local values, and the disk is a sequence that never fails.
- Calculator and MyLang: integers are unbounded, so the overflow of `long`, the 20-digit limit of expand_expr's number buffer and the cut to 32 bits in print are not modelled; output is a list of what was printed, not characters on a screen.
- RAM filesystem: locking, fs_ls, fs_size and directory listing are not modelled.
- Kernel heap: pointer alignment and concurrent callers are not modelled.
- Scheduler: stacks, context switching, names, tick counters and the worker task are not modelled; memory for a stack is a parameter of a spawn.
- Keyboard: the serial fallback of keyboard_trygetchar is not modelled; the handler runs as one step between the reader's steps.
- Mount table: locking and listing are not modelled; whether a FAT volume can be mounted is a parameter.
- Device drivers, graphics, shell, games, program loading, system calls and the 64-bit kernel are not part of this model.
