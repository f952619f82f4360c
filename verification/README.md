# BojanOS: a verified model

BojanOS is a small 64-bit operating system written in C. This project models its logic in Dafny and
proves what the code relies on, or promises, for every input and every run:

- `diff`: the 16-bit table of edit distances and the greedy walk that prints the edit script.
- the in-RAM filesystem: a tree of nodes with parent links, growing child lists and file buffers on a
  heap that never frees; path resolution, creation, removal, recursive removal, `cd` and `vfs_pwd`.
- the shell: the tokenizer that compacts a command line where it stands, and the pipeline executor
  with its two buffers and its global redirection state.
- text commands: `sort`, `uniq`, `find`, `factor`, `cal`, and the line splitting below them.
- the VGA console, the keyboard ring between interrupt and reader, and the bump allocator.

`dafny verify dfyconfig.toml` checks everything.

## How the model is built

A C string is the sequence of characters before its NUL. Code that changes state in place is a class or
a method with loops, proved against a specification function or against a plain statement of what it
computes; the lemmas beside it say what that specification is worth.

| file | part of the system |
|---|---|
| `Diff.dfy` | edit scripts, the distance, the table, the walk |
| `KHeap.dfy`, `Files.dfy`, `Paths.dfy`, `Tree.dfy`, `Pwd.dfy`, `Changes.dfy`, `Vfs.dfy`, `Limits.dfy`, `Find.dfy`, `Glob.dfy` | heap, file contents, paths, the tree as a value, `vfs_pwd`, what operations do to the tree, the filesystem itself, the runs that `vfs_pwd` does not survive, `find` |
| `Lexer.dfy`, `Overtaking.dfy`, `Tokenizer.dfy` | what a command line means; the word loop on overlapping memory; the in-place tokenizer |
| `Pipeline.dfy`, `Cat.dfy`, `Redirection.dfy`, `FileStore.dfy`, `Shell.dfy` | what a pipeline means; `cat` as a command of it; what redirections leave in files; the filesystem as redirections use it; the executor |
| `Lines.dfy`, `Sort.dfy`, `Factor.dfy`, `Calendar.dfy` | `split_lines`, `sort` and `uniq`, `factor`, `cal` |
| `Console.dfy`, `Keyboard.dfy` | the screen and the key ring |
| `Arithmetic.dfy`, `Strings.dfy` | shared facts about numbers and sequences; shared functions on character sequences |

The tree of the filesystem is read off the node objects as a map from nodes to child lists (`Kids()`),
and the lemmas of `Tree`, `Pwd` and `Changes` are about such maps. Addresses come from the growing heap,
so a parent always has a lower address than its children; this is the rank that rules cycles out, for
detached nodes too. A command in a pipeline is an arbitrary deterministic machine that reads characters,
writes characters, clears or recolours the screen, does any work on the file system, and exits.

Some properties hold only under a condition, which is then proved to be exact:

- `diff` answers "Files are identical" correctly for all files of up to `n` lines if and only if
  `n <= 65535` (`Diff.IdenticalLimit`); 65536 lines against none wrap around to zero.
- `vfs_update_pwd` stays inside its buffers and resolving `vfs_pwd` leads back to the working directory
  if and only if that directory is still attached, at most 64 levels deep, and its path is shorter than
  1024 characters (`Pwd.PwdRoundTrip`). `rm -r .` breaks the first of these
  (`Limits.RemoveWorkingDirectory`), 65 `mkdir` and `cd` with short names the second
  (`Limits.DeepestPath`), and sixteen with names of 63 characters the last (`Limits.LongestPath`).
- the allocator is sound for a request if and only if the rounded request does not pass the end of the
  address space (`KHeap.SoundUnlessWrapped`); the heap fits a machine of known size if and only if it has
  at least 17 MiB (`KHeap.HeapFitsMemory`), and leaves the last MiB of it free except up to 17 MiB and
  just above 32 MiB (`KHeap.LeavesLastMiB`).
- the tokenizer's loop over a word ends, on any memory, if and only if its write pointer never passes its
  read pointer (`Overtaking.EndsIfFits`): once it has, the loop reads only digits that it wrote itself. It
  ends for every word if and only if the last exit status has at most two digits
  (`Overtaking.EndsBelowHundred`); `echo $?` behind an unknown command, which sets 127, is a line on which
  it does not (`Overtaking.LongStatusRunsAway`).

An operation that would write past the end of one of its buffers says so in a result named `fits` or
`done`, with its exact condition; what the machine does after that is not modelled.

## Model

| member | source | states |
|---|---|---|
| Diff.CmdDiff | src/cmds.c:439-488 | for any arguments: a message and 2 without two files; else, up to 65535 lines on both sides, "identical" (0) iff the line lists are equal, otherwise (1) the output is that of an edit script from A to B that no other script beats; beyond that the output is still that of a script from A to B. Read line by line, the output tells which lines are only in A ("<") and only in B (">"): with some common lines, in order, they make up A and B |
| Diff.FillTable | src/cmds.c:448-461 | the bottom-up loops leave in every cell the 16-bit value of its recurrence |
| Diff.CellIsDistance | src/cmds.c:448-461 | with at most 65535 lines left on both sides the 16-bit cell is the edit distance of the two suffixes |
| Diff.DistanceBound | src/cmds.c:448-461 | the distance is at most the longer remaining length, so that it fits a cell |
| Diff.Neighbours | src/cmds.c:454-459 | neighbouring cells of the table differ by at most one |
| Diff.KeepIsFree | src/cmds.c:466-467 | matching equal first lines loses nothing, which makes the greedy first branch sound |
| Diff.ZeroDistance | src/cmds.c:462 | the distance is zero iff the suffixes are equal |
| Diff.DistanceIsLowerBound | src/cmds.c:462-486 | every script that turns one suffix into the other costs at least the distance |
| Diff.BestScript | src/cmds.c:462-486 | a script that costs exactly the distance exists |
| Diff.CostIsMinimal | src/cmds.c:462-486 | a script is optimal among all scripts iff it costs the distance |
| Diff.ChosenIsCheapest | src/cmds.c:466-477 | every branch of the walk stays on a cheapest way to the end |
| Diff.NextStep | src/cmds.c:466-484 | the step taken consumes the lines both files have next and is a cheapest one; the last two branches are never taken |
| Diff.PrintScript | src/cmds.c:464-485 | the walk prints exactly one script from A to B, of the cost in d[0] when the table is exact |
| Diff.ScriptTells | src/cmds.c:464-485 | the printed bytes of a script from A to B consist of lines behind "< " and "> "; the first with common lines make up A, the second with the same common lines B |
| Diff.IdenticalLimit | src/cmds.c:448-462 | the verdict "identical" is right for all files of up to n lines iff n <= 65535 |
| Diff.WrapAround | src/cmds.c:450-462 | 65536 lines against an empty file give a zero in d[0] |
| KHeap.AlignUpRounds | src/kheap.c:35-37 | the bit mask rounds up to a multiple of 16, and the 15 largest sizes wrap to zero |
| KHeap.RoundsUp | src/kheap.c:35-37 | the rounded size is the least multiple of 16 that is not below the size |
| KHeap.MaskClearsLowBits | src/kheap.c:35-37 | and-ing with a mask of high ones subtracts the remainder by a power of two |
| KHeap.SoundUnlessWrapped | src/kheap.c:39-45 | a block is granted inside the heap behind all earlier ones, and refused only for lack of room, iff used plus the rounded size stays below 2^64 |
| KHeap.KmallocOutcome | src/kheap.c:39-45 | each of the outcomes of every 64-bit request: granted, refused, or wrapped around and granted with the mark moved back |
| KHeap.Heap.Kmalloc | src/kheap.c:39-45 | for every 64-bit size: granted iff the rounded size fits, then the block starts at the old mark and the mark moves by the rounded size; a sum that wraps around is granted too and moves the mark back |
| KHeap.Heap.constructor | src/kheap.c:16-33 | an empty heap of the size chosen for the machine |
| KHeap.HeapFitsMemory | src/kheap.c:22-32 | the heap chosen for a known memory lies inside it iff there are at least 17 MiB |
| KHeap.HeapSizeIs | src/kheap.c:22-32 | 16 MiB for an unknown memory or beyond 32 MiB, 1 MiB up to 17 MiB, and the memory less 17 MiB in between |
| KHeap.LeavesLastMiB | src/kheap.c:22-32 | 1 MiB of a known memory is left above the heap iff the memory is above 17 and at most 32 MiB, or at least 33 MiB |
| Files.WriteFile | src/vfs.c:102-117 | succeeds iff a file with room; then the contents are the data and nothing outside its own buffer changed, else nothing changed |
| Files.AppendFile | src/vfs.c:119-135 | succeeds iff a file with room; then the contents are the old ones followed by the data, else nothing changed |
| Files.Truncate | src/vfs.c:137-142 | empties a file and touches at most the first byte of its buffer |
| Files.Reserve | src/vfs.c:104-112 | the buffer is kept or replaced by the doubled one with the old contents in it; a failed allocation changes nothing |
| Files.Stream | src/shell.c:46-48 | bytes written one at a time to a fresh file, if no allocation fails, are its contents and cost at most max(64, 4n - 64) bytes of heap |
| Files.StreamBound | src/vfs.c:121-130 | the doubling buffers for n single bytes sum to at most max(64, 4n - 64) |
| Files.NextByte | src/vfs.c:121-130 | one byte costs nothing or exactly one new buffer |
| Paths.ComponentsJoin | src/vfs.c:58-67 | the components of p/q are those of p followed by those of q |
| Paths.OrdinaryComponent | src/vfs.c:58-67 | an ordinary name is its own single component |
| Paths.LongComponent | src/vfs.c:61-67 | of a component beyond 63 characters the first 63 count |
| Tree.ResolveComposes | src/vfs.c:54-84 | for nonempty p, resolving p/q is walking q from where p leads |
| Tree.ResolveStays | src/vfs.c:54-68 | the empty path and "." lead to the working directory, "/" to the root |
| Tree.ResolveUp | src/vfs.c:69-72 | ".." leads to the parent of where one is, behind any path, and in the root nowhere else |
| Tree.ResolveDot | src/vfs.c:68 | "." behind a path changes nothing |
| Tree.ResolveHome | src/vfs.c:73-77 | "~" leads to the child of the root named "root", from anywhere, and nowhere without one |
| Tree.ResolveChild | src/vfs.c:78-81 | an ordinary name leads to the child of that name in the working directory, behind "/" in the root, and nowhere without one |
| Tree.ResolveDown | src/vfs.c:78-81 | a name behind a path leads to the child of that name, and ".." behind that comes back |
| Tree.ListedOnce | src/vfs.c:32-43 | in a sound tree no node is listed twice, in one list or in two |
| Tree.ChainReachesRoot | src/vfs.c:9-22 | every parent chain reaches the root |
| Tree.ListedIsFound | src/vfs.c:24-30 | with distinct names child_of finds every listed child by its name |
| Tree.Node.Root | src/vfs.c:235-238 | the first node: a directory without a name that is its own parent |
| Tree.Node.Make | src/vfs.c:9-22 | a new node is empty and keeps 63 characters of its name |
| Pwd.PwdRoundTrip | src/vfs.c:213-233 | from anywhere, vfs_pwd fits its buffer and resolves back to the directory iff it is attached, at most 64 levels deep and its path shorter than 1024 characters |
| Pwd.ResolveOrdinary | src/vfs.c:54-84 | vfs_resolve only enters nodes all of whose ancestors below the root have ordinary names |
| Pwd.PathComponents | src/vfs.c:225-230 | the path vfs_update_pwd prints splits into the names it collected |
| Pwd.PathSizeIsLength | src/vfs.c:225-230 | the printed path is as long as all its names with a slash each |
| Limits.RemoveWorkingDirectory | src/vfs.c:193-197 | after `rm -r .` anywhere but in the root the working directory is detached and vfs_pwd no longer resolves to it |
| Limits.LongestPath | src/vfs.c:213-233 | from the first tree, with memory for it, sixteen nested directories with names of 63 characters are attached, 16 deep, and their path of 1024 characters does not fit |
| Limits.DeepestPath | src/vfs.c:213-233 | from the first tree, with memory for it, 65 nested directories with short names are attached and their path fits, but vfs_pwd does not resolve to the working directory |
| Changes.AddedOk | src/vfs.c:144-162 | listing a new node under a fresh name keeps the tree sound |
| Changes.AddedResolves | src/vfs.c:86-100 | after a creation under an ordinary last name the path resolves to the new node |
| Changes.PathEnds | src/vfs.c:86-100 | resolving a path is entering its last name from where vfs_resolve_parent leads |
| Changes.AddedLeads | src/vfs.c:144-152 | a path that led nowhere leads to the node made by it iff its last name is ordinary, else still nowhere, as "~" does when /root is missing |
| Changes.AddedKeepsPaths | src/vfs.c:54-84 | every path that resolved before a creation still resolves to the same node |
| Changes.MadeKeepsPaths | src/vfs.c:9-22 | a node that was made but could not be listed changes no path |
| Changes.AddedIsAttached | src/vfs.c:32-43 | a node listed in an attached directory is attached |
| Changes.UnlinkedOk | src/vfs.c:171-183 | taking a node out of its parent's list keeps the tree sound |
| Changes.UnlinkedGone | src/vfs.c:171-183 | afterwards the node is in no list, and every other node is where it was |
| Changes.PrunedOk | src/vfs.c:185-191 | detaching a whole subtree keeps the tree sound |
| Changes.PrunedAttached | src/vfs.c:185-191 | after a recursive removal exactly the nodes outside that subtree are still attached |
| Changes.RemovedLeadsNowhere | src/vfs.c:185-191 | after the recursive removal of a directory its path leads back to it from nowhere |
| Changes.PeelOneMore | src/vfs.c:187-189 | removing the last child's subtree is one step of the loop, for the tree as it then is |
| Changes.UnlinkPeeled | src/vfs.c:185-191 | unlinking the emptied node completes the removal of its subtree |
| Changes.SiblingsApart | src/vfs.c:185-191 | the subtrees of two siblings have no node in common |
| Vfs.SkipSlashes | src/vfs.c:59 | skipping slashes loses no component |
| Vfs.ReadName | src/vfs.c:61-67 | the copied name is the next component, cut to 63 characters |
| Vfs.Fs.constructor | src/vfs.c:235-265 | the invariant holds at the start; the tree is exactly that of vfs_init, with every directory, file and text; /root is the working directory and "/root" its path |
| Vfs.Fs.MakeAll | src/vfs.c:199-211 | a row of simple creations gives exactly these children in this order, files with these texts, and leaves all other texts |
| Vfs.Fs.ChildOf | src/vfs.c:24-30 | the loop finds the first child of that name, if any |
| Vfs.Fs.Resolve | src/vfs.c:54-84 | the pointer walk finds what walking the components of the path means |
| Vfs.Fs.EnterChild | src/vfs.c:68-81 | one component: ".", "..", "~" or a child |
| Vfs.Fs.ResolveParent | src/vfs.c:86-100 | the directory and the last name of a path |
| Vfs.Fs.AddChild | src/vfs.c:32-43 | appends the child iff the list has room or a doubled one can be had |
| Vfs.Fs.MakeNode | src/vfs.c:9-22 | a new empty node outside every list, iff there is memory |
| Vfs.Fs.Mkfile | src/vfs.c:144-152 | keeps the invariant, all contents and all earlier paths; exactly when parent, fresh name and memory are there it makes an empty file, listed last in its directory, to which the path then leads; a last component beyond 63 characters overruns the name buffer |
| Vfs.Fs.Mkdir | src/vfs.c:154-162 | the same for a directory |
| Vfs.Fs.UnlinkNode | src/vfs.c:171-183 | takes exactly this node out of its parent's list, and says whether it was there |
| Vfs.Fs.Rm | src/vfs.c:164-169 | keeps the invariant; unlinks the resolved node unless it is the root or a nonempty directory |
| Vfs.Fs.RmRecursiveNode | src/vfs.c:185-191 | terminates; detaches exactly the subtree, every other list keeps its order, and answers 1 iff the node was listed |
| Vfs.Fs.RmRecursive | src/vfs.c:193-197 | keeps the invariant; the same for the node a path resolves to |
| Vfs.Fs.Write | src/vfs.c:102-117 | the contents of this node become the data or stay, all other contents stay |
| Vfs.Fs.Append | src/vfs.c:119-135 | the data is appended to this node or nothing changes, all other contents stay |
| Vfs.Fs.TruncateFile | src/vfs.c:137-142 | a file becomes empty, all other contents stay |
| Vfs.Fs.OthersIntact | src/vfs.c:102-142 | changing one file changes no other, as their buffers never overlap |
| Vfs.Fs.UpdatePwd | src/vfs.c:213-233 | vfs_pwd becomes the path of the working directory, if that fits |
| Vfs.Fs.Cd | src/cmds.c:122-133 | moves to the resolved directory or reports 1 and stays; keeps the invariant unless the path of that directory does not fit |
| Vfs.Fs.PwdResolves | src/vfs.c:213-233 | in every reachable state the path fits, and vfs_pwd leads back to the working directory iff that is attached and at most 64 deep |
| Vfs.Fs.Do | src/vfs.c:102-233 | one operation keeps the invariant, overruns a buffer exactly when a new name is longer than 63 or the new vfs_pwd longer than 1023 characters, and else does just this: a new empty node, one node or one subtree taken away, one text replaced, extended or emptied, or another working directory |
| Vfs.Fs.Play | src/vfs.c:144-197 | after any run of mkdir, mkfile, rm, recursive rm, write, append, truncate and cd, up to the first that overruns a buffer, the invariant holds: parents, distinct names, no node twice, files without children, counts within capacities, chains to the root, disjoint buffers that end in a NUL, a vfs_pwd below 1024 characters; and vfs_pwd leads back under the condition above |
| Glob.GlobMatchIsCutting | src/cmds.c:522-527 | a string matches iff it can be cut into one piece for each pattern character |
| Find.FindsEachOnce | src/cmds.c:529-546 | below the start exactly the nodes with a matching name are printed, each once |
| Find.EntriesTopDown | src/cmds.c:529-546 | a directory is printed before everything below it, and children in the order of their list |
| Find.EntriesMarked | src/cmds.c:529-546 | every line ends in the name of its node, and for ordinary names in a slash iff the node is a directory |
| Find.FoundPathsResolve | src/cmds.c:529-546 | with ordinary names below the start, each printed path leads from the start to its node |
| Find.FindRec | src/cmds.c:529-546 | the recursion terminates, stays within its path buffer iff every path below fits, and then prints the lines of these entries in order |
| Find.ReadOptions | src/cmds.c:549-554 | the start is the last argument that has no dash and does not belong to a -name, else "."; the pattern is that of the last -name with an argument |
| Find.CmdFind | src/cmds.c:548-564 | for any arguments: "./" and the entries below the start iff all paths below fit the buffer, or 1 and a message when the start is not a directory |
| Lexer.RoundTrip | src/shell.c:227-289 | words and redirections, separated by blanks, come back as what they mean, up to the 63rd word, for every exit status: bare characters, single and double quotes keep what stands in them, an unquoted "$?" is the status in decimal, all in any mix, and "~" and "~/..." stand for /root; the line can be tokenized in place iff each of these words can, its quotes making room for the digits |
| Lexer.AllTaken | src/shell.c:234 | with at most 62 words in front of the last part nothing of the line is left unread |
| Lexer.StatusLimit | src/shell.c:265-274 | every line can be tokenized in place iff the last exit status is below 100 |
| Lexer.ShortStatusFits | src/shell.c:260-277 | with two digits at most the write pointer never passes the read pointer |
| Lexer.ReadPieces | src/shell.c:261-277 | a word glued from bare, quoted and double quoted pieces and "$?" is read up to its end as what the pieces mean |
| Lexer.ReadWord | src/shell.c:258-286 | with "~" expanded; the character behind the word is skipped, so that an operator glued to a word redirects nothing |
| Lexer.ReadRedirection | src/shell.c:237-257 | an operator, blanks and a name are read as that redirection |
| Overtaking.EndsIfFits | src/shell.c:258-277 | on any memory, the loop that reads and writes the same text ends iff the write pointer stays behind |
| Overtaking.Overtakes | src/shell.c:258-277 | else it leaves the memory, whatever stands behind the line |
| Overtaking.Compacts | src/shell.c:258-277 | and if so the loop puts the text of the word in place of its beginning and changes nothing else |
| Overtaking.EndsBelowHundred | src/shell.c:265-274 | the loop ends for every word on every memory iff the status is below 100 |
| Overtaking.LongStatusRunsAway | src/shell.c:265-274 | a status of three digits in a word "$?" keeps the loop going to the end of the memory |
| Tokenizer.Tokenize | src/shell.c:227-289 | ends iff every word can be compacted in place; then the items left in the rewritten line, read at the end, and the redirections are those the line means, and nothing outside the line changes |
| Tokenizer.CompactWord | src/shell.c:258-277 | ends iff the loop on the memory as it is does; then the word without its quotes and with "$?" filled in overwrites itself and nothing that is still unread |
| Tokenizer.TakeWord | src/shell.c:258-286 | if the loop ends, the item reads as the word with "~" expanded, and only the characters of the word changed |
| Tokenizer.TakeTarget | src/shell.c:237-257 | reads the redirection and leaves the line as it was |
| Tokenizer.ExpandTildeAt | src/shell.c:202-211 | "~" and "~/..." are copied under /root if there is memory; every other word stays where it is |
| Tokenizer.StatusDigits | src/shell.c:266-271 | the decimal digits of the exit status |
| Tokenizer.CopyName | src/shell.c:248 | at most 255 characters of the target are copied |
| Pipeline.CutAnywhere | src/shell.c:361-403 | a pipeline cut at any bar is its front, with the output captured, and then its back on the first 65536 bytes of that |
| Pipeline.StageConfined | src/shell.c:338-359 | before a bar nothing is written on the screen, behind one nothing reads the keyboard, and a stage redirected to a file sends nothing; only clearing and colours go past a redirection |
| Pipeline.CaptureConfined | src/shell.c:361-403 | the stages in front of the last write nothing on the screen |
| Pipeline.MoreFuel | src/shell.c:361-403 | the outcome of a pipeline whose commands exit does not depend on the step bound |
| Pipeline.ExitIsCompose | src/shell.c:361-403 | when every segment fits, its commands exiting in their turn is just that the pipeline has an outcome |
| Pipeline.StepsToExit | src/shell.c:329-336 | a command that comes to an exit step by step ends with that code |
| Pipeline.EndsInExit | src/shell.c:329-336 | and a command that ends has come to an exit with its code step by step |
| Pipeline.OutputIs | src/shell.c:46-55 | every character written in front of a bar is sent, and every one written to the screen goes out of the serial port, in order |
| Pipeline.LastStage | src/shell.c:361-403 | the outcome of a pipeline is that of its last stage |
| Pipeline.LastExit | src/shell.c:341-358 | when the last command comes to an exit, the pipeline ends with its code and the world of that moment |
| Pipeline.LastCode | src/shell.c:291-347 | 0 for an empty last stage, 1 for a redirection that cannot be opened, 127 for an unknown command, and then no key is read |
| Pipeline.OutputRefused | src/shell.c:295-307 | the output is refused iff its name leads to a directory, or is missing and no file can be made there |
| Pipeline.KeyRead | src/shell.c:142-147 | Ctrl-D and Ctrl-C are the end of the input, every other key is read as it is |
| Pipeline.LetterRead | src/shell.c:142-147 | a letter key is read as its letter, by Shift, and Ctrl with C or D ends the input |
| Pipeline.RunConfined | src/shell.c:46-55 | a command changes the pipe and the keyboard position and writes on the screen only if they are its sink and source, and output is only ever appended |
| Cat.CatRuns | src/cmds.c:33-43 | on any source of text and any sink, `cat` reads everything and then writes just what its buffer kept, and exits with 0 |
| Cat.CollectsAll | src/cmds.c:19-31 | the buffer keeps the whole text iff no allocation of a doubled buffer fails |
| Cat.CatShows | src/cmds.c:233-239 | the text appears on the screen and the serial port iff there is memory for it |
| Cat.CatAtTheEnd | src/shell.c:361-403 | behind the last bar `cat` shows exactly the first 65536 bytes sent iff there is memory for them, and nothing else is written on the screen |
| Cat.PipeToCat | src/shell.c:361-403 | `command | cat` shows exactly the first 65536 bytes that the command wrote iff there is memory for them |
| Cat.Complaints | src/shell.c:312-336 | an unknown command or a missing input: the message on the screen, 127 or 1, and no file changes |
| Redirection.FileGrows | src/shell.c:46-48 | a command with its output in a file, that does not change this file otherwise on its run, extends it by exactly what it writes, but for refused characters |
| Redirection.NameStays | src/shell.c:46-48 | and the name still leads to the file, unless the command itself changes that on its run |
| Redirection.OutputInFile | src/shell.c:291-322 | a stage with `> f` or `>> f` leaves in f what was kept of it and then what the command wrote, but for refused characters, and sends nothing |
| Redirection.InputFromFile | src/shell.c:133-137 | `cat < f` shows exactly what is in f iff there is memory for it |
| Redirection.WriteThenRead | src/shell.c:291-322 | `command > f` and then `cat < f` shows exactly what the command wrote, but for characters that f refused, iff there is memory for it |
| FileStore.AppendChar | src/vfs.c:119-135 | a character appended to a node of the filesystem extends its text or is refused; no name and no other file changes |
| FileStore.Empty | src/vfs.c:137-142 | truncating a file empties it; no name and no other file changes |
| FileStore.Create | src/vfs.c:144-152 | vfs_mkfile with a missing name changes no text and no name that led somewhere, and what the name then leads to is empty |
| FileStore.Allocate | src/kheap.c:39-45 | taking memory changes no name and no text |
| Shell.Shell.PipeWriterAdd | src/shell.c:29-34 | the written buffer holds the first 65536 characters of everything sent |
| Shell.Shell.OutRaw | src/shell.c:46-55 | a character goes to the output file, else into the pipe, else to the screen and the serial port |
| Shell.Shell.ShGetc | src/shell.c:133-148 | the next character of the input file, else of the pipe, else of the keyboard; -1 at the end and for Ctrl-C and Ctrl-D |
| Shell.Shell.OpenOutput | src/shell.c:291-311 | the output redirection: opened, created, truncated unless appending, or the complaint written to where output goes |
| Shell.Shell.OpenInput | src/shell.c:312-321 | the input redirection, or the complaint written to where output goes |
| Shell.Shell.RunCommand | src/shell.c:329-336 | the command under the global state runs as it does on its own input and output |
| Shell.Shell.RunStage | src/shell.c:341-358 | a stage is what its command line means, and no redirection is left behind |
| Shell.Shell.RunSegment | src/shell.c:338-359 | says whether tokenizing the segment ends and its words are at most 31; if so, it is what its command line means |
| Shell.Shell.SwapPipes | src/shell.c:386-389 | what was written becomes what is read, and the other buffer is empty |
| Shell.Shell.PassOn | src/shell.c:378-392 | after a segment in front of a bar that fits, the rest of the pipeline is still to be run, on what was passed on |
| Shell.Shell.ExecPipeline | src/shell.c:361-403 | says whether all segments fit; if so, files, screen, serial output, keyboard position and exit code are those of the composition of the stages, the code is the last stage's, and all redirection and pipe state is null afterwards |
| Lines.SplitThenPrint | src/cmds.c:68-97 | printing the lines of a text gives it back with its last line finished |
| Lines.PrintThenSplit | src/cmds.c:68-97 | lines without newlines that are printed split into themselves |
| Lines.CountIsLength | src/cmds.c:76-78 | the first pass counts exactly the lines |
| Lines.CountLines | src/cmds.c:76-78 | the counting loop returns the number of lines |
| Lines.SplitLines | src/cmds.c:68-97 | the second pass fills exactly the counted slots with the lines |
| Sort.TotalOrder | src/cmds.c:366-376 | for every mix of -r and -n the comparison is a total order in which only equal lines tie |
| Sort.StrcmpMeans | src/string.c:10-13 | strcmp is negative iff the first string is a proper prefix or has the smaller character where the two first differ |
| Sort.AtoiReads | src/string.c:101-108 | atoi reads back every 32-bit number as printed, behind blanks and in front of anything that is no digit |
| Sort.CmpMeans | src/cmds.c:366-399 | -n goes by the numbers and then by strcmp, -r turns everything around |
| Sort.SortLines | src/cmds.c:394-404 | the in-place insertion sort leaves the sorted lines |
| Sort.ShiftGreater | src/cmds.c:397-402 | greater lines move up by one and leave the slot for the key |
| Sort.SortedKeeps | src/cmds.c:394-404 | the sorted lines are a permutation |
| Sort.SortedInOrder | src/cmds.c:394-404 | and in order, for each mix of flags |
| Sort.SortedAscends | src/cmds.c:394-404 | of two sorted lines the first is equal or comes before in that order |
| Sort.OnlyOneOrder | src/cmds.c:394-404 | there is only one ordered arrangement of the same lines |
| Sort.SortOutput | src/cmds.c:378-413 | what is printed are the lines of the input, all of them or with -u each once, ascending in the order asked for |
| Sort.ReadFlags | src/cmds.c:381-388 | the letters of all options in front of the first operand, in any grouping |
| Sort.CmdSort | src/cmds.c:378-413 | for any arguments: all sorted lines of the named file or of the input, or with -u one of every run; 2 and a message without the file |
| Sort.RunsEncode | src/cmds.c:427-435 | the runs `uniq` prints are the run-length encoding of its input |
| Sort.HeadsStrict | src/cmds.c:405-411 | in a sorted list every line is the head of just one run |
| Sort.CountedLine | src/cmds.c:430-433 | with -c a line is the count in decimal, right in seven columns, a blank, and the line |
| Sort.CmdUniq | src/cmds.c:415-437 | for any arguments: one line for every run, with -c behind its length; 1 and a message without the file |
| Sort.SortThenUniq | src/cmds.c:405-437 | `sort -u` prints the same as `sort` and `uniq` with a pipe between them, when the text fits the pipe |
| Strings.DigitsGiveNumber | src/shell.c:102-120 | the printed digits read in base ten give the number, without a leading zero |
| Strings.PadLeftIs | src/shell.c:102-120 | padding puts just the missing blanks in front |
| Factor.CmdFactor | src/cmds.c:803-814 | for n >= 2 a non-decreasing list of primes with product n is printed, below 2 none |
| Factor.RemainderIsPrime | src/cmds.c:808-811 | what is left when d * d has passed it is a prime not below d |
| Factor.LeastDivisorIsPrime | src/cmds.c:808-810 | a divisor with none below it is prime |
| Factor.FactorizationIsUnique | src/cmds.c:803-814 | the list is the only such list |
| Calendar.FirstOfNextMonth | src/cmds.c:740-751 | the weekday of the next month's first is that of this one plus days_in_month, across leap years and centuries |
| Calendar.ZellerCountsDays | src/cmds.c:740-745 | zeller counts days from a Monday, 1 January of year 1 |
| Calendar.WeekdayInMonth | src/cmds.c:740-745 | within a month the weekday advances day by day |
| Calendar.AnyWeekdayInMonth | src/cmds.c:740-745 | the same for years of either sign, where C divides towards zero |
| Calendar.AnyZellerIsZeller | src/cmds.c:740-745 | which from year 1 on is the same weekday |
| Calendar.Cycle | src/cmds.c:740-751 | the calendar repeats every 400 years |
| Calendar.DaysOfMonth | src/cmds.c:747-751 | 31, 30, and 28 or 29 days, by the Gregorian rule |
| Calendar.YearLength | src/cmds.c:747-751 | twelve months have 365 days, or 366 in a leap year |
| Calendar.DayDigits | src/cmds.c:767 | a day is printed as its decimal number, right in two columns |
| Calendar.PrintMonth | src/cmds.c:766-771 | every day stands in its row and column, and the text has exactly this length |
| Calendar.CmdCal | src/cmds.c:753-773 | for every year: every day of the month is printed at line offset 3 * zeller(year, month, day), and the text has room for nothing else but blanks in front and newlines |
| Console.Vga.constructor | src/vga.c:22-33 | blank, green on black, cursor at the top |
| Console.Vga.PutChar | src/vga.c:44-70 | one character on the paper; the memory is its last 25 rows, row < 25, col < 80, and the cursor registers say where |
| Console.Vga.Scroll | src/vga.c:35-42 | the rows move up by one and a blank one in the current attribute follows |
| Console.Vga.Clear | src/vga.c:22-29 | 25 blank rows, cursor at the top |
| Console.Vga.SetColor | src/vga.c:31-33 | only the attribute of later cells changes |
| Console.Vga.PutTab | src/vga.c:48-54 | blanks up to the next multiple of four columns, and on to the next line past the last |
| Console.Vga.Play | src/vga.c:44-70 | after any run of output the memory is the last 25 rows of the paper |
| Console.HistoryStays | src/vga.c:35-42 | rows that have left the window never change |
| Console.PlainTextFills | src/vga.c:62-68 | character k of plain text stands k cells behind the cursor, across lines |
| Console.PlainTextKeeps | src/vga.c:62-68 | plain text leaves everything before the cursor alone |
| Console.CellParts | src/vga.c:10-12 | the low byte of a cell is the character, the rest the attribute |
| Console.AttributeParts | src/vga.c:31-33 | the low half of an attribute is the foreground, the high half the background |
| Console.NewlineMeans | src/vga.c:45-47 | to the start of the next row, which is a blank one at the end of the paper |
| Console.ReturnMeans | src/vga.c:55-56 | to the start of the row |
| Console.BackspaceMeans | src/vga.c:57-61 | back by one with that cell blanked, but not beyond the start of the row |
| Console.TabMeans | src/vga.c:48-54 | exactly the cells up to the next multiple of four are blanked |
| Console.ClearMeans | src/vga.c:22-29 | 25 blank rows and the cursor at their top |
| Keyboard.NoKeyLost | src/keyboard.c:29-34 | for every interleaving, the keys returned are a prefix of the keys accepted, the rest is just what is pending, and a key is dropped iff 127 are pending |
| Keyboard.StepConserves | src/keyboard.c:74-82 | every interrupt and every statement of keyboard_get conserves the keys |
| Keyboard.DroppedWhenFull | src/keyboard.c:29-34 | a key is accepted iff not exactly 127 are pending |
| Keyboard.ModifiersFollow | src/keyboard.c:41-48 | after any schedule the modifiers say whether Shift and Ctrl are held down |
| Keyboard.LetterKeys | src/keyboard.c:51-71 | each letter key gives the small letter, or the capital with Shift; Ctrl with D or C gives the two end keys |
| Keyboard.DigitKeys | src/keyboard.c:70-71 | the row of digits and its signs |
| Keyboard.CursorKeys | src/keyboard.c:58-68 | the eight cursor keys |
| Keyboard.LetterStruck | src/keyboard.c:36-72 | a letter struck after any schedule is offered as it is labelled, its release offers nothing |
| Keyboard.Driver.BufPush | src/keyboard.c:29-34 | the ring in place pushes as the model does |
| Keyboard.Driver.KeyboardIrq | src/keyboard.c:36-72 | the interrupt as a step: modifiers, releases, Ctrl, cursor keys, key maps |
| Keyboard.Driver.KeyboardGetStep | src/keyboard.c:74-82 | one statement of the reader as a step |
| Keyboard.Driver.Play | src/idt.c:77-79 | any schedule of interrupts between statements runs as the model does |

## Left out

- Boot code, descriptor tables, PIC, timer, clock, serial port registers, CPUID, halting and rebooting: port and machine state.
- mkiso.py, the banner, help, history, line editing, `krealloc` and Multiboot parsing: little to prove.
- Text with NUL bytes: the model works on C strings.
- `&&` and `||` in `shell_exec_line`, and the setting of the exit status there: the test uses the operator behind a segment, so the usual meaning does not hold.
- `cmd_tail`, `cmd_date`, `cp`, `mv` and the padding of left-justified numbers in `sh_printf`.
- Allocation failures in the tokenizer and in the pipe buffers; the buffers are there from the start instead of from the first pipeline.
- Waiting for a key: the keys that will be struck are given as a function, and `keyboard_get` takes the next one.
- sizeof(vnode_t): node records take 128 bytes of heap but are objects of their own, not bytes in it; child lists are sequences with a capacity, and their memory is only counted.
- Table indices of `diff` as 32-bit integers: a table that fits the heap of 16 MiB has small ones.
- Diff.CmdDiff: beyond 65535 lines it only states that a script from A to B is printed, as the stored values wrap around; the files are a map from names to texts.
- Vfs.Fs.constructor: needs a heap of 16 KiB, which every machine gives.
- Tree.Node.Root: is its own parent from the start, which vfs_init sets in the statement after making it.
- Vfs.Fs.Write: the data is a value and cannot alias the buffer that is written.
- Vfs.Fs.Play: written and appended texts are shorter than 4 GiB; the run ends in front of the first operation that overruns a buffer.
- Lexer.RoundTrip: operators glued to a word or to a target are swallowed by the code and not printed here (`Lexer.ReadWord`).
- Tokenizer.Tokenize: where the word loop does not end, the rewritten line is not described.
- Tokenizer.TakeWord: the memory for a copied word is there.
- Tokenizer.CopyName: the last byte of a name buffer that is full is not part of the name; in the source it is not set.
- Cat.CatShows: `cat` without arguments, on text of 8-bit characters from a file or a pipe.
- Redirection.FileGrows: for file operations that obey `Redirection.FileLaws`; that those of `Vfs.Fs` do is proved for each in `FileStore`, on the class and not as one value of `System`.
- Pipeline.CutAnywhere: `Compose` cuts what is passed on at 65536 bytes by definition; that the executor does so is `Shell.Shell.ExecPipeline`.
- Shell.Shell.RunCommand: needs a command that exits within some number of steps; it does not change the exit status or start another pipeline.
- Shell.Shell.RunSegment: the same; what is left behind by a segment that does not fit is not described.
- Shell.Shell.ExecPipeline: the same for each segment up to the first that does not fit; the file system is given by its operations.
- Sort.TotalOrder: `atoi` wraps around at 32 bits, which C leaves open.
- Sort.CmdSort: the files are a map from names to texts, and standard input is its whole text.
- Sort.SortThenUniq: holds for texts of at most 65536 bytes, as the pipe drops the rest.
- Calendar.CmdCal: the clock and the converted arguments are parameters; the least 32-bit year is excluded, from which C cannot subtract.
- Console.Vga.PutChar: the port writes set two cursor fields.
- Keyboard.NoKeyLost: that the reader wakes up from `hlt` is not stated.
