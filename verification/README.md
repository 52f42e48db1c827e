# A verified model of OksSystem

OksSystem is a C++ library around POSIX: files, paths, processes, pipes, memory-mapped files, and a store
for strings inside one region of memory. This project models its stateful core in Dafny and proves what the
core promises, for every input, every run and every answer of the modelled system calls.

| file | models |
|---|---|
| `Text.dfy` | `std::string` searching, C strings, splitting, joining and tokenising loops |
| `StringCodecs.dfy` | the text that a vector or a map of strings is stored as, and the loops that write and read it |
| `StringHeap.dfy` | the string area as bytes, the map from offset to string that the bytes represent, and all runs |
| `StringMemoryArea.dfy` | the class itself, over an array of characters |
| `PipeIn.dfy` | `pipe_in` as a protocol between parent, child and bounded pipes, and `copy_fd` |
| `ExecArrays.dfy` | the `argv` and `env` arrays of `exec`, and their release when the call fails |
| `FileNames.dfy` | `protocol`, `uri`, `depth`, `parent_name`, and the components of a name |
| `FileTree.dfy` | a file tree with modes, ownership and a umask, lookup of names with "." and "..", and the system calls |
| `PathMaking.dfy` | what `make_path` does to the tree: when it returns normally, what it leaves, and what a failure leaves |
| `TreeRemoval.dfy` | what `directory` lists, and what `remove` may delete |
| `FileSystem.dfy` | the methods `make_dir`, `make_path`, `permissions`, `directory` and `remove`, and `remove` after `make_path` |
| `PathList.dfy` | `Path`: parsing and writing a list of directories, and `which` |
| `Fifo.dfy` | `FIFOConnection`: messages over a byte stream that lives only while somebody holds the FIFO open |
| `MapFile.dfy` | the life cycle of a memory map and its descriptor, and `zero` |
| `PrettySize.dfy` | `pretty_size` |

Code that changes things step by step is a class or a method with a loop, proved against a specification
function; what the library promises is then proved about that function over whole runs. System calls are
parameters or nondeterministic choices. A thrown exception is a failure value.

## Main results

- **String area.** Every run of additions, clears and insertions (of strings, vectors and maps) on handed-out
  offsets stays inside the region and refines a map from offset to string. Slots tile the used part, nothing
  of a replaced string survives, and what an offset reads survives every run that does not name it
  (`RunRefines`, `Tiling`, `BudgetedRunIsSafe`, `VectorSurvives`, `MapSurvives`).
- **Codecs.** The exact sets of vectors and maps that survive being stored: `VectorRoundTrip` and
  `MapRoundTrip` are equivalences.
- **`pipe_in`.** It can return exactly when stdout and stderr each fit into a pipe. Then every run is bounded,
  ends, and returns exactly the child's stdout unless a read fails; otherwise no run gets past the join (`PipeInExact`,
  `ReturnsIffFits`, `NeverPastJoin`).
- **`make_path` and `remove`.** For every absolute name that the system accepts, dot components included:
  the exact condition under which each returns normally, and the exact tree afterwards (`MakingExact`,
  `FailureExact`, `Remove`). For names that only lead down, `make_path` is all or nothing, and `remove` undoes it
  (`DownwardExact`, `MakeThenRemove`).
- **FIFO.** Over every interleaving of opens, sends, reads and closes, what was taken, what the last close
  discarded and what is left are the messages sent, in order. The readers are given all of it exactly if every
  last close meets an empty FIFO and no NUL was taken (`FifoConserves`, `MessageExchange`).
- **`exec`.** The kernel sees the name, the parameters and the environment, and a failed call leaves the
  allocator as it was.

## Where the code and its documentation differ

The model follows the code.

- `pipe_in` is documented to put the content of stderr into the exception; the code collects it and drops it
  (`src/Executable.cpp:391-396`). So what a child wrote to stderr has no influence on the outcome
  (`StderrIsDropped`), and a failing child that explains itself cannot be told from a silent one
  (`ExplanationIsLost`).
- `pipe_in` is documented to return the output of any command; it blocks for good exactly when a stream is larger
  than a pipe (`ReturnsIffFits`, `NeverPastJoin`), as with one byte more than the capacity (`TalkerBlocks`).
- `make_path` and `make_dir` return normally when the name exists and is not a directory
  (`src/File.cpp:732-747`); `MadeTarget` says exactly when a directory results, and `RegularFileStays` shows a
  regular file at the name.
- `make_path` is documented to give a mode to the directories it makes. With a ".." after a missing component it
  also changes the mode of directories that were there: `ReturningChangesMode` shows it for `/a/new/../b`, and
  `FrameExact` says exactly when existing directories keep their modes.
- `depth` is documented as the number of parent directories (`src/File.cpp:108-114`); it counts slashes, which
  below the root is the same exactly if no segment is empty (`DepthCountsParents`), so not for `/a/b/` or `/a//b`
  (`DepthOfEmptySegments`).
- `remove` deletes what is in a directory even when the name is one that `rmdir` then refuses or no longer finds,
  because it ends in a dot component or leads through what was deleted. `Remove` has the exact condition and says
  that all below is gone then; `DotNameEmptied` shows it for `/d/.`, and `PlainStays` shows that names without dot
  components are safe.
- FIFO messages are documented to be at most 511 bytes; `send` checks against 512, and such a message takes
  two reads (`ReadReturnsMessage`, `LongestMessage`).
- A message whose `send` succeeded is lost when the last descriptor is closed before it is read, which
  `send_message`, `read_message` and `close` can all do (`src/FIFOConnection.cpp:49-75`, `217-222`).
  `FifoConserves` says exactly when nothing is lost; `CloseLosesMessage`, `SecondMessageLost` and `LastByteLost`
  show a closing sender, a second message that `read_message` does not wait for, and a message of 512 bytes.
- `pretty_size` uses a unit only above it, so 1024 is printed in B (`OneKilobyte`); `WholeUnitExact` and
  `WholeUnitCut` say exactly for which sizes 1024 of a unit is printed instead of one of the next. A last single
  byte is dropped, exactly if the size is one more than a multiple of 1024 (`PrintedFaithful`).
- Maps are documented not to contain character 3; it does no harm in values, but character 4 does
  (`MapRoundTrip`, `SeparatorsInValues`).
- Destroying a `MapFile` releases its descriptor, but not its mapping (`DestructionExact`). After a failed
  `mmap`, an `unmap` that fails makes `is_mapped` hold with nothing mapped (`UnmapGuardNeeded`).

## Model

| member | source | states |
|---|---|---|
| `StringCodecs.VectorDecodesToTokens` | src/StringMemoryArea.cpp:109-156 | for NUL-free elements, decoding what was stored gives each element's own non-empty tokens, in order |
| `StringCodecs.VectorDropsEmpty` | src/StringMemoryArea.cpp:109-156 | without separators and NULs, exactly the empty strings are lost |
| `StringCodecs.DecodedElementsStorable` | src/StringMemoryArea.cpp:114-133 | any decoded element is non-empty and free of separator and NUL |
| `StringCodecs.VectorRoundTrip` | src/StringMemoryArea.cpp:109-156 | the vector read back is the vector stored if and only if every element is storable |
| `StringCodecs.DecodedMapStorable` | src/StringMemoryArea.cpp:182-208 | any decoded map has storable keys and values |
| `StringCodecs.MapRoundTrip` | src/StringMemoryArea.cpp:176-234 | the map read back is the map stored if and only if keys have no char 3, 4 or NUL and values no char 4 or NUL, in any iteration order |
| `StringCodecs.SeparatorsInValues` | src/StringMemoryArea.cpp:214-219 | a value of char 3 comes back, and one of char 4 does not |
| `StringCodecs.WrittenTexts` | src/StringMemoryArea.cpp:14-15 | the texts of up to two elements or entries, character by character |
| `StringCodecs.OneMoreElement` | src/StringMemoryArea.cpp:116-131 | what one more segment adds to a decoded vector: itself, unless it is empty |
| `StringCodecs.OneMoreEntry` | src/StringMemoryArea.cpp:184-206 | one more entry puts its value at its key, whatever was there |
| `StringCodecs.EntryWithoutSeparator` | src/StringMemoryArea.cpp:196-203 | an entry without char 3 adds nothing |
| `StringCodecs.DecodeIsStable` | src/StringMemoryArea.cpp:109-234 | storing again what was decoded from any text decodes to the same |
| `StringCodecs.WriteVector` | src/StringMemoryArea.cpp:147-155 | the loop writes the elements with one separator between neighbours |
| `StringCodecs.ReadVector` | src/StringMemoryArea.cpp:116-131 | the loop collects the non-empty segments of the text, in order |
| `StringCodecs.WriteMap` | src/StringMemoryArea.cpp:223-233 | the loop writes key, char 3 and value, with char 4 between entries |
| `StringCodecs.ReadEntry` | src/StringMemoryArea.cpp:196-203 | an entry is cut at its first char 3 and skipped without one |
| `StringCodecs.ReadMap` | src/StringMemoryArea.cpp:184-206 | the loop puts the entries between char 4 into the map, later ones over earlier ones |
| `StringHeap.HoldsString` | src/StringMemoryArea.cpp:43-51 | the scan for the terminator stops inside the slot and reads exactly its string |
| `StringHeap.InsertRefines` | src/StringMemoryArea.cpp:78-90 | an insertion does on the bytes what it does on the map, and returns the same offset |
| `StringHeap.StepRefines` | src/StringMemoryArea.cpp:23-90 | each command on a handed-out offset is memory-safe and refines the map |
| `StringHeap.RunRefines` | src/StringMemoryArea.cpp:23-90 | every run refines the map, with the same results, and never leaves the region |
| `StringHeap.StepFrame` | src/StringMemoryArea.cpp:23-90 | a command leaves what every other handed-out offset reads |
| `StringHeap.ClearEffect` | src/StringMemoryArea.cpp:43-51 | clear returns the length of the string it erases and leaves "" |
| `StringHeap.InsertEffect` | src/StringMemoryArea.cpp:78-90 | the returned offset reads the new string; a relocated one is above all earlier slots and the old offset reads "" |
| `StringHeap.InsertedText` | src/StringMemoryArea.cpp:78-90 | a NUL-free string that is inserted is itself read at the returned offset, at once and after any later run at other offsets |
| `StringHeap.AddedText` | src/StringMemoryArea.cpp:23-36 | the same for an added string, right after the last one |
| `StringHeap.Tiling` | src/StringMemoryArea.cpp:23-51 | every used position lies in exactly one slot, and after a slot's string there are only NULs |
| `StringHeap.ReachableTiling` | src/StringMemoryArea.cpp:23-90 | the same for every state that a run from a new area reaches |
| `StringHeap.StepSpace` | src/StringMemoryArea.cpp:78-90 | last_string grows by length + 1 on an append and by 0 on reuse, and reuse happens exactly when the new string is no longer than the current one |
| `StringHeap.BudgetSuffices` | src/StringMemoryArea.cpp:25-34 | a run whose lengths plus one each fit into the free space always has room, whatever it replaces |
| `StringHeap.BudgetedRunIsSafe` | src/StringMemoryArea.cpp:23-90 | from a new area such a run is safe, refines the map and uses at most its budget |
| `StringHeap.RunFrame` | src/StringMemoryArea.cpp:43-90 | what an offset reads survives every run that does not name it |
| `StringHeap.StoredSurvives` | src/StringMemoryArea.cpp:78-90 | a stored string is read back after any later run at other offsets |
| `StringHeap.VectorSurvives` | src/StringMemoryArea.cpp:109-156 | a stored vector decodes to itself after any later run at other offsets, exactly if its elements are storable |
| `StringHeap.MapSurvives` | src/StringMemoryArea.cpp:176-234 | the same for a map |
| `StringMemoryArea.StringMemoryArea.Add` | src/StringMemoryArea.cpp:23-36 | the string is read at the returned offset, right after the last one, with 32-bit offsets, as the run model says |
| `StringMemoryArea.StringMemoryArea.Clear` | src/StringMemoryArea.cpp:43-51 | the loop zeroes exactly the string at the offset and counts it; the offset then reads "" |
| `StringMemoryArea.StringMemoryArea.GetString` | src/StringMemoryArea.cpp:59-67 | none for offset 0 or a null read pointer, else the C string at the offset |
| `StringMemoryArea.StringMemoryArea.Insert` | src/StringMemoryArea.cpp:78-90 | the string is read at the returned offset, which is the given one exactly if the string is no longer than the one there |
| `StringMemoryArea.StringMemoryArea.GetVector` | src/StringMemoryArea.cpp:109-137 | the decoded vector of the string at the offset, empty for offset 0 or a null read pointer |
| `StringMemoryArea.StringMemoryArea.InsertVector` | src/StringMemoryArea.cpp:145-156 | the text of the vector, cut at its first NUL, is read at the returned offset |
| `StringMemoryArea.StringMemoryArea.GetMap` | src/StringMemoryArea.cpp:176-212 | the decoded map of the string at the offset, empty for a null read pointer |
| `StringMemoryArea.StringMemoryArea.InsertMap` | src/StringMemoryArea.cpp:221-234 | the text of the map, cut at its first NUL, is read at the returned offset |
| `PipeIn.StepConserves` | src/Executable.cpp:311-388 | each step keeps collected bytes, pipe content and bytes still to be written together, for both streams |
| `PipeIn.StepMoves` | src/Executable.cpp:311-321 | each step moves as many bytes as it says, and leaves the other stream alone |
| `PipeIn.StepPhased` | src/Executable.cpp:375-397 | each step keeps the order join, read, finish, and the pipes within their capacity |
| `PipeIn.StepDecreases` | src/Executable.cpp:311-397 | each step lowers a measure, so every run is bounded |
| `PipeIn.RunInvariant` | src/Executable.cpp:325-404 | the three facts over every interleaving |
| `PipeIn.NextAction` | src/Executable.cpp:375-397 | while the output fits, some step is possible until pipe_in has finished |
| `PipeIn.PipeInExact` | src/Executable.cpp:325-404 | every run is bounded and loses nothing; a finished one gives on status 0 a prefix of the child's stdout, all of it unless a read of stdout failed, and otherwise the status or signal; a halted one has finished if and only if the output fits |
| `PipeIn.WholeOutput` | src/Executable.cpp:311-404 | if no read fails in it, a finished run of a child with status 0 returns exactly its stdout |
| `PipeIn.TextReturned` | src/Executable.cpp:311-404 | so a text written in two parts, with something on stderr in between, is returned |
| `PipeIn.StepsInOrder` | src/Executable.cpp:379-391 | if no read fails, a finished run joins the child and then reads stdin, stdout and stderr each to the end |
| `PipeIn.NeverPastJoin` | src/Executable.cpp:379-388 | when a stream does not fit, no run gets past the join |
| `PipeIn.ReturnsIffFits` | src/Executable.cpp:325-404 | pipe_in can return if and only if stdout and stderr each fit into a pipe |
| `PipeIn.TalkerBlocks` | src/Executable.cpp:379-388 | pipe_in cannot return for a child that writes one byte more than the capacity |
| `PipeIn.StderrIsDropped` | src/Executable.cpp:391-396 | two children that end alike, with the same stdout where it counts, have the same outcome whatever their stderr |
| `PipeIn.ExplanationIsLost` | src/Executable.cpp:391-396 | a failing child that writes to stderr can only end in the exception of a silent one |
| `PipeIn.CopyFd` | src/Executable.cpp:311-321 | the copied text and what is left make up the content, and nothing is left unless a read failed |
| `PipeIn.Drain` | src/Executable.cpp:380-397 | after the join each pipe is drained, up to a failed read, and the outcome is the content of stdout for status 0, and an issue with the status otherwise |
| `ExecArrays.CopyStrings` | src/Executable.cpp:100-104 | each string is copied into a fresh block whose address goes into its slot; nothing else changes |
| `ExecArrays.BuildTable` | src/Executable.cpp:152-174 | the array is read by the kernel as exactly the strings, and consists of fresh blocks |
| `ExecArrays.ReleaseUntilNull` | src/Executable.cpp:110-113 | every string before the first null and the array are released, each once |
| `ExecArrays.ReleaseAll` | src/Executable.cpp:182-190 | every slot, null or not, and the array are released, each once |
| `ExecArrays.ExecParams` | src/Executable.cpp:94-123 | one exec call is made, which saw the name and the parameters, and the allocator is afterwards as before |
| `ExecArrays.ExecParamsEnv` | src/Executable.cpp:130-196 | the same with an environment array, each string of which is key, equals sign and value |
| `ExecArrays.EnvExample` | src/Executable.cpp:143-143 | the environment with b for A gives the string A=b |
| `ExecArrays.EnvRoundTrip` | src/Executable.cpp:142-147 | the array gives back the environment if and only if no key has a '=' and nothing has a NUL |
| `FileNames.Protocol` | src/File.cpp:66-70 | the text before the first colon, or nothing |
| `FileNames.Uri` | src/File.cpp:101-105 | with a colon, protocol, colon and uri give the url back; without, the uri is the url |
| `FileNames.Depth` | src/File.cpp:116-132 | the counting loop computes the number of slashes after the first, through file urls |
| `FileNames.DepthUnderstood` | src/File.cpp:116-132 | depth is non-negative if and only if the text is zero or more "file:" prefixes before an absolute name, and never below -1 |
| `FileNames.DepthOfFileUrl` | src/File.cpp:128-130 | the depth is then that of the absolute name |
| `FileNames.DepthOfUrl` | src/File.cpp:128-131 | "file:" before an absolute name leaves its depth; any other protocol gives -1 |
| `FileNames.DepthCountsParents` | src/File.cpp:108-126 | an absolute name has at most depth + 1 components, exactly as many if and only if no segment is empty |
| `FileNames.DepthOfEmptySegments` | src/File.cpp:116-126 | a/b with a trailing or a doubled slash has depth 2 |
| `FileNames.ParentIsShallower` | src/File.cpp:427-432 | the parent is absolute, strictly shorter until "/", and one level up |
| `FileNames.AncestorsReachRoot` | src/File.cpp:427-432 | depth + 1 steps to the parent end at "/" |
| `FileNames.ParentComponents` | src/File.cpp:427-432 | the parent drops the last component, or only a trailing slash |
| `FileNames.ParentOfEntry` | src/File.cpp:427-432 | the parent of a directory, a slash and an entry is the directory, or "/" for the root |
| `FileNames.CanonicalText` | src/File.cpp:395-401 | a canonical name is "/" or has one slash before each component |
| `FileNames.CanonicalComponents` | src/File.cpp:395-401 | a canonical name stands for the path it is made from |
| `FileTree.DirectoryBit` | src/File.cpp:584-587 | is_directory holds for directories, block devices and sockets |
| `FileTree.SetNameStable` | src/File.cpp:380-402 | canonicalising keeps what a name stands for and is idempotent |
| `PathMaking.ParentSeen` | src/File.cpp:762-767 | with the parent in place, make_dir alone gives the outcome and the tree of the whole make_path |
| `PathMaking.ParentUnseen` | src/File.cpp:763-767 | without it, make_path is make_path on the parent with the owner's rights added and then make_dir, whatever the umask |
| `PathMaking.StepsExact` | src/File.cpp:761-768 | the steps through missing components succeed if and only if each passes, and leave every place they lead to made or visited |
| `PathMaking.MakingExact` | src/File.cpp:761-768 | make_path returns normally exactly on makeable names, and leaves exactly the tree described, for every absolute name |
| `PathMaking.FailureExact` | src/File.cpp:761-768 | a failure leaves exactly what was made and visited so far, which is nothing if and only if the first step fails |
| `PathMaking.MadeTarget` | src/File.cpp:751-768 | the target is a directory unless another kind of node was there, and has exactly the mode asked for if new or owned |
| `PathMaking.FrameExact` | src/File.cpp:729-738 | existing nodes other than the target keep their modes if and only if every existing place on the way does |
| `PathMaking.TrailingSlash` | src/File.cpp:761-768 | a trailing slash changes neither target nor tree, and makes the name unmakeable exactly if an existing target is no directory |
| `PathMaking.DownwardExact` | src/File.cpp:751-768 | without ".." after a missing component, make_path succeeds exactly if the deepest known place may be entered and written, makes exactly the missing part, and is otherwise without effect |
| `PathMaking.ModesMade` | src/File.cpp:751-768 | a directory made on the way gets the mode asked for and 0700, the target the mode asked for |
| `PathMaking.MakingTakesRights` | src/File.cpp:717-768 | making /o/x takes write and search rights to /o, the owner's or those of others, so 0755 of another owner is not enough |
| `PathMaking.PlainIsDownward` | src/File.cpp:761-768 | a name without dot components only leads down, to exactly its components |
| `PathMaking.ReturningChangesMode` | src/File.cpp:729-738 | make_path(0700) on /a/new/../b changes the mode of an existing /a |
| `PathMaking.RegularFileStays` | src/File.cpp:732-747 | make_path on a regular file returns normally and changes nothing |
| `TreeRemoval.PlainStays` | src/File.cpp:674-674 | names without dot components can be used for rmdir after everything below is gone |
| `TreeRemoval.EntryFileExact` | src/File.cpp:626-628 | the file built for an entry has the canonical name of the child, or one that does not exist if the directory may not be searched |
| `TreeRemoval.FilesDistinct` | src/File.cpp:614-640 | no child is listed twice |
| `TreeRemoval.EmptiedDirectory` | src/File.cpp:674-674 | rmdir after the loop succeeds exactly when the name could be removed as a whole, and completes that |
| `TreeRemoval.SingleNode` | src/File.cpp:675-677 | unlink on a non-directory deletes exactly that node |
| `FileSystem.FileSystem.SetPermissions` | src/File.cpp:699-708 | chmod only if the mode differs; it fails only on a missing node or another owner's |
| `FileSystem.FileSystem.MakeDir` | src/File.cpp:717-749 | it returns normally if and only if the name exists or mkdir succeeds, and changes the target only |
| `FileSystem.FileSystem.MakePath` | src/File.cpp:761-768 | for every absolute name it returns normally if and only if the name is makeable, and leaves the tree described, or what was made until it failed |
| `FileSystem.FileSystem.Directory` | src/File.cpp:614-640 | it lists a file for each child, each once, without "." and "..", in any order |
| `FileSystem.FileSystem.Remove` | src/File.cpp:665-678 | for every absolute name it returns normally if and only if everything at or below it may be deleted and the name stays usable, then exactly that is gone; on failure only deletable nodes below the name are gone, and all of them if only the name was at fault |
| `FileSystem.DotNameEmptied` | src/File.cpp:665-678 | remove on /d/. fails, though everything may be deleted, and leaves /d empty |
| `FileSystem.RemovalTakesRights` | src/File.cpp:665-678 | removing the file /o/x takes write and search rights to /o, and owning one of the two if /o is sticky |
| `FileSystem.ListingTakesRights` | src/File.cpp:614-619 | listing /o takes read rights to it |
| `TreeRemoval.NothingLeftBelow` | src/File.cpp:668-673 | when everything may be deleted, the loop leaves nothing below the directory |
| `FileSystem.FileSystem.RemoveChildren` | src/File.cpp:668-673 | the loop deletes the children and only deletable nodes, or the directory cannot be removed |
| `FileSystem.MakeThenRemove` | src/File.cpp:665-768 | removing what make_path had to make gives the first tree back, and is possible if and only if the mode asked for lets the owner read the target |
| `PathList.FullNameStable` | src/File.cpp:380-402 | a full name is absolute and a File built from it has the same name |
| `PathList.FullNameMeaning` | src/File.cpp:185-196 | an unresolved relative name is in the working directory, a tilde name in that user's home, and a tilde name without a slash or with an unknown user throws |
| `PathList.FullNameResolves` | src/File.cpp:380-402 | realpath's answer or the absolute name itself; relative and home names are first made absolute |
| `PathList.TreeIsSane` | src/File.cpp:395-401 | the file tree is an instance of what is assumed about realpath |
| `PathList.ParseAppend` | src/Path.cpp:57-76 | two lists joined by a colon parse to the directories of both, in order, or fail if either does |
| `PathList.PathRoundTrip` | src/Path.cpp:57-103 | writing and parsing a list gives it back if, and where realpath adds no colon only if, no name has a colon |
| `PathList.TwoDirectories` | src/Path.cpp:57-92 | two names are written with a colon between them and read from that, empty segments being passed over |
| `PathList.ParseIsStable` | src/Path.cpp:57-103 | writing a parsed list and parsing again changes nothing |
| `PathList.Path.ParsePathList` | src/Path.cpp:57-76 | the loop appends the files of the non-empty segments, in order |
| `PathList.Path.WriteTo` | src/Path.cpp:82-92 | the loop writes the names with colons between them |
| `PathList.Path.Which` | src/Path.cpp:111-117 | the file for directory, slash and name of the first directory for which it is present, or none if there is none |
| `PathList.ChildFileComponents` | src/Path.cpp:111-117 | when realpath does not know that file, it stands for the components of both |
| `PathList.ChildInTree` | src/Path.cpp:111-117 | in the file tree it is the canonical name of what is there |
| `PathList.PingInBin` | src/Path.cpp:111-117 | ping in /bin is /bin/ping |
| `Fifo.RunConserves` | src/FIFOConnection.cpp:49-222 | over every interleaving of opens, sends, reads and closes, the bytes taken, discarded and left are the messages sent, whole and in order, and nothing is left when nobody holds the FIFO |
| `Fifo.RunRecords` | src/FIFOConnection.cpp:49-118 | the messages recorded as sent are those given to the sends, and the taken parts have the lengths of the reads |
| `Fifo.DiscardsExact` | src/FIFOConnection.cpp:217-222 | nothing is discarded if and only if every last close meets an empty FIFO |
| `Fifo.FifoConserves` | src/FIFOConnection.cpp:49-222 | the readers are given everything that is not still there if and only if every last close met an empty FIFO and no NUL was taken |
| `Fifo.KeptOpen` | src/FIFOConnection.cpp:187-222 | a descriptor that is opened first and never closed keeps everything |
| `Fifo.MoreSentThanRead` | src/FIFOConnection.cpp:49-75 | once nobody holds the FIFO, more bytes sent than 511 for each read means that some were discarded |
| `Fifo.MessageExchange` | src/FIFOConnection.cpp:49-75 | one message and one read in any order of opens and closes: the read takes a first part and the rest is discarded, so it arrives if and only if that part is all of it and has no NUL |
| `Fifo.CloseLosesMessage` | src/FIFOConnection.cpp:187-222 | open for both, send, close loses the message |
| `Fifo.SecondMessageLost` | src/FIFOConnection.cpp:49-75 | of two send_message and one read_message, the second message is lost although a reader was there |
| `Fifo.LastByteLost` | src/FIFOConnection.cpp:49-75 | send_message and read_message lose the last byte of a message of 512 |
| `Fifo.OneMessagePerRead` | src/FIFOConnection.cpp:88-118 | if every send and every last close meets an empty FIFO and reads are full, each read returns one message |
| `Fifo.ReadReturnsMessage` | src/FIFOConnection.cpp:88-118 | a message comes back from one read if and only if it is shorter than 512 and has no NUL |
| `Fifo.LongestMessage` | src/FIFOConnection.cpp:88-118 | a message of 512 comes back without its last byte, which stays in the FIFO |
| `Fifo.Poll` | src/FIFOConnection.cpp:55-64 | the polling loop returns the next bytes, at most 511, as a C string, and waits exactly while there are none and it blocks; it throws exactly if a read fails, and then takes nothing |
| `Fifo.FIFOConnection.Open` | src/FIFOConnection.cpp:126-209 | asking for a non-blocking open makes the connection non-blocking for good, whether the open succeeds or fails |
| `Fifo.FIFOConnection.Close` | src/FIFOConnection.cpp:217-222 | the descriptor is closed, which discards the content if it was the last, and the flag stays |
| `Fifo.FIFOConnection.Send` | src/FIFOConnection.cpp:88-93 | the whole message is appended exactly if that is possible and the write does not fail; otherwise nothing |
| `Fifo.FIFOConnection.Read` | src/FIFOConnection.cpp:105-118 | the same loop on the descriptor and the flag of the connection |
| `Fifo.FIFOConnection.SendMessage` | src/FIFOConnection.cpp:67-75 | an open, the whole message exactly if somebody could read then and the write does not fail, and a close, with any steps of others in between |
| `Fifo.FIFOConnection.ReadMessage` | src/FIFOConnection.cpp:49-65 | an open, one read that took something, or an exception exactly if a read failed, and a close, with any steps of others in between |
| `MapFile.StepOwns` | src/MapFile.cpp:60-155 | each guarded call keeps the object's reports in line with what the kernel holds, whichever calls fail |
| `MapFile.RunOwns` | src/MapFile.cpp:60-155 | the same over every run |
| `MapFile.LifeCycle` | src/MapFile.cpp:31-155 | after every run is_mapped holds exactly when one more mapping is held, and the pointer is set exactly when one more descriptor is open |
| `MapFile.MapThenUnmap` | src/MapFile.cpp:141-155 | successful map and unmap: in between one more mapping and descriptor, which the object reports, and afterwards none |
| `MapFile.GuardNeeded` | src/MapFile.cpp:60-63 | mapping keeps ownership if and only if there was no descriptor before |
| `MapFile.UnmapGuardNeeded` | src/MapFile.cpp:105-115 | unmapping keeps ownership if and only if the memory was mapped, or munmap succeeds on an address that was not |
| `MapFile.FailureIsFinal` | src/MapFile.cpp:50-74 | after a failed mmap or close only destruction is left, and it gives the descriptor back exactly if close succeeds |
| `MapFile.DestructionExact` | src/MapFile.cpp:50-54 | after any guarded run, destruction leaves no mapping if and only if is_mapped did not hold, and no descriptor if and only if there was none or close succeeds |
| `MapFile.MapFile.MapIt` | src/MapFile.cpp:141-144 | on success the object is mapped at the address mmap gave and has the descriptor; a failed open changes nothing, and a failed mmap leaves the file open and nothing mapped |
| `MapFile.MapFile.UnmapIt` | src/MapFile.cpp:152-155 | on success the mapping and the descriptor are gone; a failed munmap leaves both and a failed close the descriptor |
| `MapFile.MapFile.Destructor` | src/MapFile.cpp:50-54 | closes an open descriptor and unmaps nothing |
| `MapFile.Zero` | src/MapFile.cpp:117-132 | the loop zeroes as many leading bytes as the writes took, all of offset + size exactly unless one was short or failed; it throws exactly if one failed |
| `MapFile.ZeroLength` | src/MapFile.cpp:117-132 | the file then has length offset + size if and only if it was not longer before |
| `PrettySize.Parts` | src/File.cpp:271-285 | the loop prints the greedy parts, where a unit is used only above it, and they are faithful |
| `PrettySize.PrintedFaithful` | src/File.cpp:262-285 | the parts add up to the size, less 1 exactly when size mod 1024 is 1; amounts fit an int and are at most 1024 below GB; with cut_small there is one part, and less than its unit is omitted |
| `PrettySize.CutIsFirst` | src/File.cpp:265-285 | cut_small prints the first part of the full list |
| `PrettySize.WholeUnitExact` | src/File.cpp:275-276 | in full, 1024 of a unit below GB is printed if and only if the size is 1 GB, 1 MB above whole GB or 1 KB above whole MB |
| `PrettySize.WholeUnitCut` | src/File.cpp:275-276 | with cut_small, if and only if the size is 1 GB, 1 MB or 1 KB |
| `PrettySize.OneKilobyte` | src/File.cpp:275-276 | 1024 is printed as 1024 B |

## Left out

- `StringMemoryArea.Add`: the range-check macros are preconditions, with the end strictly inside the region, since the terminator is written at the end.
- The overloads of `insert` that take the address of an offset: they assign the result of the modelled one.
- `PipeIn.PipeInExact`: the child neither reads its standard input nor writes to it, and leaves no process behind that keeps a pipe open; pipes, fork and waitpid succeed.
- `ExecArrays.ExecParams`: allocation always succeeds; the number of parameters fits an int. One routine builds both arrays of the second overload, where the source repeats the loop.
- Signal masks and dispositions, fork failure, `start`, `pipe_out`: plumbing around the modelled calls.
- `FileNames.Depth`: the count is an unbounded integer.
- `FileSystem.FileSystem.MakePath`: no symbolic links, no privileged process, owner and other bits only (no groups), no full disks and no other process changing the tree; modes are the twelve permission bits.
- `FileSystem.FileSystem.Remove`: the same restrictions.
- `FileSystem.FileSystem.Directory`: failing `readdir` and `closedir` calls.
- Names with a NUL, which system calls cut at it and `parent_name` does not, and names longer than `PATH_MAX`: the file results do not describe them.
- `PathList.Path.ParsePathList`: what the directories are after an exception is not stated, as the only caller is a constructor.
- `PathList.Path.Which`: whether a name exists is an oracle.
- `Fifo.FIFOConnection.Read`: the steps of others are tried per poll, and a blocking read that never meets a byte is shown as still polling when they end. One routine is the loop of `read` and of `read_message`.
- `Fifo.FIFOConnection.Open`: a blocking open is shown when it takes effect; waiting for the other side, and for room in a full pipe, only excludes some of the runs. The warnings for a file that is missing or is no FIFO.
- `MapFile.MapFile.MapIt`: the protection flags passed to mmap, and `is_loaded`, which stays true after unmapping.
- `PrettySize.Parts`: sizes of 2^61 and more, whose amount of GB does not fit an int; the digits and unit names of the text.
- `Host`, `User`, `Environment`, `Process`, `Descriptor`: thin wrappers over system calls; error texts and streams.
