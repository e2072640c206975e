# Verified models of Chromium's `base/`

This project models the parts of Chromium's `base/` library whose correctness is least
visible in the code, and proves what they promise. To check it, run
`dafny verify dfyconfig.toml`.

## What is modelled

**Rearranging file descriptors** (`Shuffle*.dfy`). `PerformInjectiveMultimapDestructive`
rewrites its arcs and the process's descriptor table in place. The table is a map from
descriptors to open files; a delegate is any function from the history of its calls to
answers, so that every theorem speaks about every delegate, including those that fail.
`ShuffleImpl` has the loops over an array of arcs, `Shuffle` the function they compute, and
`ShuffleTheorems` shows that this function is one simultaneous assignment.

**The file tree and its traversal** (`FileSystem.dfy`, `Enumeration.dfy`,
`Enumerator.dfy`, `Deletion.dfy`, `Delete.dfy`, `CopyPaths.dfy`, `Copying.dfy`,
`Copy.dfy`). The disk is a finite tree with the guarded system calls `unlink`, `rmdir`,
`mkdir`, `opendir`/`readdir` and `stat`; a disk may be `faulty`, and then any call may fail
at any time. Paths are strings, and every call resolves its path against the tree as it is
then: each piece, "." and ".." included, is looked up in an existing directory, and a
separator at the end wants a directory in front of it. `FileEnumerator`, `Delete` and
`CopyDirectory` are the source's loops over that disk.

**Paths** (`FilePath.dfy`, `PathComponents.dfy`, `PathExtensions.dfy`) as POSIX strings,
following sections 3.266 ("Pathname") and 4.12 ("Pathname Resolution") of The Open Group
Base Specifications Issue 7.

**Command lines** (`Quoting.dfy`, `CommandLineModel.dfy`, `CommandLine.dfy`): Windows
quoting against the rules of `CommandLineToArgvW`, and the POSIX class `CommandLine`, whose
`argv` and `switches` are kept side by side.

**Lock-free protocols** (`Atomics.dfy`, `AtomicTheorems.dfy`, `RefCount.dfy`,
`LazyInstance.dfy`) as step machines: any number of threads, any interleaving of single
steps, and a compare-exchange helper that may refuse at any time. **At-exit managers**
(`AtExitModel.dfy`, `AtExit.dfy`) as a stack of stacks.

A class method is always proved against a function of the old state; the results about
that function are the lemmas.

## What came out

- *Shuffle, clash.* If an identity arc is followed by another arc from the same source and
  one of them asks for that source to be closed, the close hits the identity arc's own
  destination. This is the only way to lose a destination when duplicates avoid the
  destinations: `ShuffleIsSimultaneous` is an if-and-only-if.
- *Shuffle, duplicates.* The interface asks for a "fresh" descriptor; `dup` returns one that
  is merely not open, and that may be a later arc's destination. With no more than that
  promised, all delegates get the assignment right exactly when the arcs neither clash nor
  are `Risky` (`FreshSufficesIffSafe`). Shifting 0 to 1 and 1 to 2 with only 0 and 1 open
  already fails under the lowest-free rule (`LowestFreeLosesDescriptor`), for which
  `LowestFreeExactly` has the exact condition on the arcs and the table.
- *Extensions.* `RemoveExtension` followed by `Extension` is the path again exactly when no
  trailing separator follows an extension.
- *Relative paths.* Appending to a parent such as `./` swallows its only component, so
  `AppendRelativePath` onto the parent rebuilds the child exactly when the parent's stripped
  form is not `.`.
- *Directory names.* `///a` has the components `//` and `a`: three leading separators in
  front of a name become the alternate root. `DirName` of a path appended to the empty path
  is `.`, not the empty path.
- *Quoting.* `WindowsStyleQuote` loses exactly the empty arguments and the arguments that
  contain a tab but no space, quote or backslash.
- *Command line.* Over a run, parsing `argv` gives the switches and no `--` cuts them off
  exactly when each call satisfies a condition that can be checked before it is made.
  `AppendArg` extends `argv` but not the list of arguments, so that this list stays what
  parsing `argv` gives exactly when no call brings a plain argument along.
- *Deleting.* `Delete` answers true when `stat` finds nothing, and that includes ENOTDIR:
  `f/` and `f/.` leave a regular file `f` in place, and so does `nope/../f`. `StillThere` says
  exactly when a true answer leaves what the path spells. A recursive `Delete` cannot succeed
  for a path that leads through something below its own end, such as `d/e/../../d`, because
  it removes its own way there.
- *Copying, the suffix.* What is pasted onto an existing directory is the source's path
  behind its directory's. The debug check on it fails for a lone name of several letters and
  for a child of a root (`SuffixChecksExactly`); without the check `src` arrives as `c`. A
  one-letter name passes, since its suffix is empty, but lands in the directory itself.
  Doubled separators in front of the name pass as well and lead to the right place, unless
  the directory is "." (`TopLandsExactly`); only the debug check in `Append` minds them.
- *Copying onto itself.* The checks let a source be copied into the directory that it lies
  in (`OntoItselfIsAdmitted`). The answer is true, and every regular file in it is empty
  (`OntoItselfEmpties`, `CopyFileIntoItsDirectory`), because `CopyFile` truncates its target
  before it reads the source. A target above the source may take copies into the source;
  `StaysOutExactly` says when.
- *Copying into "."* without recursion always fails: `Append` gives the empty path for it.
- *Copying, the comparison.* The check that the target does not lie in the source compares
  real paths as strings; it also refuses a target at or below a sibling whose name starts
  like the source's, and nothing else (`TurnedAwayExactly`).
- *Sequence numbers.* They count up to 2^31 calls and stay distinct up to 2^32 calls,
  exactly.

## Model

| member | source | states |
|---|---|---|
| ShuffleImpl.PerformInjectiveMultimapDestructive | base/file_descriptor_shuffle.cc:16-74 | the loop over the array, the 16-place array of temporaries and the delegate end with the answer, table, call history and rewritten arcs of the function `Perform`, also when the delegate fails half way |
| ShuffleImpl.PerformInjectiveMultimap | base/file_descriptor_shuffle.cc:76-80 | the same table and answer, on a copy of the arcs |
| ShuffleImpl.ScanArcs | base/file_descriptor_shuffle.cc:35-59 | the inner loop over the array is the function `Scan`: redirects later sources to one temporary and hands over the close duty |
| ShuffleImpl.TakeTurn | base/file_descriptor_shuffle.cc:24-68 | the body of the outer loop over the array is the function `Turn`, also when it fails half way |
| ShuffleImpl.CloseTemps | base/file_descriptor_shuffle.cc:70-71 | the last loop is the function `CloseExtras` |
| ShuffleProof.ScanResult | base/file_descriptor_shuffle.cc:35-59 | one scan in closed form: which later sources are redirected, that at most one temporary is taken, and where the close duty ends up |
| ShuffleProof.TurnKeepsInv | base/file_descriptor_shuffle.cc:24-68 | every turn keeps the invariant: table without temporaries is the expected one, and every pending source still leads to its original file |
| ShuffleProof.TurnsKeepInv | base/file_descriptor_shuffle.cc:24-68 | the invariant holds at the end of the main loop, for any mix of cycles, chains, fan-outs and identities |
| ShuffleTheorems.EveryTurnKeepsFiles | base/file_descriptor_shuffle.cc:24-68 | over every run that gets through its first n turns, finished destinations then hold the file their source had at the start, clashes aside, and pending sources, rewritten or not, still lead to theirs |
| ShuffleTheorems.ShuffleResult | base/file_descriptor_shuffle.cc:16-74 | for any number of arcs, a successful shuffle leaves the simultaneous assignment without the clashing destinations, plus exactly the leaked temporaries, and up to 17 arcs leak none |
| ShuffleTheorems.SimultaneousMeans | base/file_descriptor_shuffle.h:54-66 | the simultaneous assignment in terms of the arcs: a destination gets the file its source had at the start, any other descriptor keeps its own, unless an arc closes it as its source |
| ShuffleTheorems.LeaksExcess | base/file_descriptor_shuffle.cc:18-46 | what leaks is exactly what was taken beyond the first 16 temporaries |
| ShuffleTheorems.ShuffleIsSimultaneous | base/file_descriptor_shuffle.cc:16-74 | up to 17 arcs, with duplicates that avoid the destinations, the resulting table is the simultaneous assignment if and only if no identity arc clashes with a later arc |
| ShuffleTheorems.ShuffleCloses | base/file_descriptor_shuffle.cc:37-71 | during the turns no close hits a temporary, a closed descriptor or (clashes aside) a destination; the run ends with one close for each of the first 16 temporaries, which are all different |
| ShuffleTheorems.TurnsTakeFewTemps | base/file_descriptor_shuffle.cc:37-46 | n arcs take at most n - 1 temporaries, which is why 17 arcs fit into 16 places |
| ShuffleHazard.FreshSufficesIffSafe | base/file_descriptor_shuffle.h:33-35 | if duplicates are only known to be not open, every willing delegate gets the assignment right if and only if the arcs neither clash nor overwrite a needed source while a later destination is not open |
| ShuffleHazard.SafeIsCorrect | base/file_descriptor_shuffle.cc:16-74 | on safe arcs a willing delegate makes the shuffle succeed with the right table |
| ShuffleHazard.RiskyGoesWrong | base/file_descriptor_shuffle.cc:39-46 | on risky arcs there is a delegate, returning only descriptors that are not open, with which a destination is lost |
| ShuffleHazard.IdentityThenCloseLosesDescriptor | base/file_descriptor_shuffle.cc:55-67 | arcs (5,5) and (5,6,close): every willing delegate succeeds and descriptor 5 is gone |
| ShuffleHazard.LowestFreeLosesDescriptor | base/file_descriptor_shuffle.cc:82-85 | with the lowest-free rule of `dup`, arcs (0,1) and (1,2) on two open descriptors lose descriptor 2 |
| ShuffleDup.CorrectIffTempsAvoidDests | base/file_descriptor_shuffle.h:33-35 | on arcs that do not clash, whatever a willing delegate returns, the shuffle comes out right if and only if no temporary of the run is a destination |
| ShuffleDup.LowestFreeExactly | base/file_descriptor_shuffle.cc:82-85 | with the lowest-free rule of `dup`, on arcs that do not clash, it comes out right if and only if no temporary, computed turn by turn from the arcs and the table, is the destination of a later arc |
| FileSystem.LocateAppend | base/file_path.cc:445-477 | appending a name to a path leads one step down from where the path leads, by way of there |
| Enumerator.FileEnumerator.constructor | base/file_util_posix.cc:617-627 | a new enumerator has to deliver exactly the wanted entries below its root: all levels if recursive, else the first |
| Enumerator.FileEnumerator.Next | base/file_util_posix.cc:651-690 | terminates; delivers an entry still due, never one below which something due is above it, takes just that entry off what is due, and it is a directory only if directories were asked for and anything else only if files were; returns the empty path only when nothing is due; on a faulty disk entries may only get lost |
| Enumerator.Enumerate | base/file_util_posix.cc:617-690 | constructing an enumerator and calling `Next` until it is done gives exactly the nodes below the root (on the first level, if not recursive) whose kind, directory or not, was asked for, each once and before what is below it; on a faulty disk some of them, still each once and in that order |
| Enumerator.FileEnumerator.ReadNext | base/file_util_posix.cc:655-685 | reading the next pending directory moves nothing in or out of what is due, and shrinks the measure of pending subtrees |
| Enumeration.ReadKeepsRemaining | base/file_util_posix.cc:659-685 | what is due is the same before a directory is read and after: its entries are unread or below a pushed subdirectory, whether or not directories were asked for |
| Enumeration.DeliverEntry | base/file_util_posix.cc:651-690 | taking the next entry off the list removes it, and only it, from what is due, keeps the invariant, and leaves nothing above it |
| Enumeration.ReadCoversLess | base/file_util_posix.cc:655-685 | the set of nodes at or below pending paths shrinks with every directory read, also when it is empty |
| Enumeration.RunDeliversEachOnce | base/file_util_posix.cc:651-690 | over every run of calls that each do what `Next` ensures, what was delivered and what is due split the start, exactly unless the disk is faulty; no entry comes twice, and none after something below it |
| Enumeration.RunReachesTheEnd | base/file_util_posix.cc:651-690 | one call more than there are entries gives the empty path, and by then, unless the disk is faulty, all of them have been delivered |
| Enumeration.RunEndsForGood | base/file_util_posix.cc:655-657 | once the empty path has been returned it is returned for ever, and nothing is due |
| Deletion.TopIsEmpty | base/file_util_posix.cc:167-182 | when the traversal is over, the directory on top of the stack is empty, so that `rmdir` can succeed |
| Deletion.PopKeepsStack | base/file_util_posix.cc:178-182 | removing it leaves the same true of the next one |
| Deletion.UnlinkKeepsGood | base/file_util_posix.cc:167-176 | unlinking the entry in hand does not disturb the enumeration that goes on |
| Delete.Traverse | base/file_util_posix.cc:161-176 | the first loop leaves only directories at and below the path, all stacked, each above those below it |
| Deletion.StackedOpens | base/file_util_posix.cc:178-182 | while the stack is there, every stacked directory is reached by its path |
| Deletion.RmdirKeepsWay | base/file_util_posix.cc:178-182 | removing a directory below the path leaves the path's own way open, unless that makes a detour through what lies below |
| Delete.RemoveDirectories | base/file_util_posix.cc:178-183 | the second loop succeeds exactly if the path itself can be removed by name and makes no detour, and then the path is gone |
| Delete.Delete | base/file_util_posix.cc:146-184 | never touches anything that is not at or below the path; true means that exactly the nodes at or below it are gone, or, if `stat` finds nothing there, that nothing changed; on a disk that refuses nothing it is true if and only if the path is deletable |
| Delete.DeleteMeans | base/file_util_posix.cc:150-183 | what goes is what lies at or below the path, if that leads to anything; a directory is deletable exactly for a path that is no root and ends in a name, and that makes no detour with recursion, or has nothing below it without |
| Delete.StillThere | base/file_util_posix.cc:150-155 | a true answer leaves the node that the path spells if and only if the path leads through something that is no directory, or has a separator behind something that is none, or is a link to nothing |
| Delete.DecoratedSparesFile | base/file_util_posix.cc:150-155 | for anything that is no directory, the answer for its path with "/" or "/." behind it is true and leaves it in place |
| CopyPaths.TargetPath | base/file_util_posix.cc:270-291 | pasting the suffix of an entry's path onto the target appends the entry's names one by one, after the source's own name if the target is a directory already |
| CopyPaths.SuffixChecksExactly | base/file_util_posix.cc:275-290 | for a directory target, the suffixes of the source and of all entries below it are empty or start with a separator if and only if the source is one letter, or has a directory in front of its name that is no bare root |
| CopyPaths.TopLandsExactly | base/file_util_posix.cc:275-291 | the pasted path leads to the source's own name in the target directory if and only if the source has such a directory, and its separators are not doubled or the target is not "." (or "." is the root) |
| CopyPaths.LoneNameIsCut | base/file_util_posix.cc:275-291 | for the source `src` and an existing directory `out` the check fails, and the suffix arithmetic without it gives `out/c` |
| CopyPaths.DirNameCovers | base/file_util_posix.cc:238-242 | what lies above the target's place lies at or above the place of its directory, so that checking that one suffices |
| CopyPaths.MissingHasParent | base/file_util_posix.cc:260-261 | if the way to a missing target is open, its parent is a directory |
| CopyPaths.RenderPrefix | base/file_util_posix.cc:243-249 | a target in the source is always recognised by its real path |
| CopyPaths.TurnedAwayExactly | base/file_util_posix.cc:246-249 | the real path of one place is a prefix of another's if and only if the other goes through the same parent and then through a name that starts like its own |
| Copying.TargetReady | base/file_util_posix.cc:282-313 | when an entry is copied the target's parent is a directory already, because directories come before what is below them |
| Copying.TargetFree | base/file_util_posix.cc:282-313 | what an entry meets in its place was there at the start, and is of the same kind if the target fits |
| Copying.MirroredIsCompatible | base/file_util_posix.cc:293-310 | only a target that fits can end up as a mirror |
| Copying.MissingIsCompatible | base/file_util_posix.cc:260-261 | a missing target fits |
| Copying.MirroredMeans | base/file_util_posix.cc:282-313 | away from its source a mirror has every covered directory and regular file with its content, everything that was there, and nothing else that is new or different |
| Copying.MirrorMore | base/file_util_posix.cc:282-313 | one more entry extends the mirror by exactly that entry, and a non-regular file leaves it |
| Copying.AddKeepsGood | base/file_util_posix.cc:282-313 | writing outside the source, over no directory, does not disturb the enumeration of the source |
| Copy.CopyEntry | base/file_util_posix.cc:282-310 | one round of the loop copies one entry or changes nothing, keeps the copy so far a mirror, and with a target that fits fails only at the top, exactly when that cannot be put in place |
| Copying.StaysOutExactly | base/file_util_posix.cc:282-313 | a target at or above the source takes no copy into the source if and only if nothing is to be copied from the place as far below the source as the source is below the target |
| Copy.AdmittedIsApart | base/file_util_posix.cc:233-249 | what the checks let through takes no copy into the source if and only if its target is not at or above the source with something to copy from that place |
| Copy.AdmittedExactly | base/file_util_posix.cc:227-249 | the source is shorter than 4096, both it and the target, or the target's directory if the target is missing, can be resolved, and the latter is not at or below the source's place or one whose name starts like it |
| Copy.OntoItselfIsAdmitted | base/file_util_posix.cc:233-276 | a source is let through into the directory that it lies in, its target is then itself, can be reached, and fits |
| Copy.OntoItselfEmpties | base/file_util_posix.cc:300-301 | a tree mirrored onto itself is the same tree with all its regular files emptied |
| Copy.CopyFileIntoItsDirectory | base/file_util_posix.cc:216-316 | for a regular file and its own directory, on a disk that refuses nothing, the answer is true and the file is empty |
| Copy.CopyDirectory | base/file_util_posix.cc:216-316 | for missing and for existing targets, recursive or not: nothing but the places of copies is touched, and nothing goes away or changes its kind; on a disk that refuses nothing, the answer is true and the target holds the mirror of all covered directories and regular files (emptied, if they are copied onto themselves) if and only if the paths are admitted, the top can be put in place and what is there already is of the same kind |
| FilePath.StripTrailingSeparatorsInternal | base/file_path.cc:1181-1201 | the loop takes off separators only: of a path that is nothing else it leaves `//` for two and `/` for any other number, and of any other path what ends in no separator |
| FilePath.StripIdempotent | base/file_path.cc:1181-1201 | stripping twice is stripping once |
| FilePath.DirAndBaseOfAppend | base/file_path.cc:295-352 | for a nonempty name without separators, the base name of an appended path is the name, and its directory is the stripped path if and only if that was not empty |
| FilePath.AppendAddsLittle | base/file_path.cc:445-477 | appending to "" or "." gives just what is appended, and otherwise at most one separator is added |
| PathComponents.DirNameFixedPoints | base/file_path.cc:295-329 | `DirName` stays put exactly at `.`, `/` and `//`, and decreases a measure elsewhere |
| PathComponents.DirNameOfRooted | base/file_path.cc:295-352 | the directory of a name behind n separators is `.`, `/`, `//`, `//` for n up to 3, and `/` beyond; the base name is the name |
| PathComponents.DirNameOfDeep | base/file_path.cc:295-352 | the directory of a name behind another path and any separators is that path, and the base name is the name |
| PathComponents.ComponentsStep | base/file_path.cc:221-226 | a path has the components of its directory followed by its base name, unless that is only separators |
| PathComponents.GetComponents | base/file_path.cc:208-241 | the loop terminates and returns the components read off the string: one root if absolute, then the nonempty pieces in order, without a leading `.` when others follow |
| PathComponents.ReferencesParentIffPiece | base/file_path.cc:503-514 | true if and only if a piece of the path is `..` |
| PathComponents.ComponentsOfAppend | base/file_path.cc:445-477 | appending a name appends one component, unless the stripped path is `.` |
| PathComponents.AppendRelativePath | base/file_path.cc:243-289 | succeeds if and only if the parent's components are a nonempty proper prefix of the child's, and appends the rest of them to the target |
| PathComponents.AppendRelativeRebuildsChild | base/file_path.cc:247-289 | onto the parent itself, the result has the child's components if and only if the parent's stripped form is not `.` |
| PathComponents.IsParentIrreflexiveTransitive | base/file_path.cc:243-245 | no path is its own parent, and the relation is transitive, on all paths |
| PathExtensions.LongestExtension | base/file_path.cc:121-160 | there is no extension exactly in `.`, `..` and where there is no dot; otherwise it is the double extension (one to four characters, then a common final extension) if there is one, and starts at the last dot if not |
| PathExtensions.CommonDoubles | base/file_path.cc:47 | the final extensions that may follow another are gz, z and bz2, in either case |
| PathExtensions.ExtensionMeans | base/file_path.cc:354-361 | the extension is empty exactly for base names `.`, `..` and those without a dot, and otherwise the end of the base name from the dot of the double extension or else the last dot |
| PathExtensions.SameDot | base/file_path.cc:121-160 | the search over the whole path finds the position that the search over the base name finds, double extensions and dots in directory names included |
| PathExtensions.RemoveThenExtension | base/file_path.cc:354-372 | the two parts join to the path if and only if the path has no trailing separators to strip or no extension |
| Quoting.WindowsStyleQuote | base/command_line.cc:48-88 | the loop over runs of backslashes computes `Quote`; the argument comes back unchanged if and only if it has no space, no backslash and no double quote, and otherwise the result is longer and enclosed in double quotes |
| Quoting.SplitQuotedArg | base/command_line.cc:51-85 | a quoted argument is read back as it was, with backslashes in front of quotes and of the end, whatever follows it |
| Quoting.RoundTrip | base/command_line.cc:46-88 | joining the quoted arguments and splitting the line gives the arguments back if and only if each is nonempty and tab-free or quoted, under both readings of doubled quotes |
| CommandLineModel.SwitchReading | base/command_line.cc:93-126 | an argument is a switch exactly if it starts with a dash; its name and value are what it spells after two dashes or else after one, around the first `=` |
| CommandLineModel.TerminatorSplits | base/command_line.cc:202-226 | in front of the first `--` everything with a dash is a switch and the rest are the arguments, in order; behind it everything is an argument |
| CommandLineModel.WrittenSwitch | base/command_line.cc:93-126 | a switch that was written out is read back with its name and value; it starts with two dashes, contains `=` exactly if the value is not empty, and is the terminator exactly if both are empty |
| CommandLineModel.WrittenShortest | base/command_line.cc:309-328 | no shorter argument with two dashes stands for the same switch |
| CommandLineModel.EachText | base/command_line.cc:339-354 | a list of switches adds its texts to `argv`, in order |
| CommandLineModel.SelectedMeans | base/command_line.cc:345-354 | the switches copied for a list of names are those of its parts, in order, and for one name its switch, if there |
| CommandLineModel.SwitchExact | base/command_line.cc:293-328 | appending a switch keeps `argv` and the switches in step if and only if its name has no `=` and name and value are not both empty |
| CommandLineModel.AppendEachExact | base/command_line.cc:339-354 | a list of switches keeps them in step if all are good, and otherwise leaves a state that no later switch can repair |
| CommandLineModel.ArgExact | base/command_line.cc:369-378 | appending an argument keeps them in step if and only if it is not `--` and, if it looks like a switch, is one already there |
| CommandLineModel.ArgsExact | base/command_line.cc:380-389 | appending a list of arguments keeps them in step if and only if there is no `--` among them and their switches only say again what is there |
| CommandLineModel.ArgumentsExact | base/command_line.cc:391-420 | appending another command line keeps them in step if and only if that one's `argv` has no `--` and agrees with its switches on top of these; the arguments read from the joint `argv` are those of both |
| CommandLineModel.SafeSources | base/command_line.cc:391-420 | the command lines that may be appended to every consistent one are exactly the consistent ones |
| CommandLineModel.RunExact | base/command_line.cc:202-420 | over every run from a consistent command line, parsing `argv` gives the switches and meets no `--` all along if and only if every call is good when it is made |
| CommandLineModel.NewIsConsistent | base/command_line.cc:130-160 | a new command line is consistent; one parsed from `argv` is if and only if there is no `--` behind the program |
| CommandLineModel.EmptyArgvSwallowsSwitch | base/command_line.cc:202-226 | without a program in `argv` the first switch is taken for the program |
| CommandLineModel.ArgsNeverGrow | base/command_line.cc:369-378 | no appending call changes the list of arguments |
| CommandLineModel.ArgListExact | base/command_line.cc:374-377 | from a command line in step, the list of arguments stays what parsing `argv` gives if and only if the appended argument looks like a switch |
| CommandLineModel.ListsExact | base/command_line.cc:293-420 | the same for every call that keeps `argv` and the switches in step: if and only if it brings no plain argument along |
| CommandLineModel.RunListsExact | base/command_line.cc:202-420 | over every run, `argv`, the switches and the arguments agree all along if and only if every call is good when it is made and none brings a plain argument along |
| CommandLine.CommandLine.InitFromArgv | base/command_line.cc:202-226 | the loop parses `argv` on top of the switches and arguments that are there |
| CommandLine.CommandLine.AppendSwitch | base/command_line.cc:293-302 | `argv` gets `--name` and nothing more; the map gets the name with the empty value |
| CommandLine.CommandLine.AppendSwitchNative | base/command_line.cc:309-328 | `argv` gets `--name`, with `=value` only if the value is not empty; the map gets the pair |
| CommandLine.CommandLine.AppendSwitches | base/command_line.cc:339-343 | appends every switch of the other command line once, in the sorted order of its map, and ends with the union of the switches; also onto itself |
| CommandLine.BeforeExactly | base/command_line.cc:339-343 | the order of the map is that of dictionaries |
| CommandLine.CommandLine.CopySwitchesFrom | base/command_line.cc:345-354 | appends the named switches that the source has, in the order of the names; also from itself |
| CommandLine.CommandLine.AppendArgs | base/command_line.cc:380-389 | the other's arguments behind `argv`, and nothing else; also its own |
| CommandLine.CommandLine.AppendArguments | base/command_line.cc:391-420 | the other's arguments behind these, its program if asked for, and its switches on top; also onto itself as long as that comes to an end |
| Atomics.StepKeepsInv | base/atomicops_internals_arm_gcc.h:32-75 | every step of every thread keeps the linearization and what each thread in the middle of a call relies on |
| AtomicTheorems.Linearizable | base/atomicops_internals_arm_gcc.h:32-75 | over every run, every returned call has its own effect between its beginning and its end, with the result that the operations give one at a time, and there is no effect without a call |
| AtomicTheorems.CompareAndSwapExact | base/atomicops_internals_arm_gcc.h:32-44 | returns the old value if and only if it swapped at an instant during the call; otherwise it wrote nothing and returns another value that the word had during the call |
| AtomicTheorems.ExchangeExact | base/atomicops_internals_arm_gcc.h:46-54 | over every run, an exchange returns the value that the word had at an instant during the call, and leaves the new one |
| AtomicTheorems.LoadExact | base/atomicops_internals_arm_gcc.h:107-109 | a load returns the value that the word had at an instant during the call, and leaves it |
| AtomicTheorems.StoreExact | base/atomicops_internals_arm_gcc.h:89-91 | a store leaves the value that it was given |
| AtomicTheorems.ReturnsAlone | base/atomicops_internals_arm_gcc.h:32-75 | the retry loops end: left alone with a helper that swaps whenever it can, a thread returns after at most four of its own steps |
| AtomicTheorems.IncrementsSum | base/atomicops_internals_arm_gcc.h:61-75 | with increments only, the word is the start plus the sum of the committed increments, in 32-bit two's complement |
| AtomicTheorems.IncrementReturnsSum | base/atomicops_internals_arm_gcc.h:61-75 | every increment returns that sum up to and including its own commit |
| AtomicTheorems.GetNextCounts | base/atomic_sequence_num.h:19-22 | the numbers handed out are 0, 1, 2, ... if and only if there are at most 2^31 of them |
| AtomicTheorems.GetNextDistinct | base/atomic_sequence_num.h:19-22 | they are all different if and only if there are at most 2^32 |
| AtomicTheorems.GetNextOverRuns | base/atomic_sequence_num.h:19-22 | in every interleaving of up to 2^31 calls each call returns the number of calls that took effect before it, so none comes twice |
| RefCount.StepKeepsCounts | base/atomic_ref_count.h:23-52 | every atomic step of disciplined threads keeps the word equal to the number of references held, modulo 2^32 |
| RefCount.RefCountOverRuns | base/atomic_ref_count.h:23-52 | over every run from a fresh count with at least one and always fewer than 2^32 references, the word counts them, and exactly one decrement has returned false once all are gone, none before |
| RefCount.NothingAfterRelease | base/atomic_ref_count.h:32-40 | over every run that goes on after the decrement that returned false, the count is not touched and no further decrement returns false |
| RefCount.IsOneOverRuns | base/atomic_ref_count.h:54-66 | asked by a holder, `AtomicRefCountIsOne` is true if and only if the caller is the only holder, and it stays that whatever the others do |
| LazyInstance.MoveKeepsInv | base/lazy_instance.cc:15-42 | every step of every thread keeps the protocol, and the state never goes back |
| LazyInstance.AtMostOneChosen | base/lazy_instance.cc:15-30 | over every run, at most one call of `NeedsInstance` returns true |
| LazyInstance.LazyOverRuns | base/lazy_instance.h:122-143 | over every run, one construction and one registered destructor at most, and whoever is back from `Pointer` is back after CREATED was stored and the instance constructed |
| LazyInstance.DtorRegisteredInTheEnd | base/lazy_instance.cc:32-42 | over every run that created the instance, once all threads are back the destructor is registered exactly if there is one |
| LazyInstance.GetsBack | base/lazy_instance.cc:15-42 | a thread that was chosen, or that finds CREATED, gets back by a bounded number of its own moves, so that no spin goes on; it was told to create exactly if it was chosen |
| LazyInstance.EveryoneCanGetBack | base/lazy_instance.cc:15-42 | nothing gets stuck: once the race is won, every thread can still get back, the winner's moves and its own being enough |
| AtExitModel.WithoutManager | base/at_exit.cc:25-55 | without a manager nothing is registered, run or destroyed |
| AtExitModel.NothingLostOrRepeated | base/at_exit.cc:25-69 | over every run, what was registered has either run or is still pending, each as often as it was registered |
| AtExitModel.AllRunInTheEnd | base/at_exit.cc:25-34 | when the last manager is gone, every accepted callback has run exactly once |
| AtExitModel.RunInReverse | base/at_exit.cc:36-64 | callbacks registered in a row run once each, the last one first |
| AtExitModel.DestroyInReverse | base/at_exit.cc:25-34 | at the destruction of their manager they run once each, the last one first, and the managers below are uncovered |
| AtExitModel.DestroyRunsOwn | base/at_exit.cc:25-69 | the same whatever managers came and went above in the meantime: what runs is what was registered while the manager was on top and not processed since |
| AtExitModel.ShadowedStay | base/at_exit.cc:58-69 | no run above them changes the callbacks of shadowed managers |
| AtExit.Globals.Create | base/at_exit.cc:66-69 | the new manager is on top, with nothing registered, and the others are as they were |
| AtExit.Globals.RegisterCallback | base/at_exit.cc:37-47 | pushes onto the top manager's stack only, and does nothing without a manager |
| AtExit.Globals.ProcessCallbacksNow | base/at_exit.cc:50-64 | the loop empties the top manager's stack, running its callbacks in reverse; the other stacks are unchanged |
| AtExit.Globals.Destroy | base/at_exit.cc:25-34 | runs what is pending, the last one first, and puts the shadowed manager back on top |

## Left out

- Copy.CopyDirectory: the caller's part (`Suited`) is a precondition. For a directory target the source has to pass the debug check on its suffix (base/file_util_posix.cc:288); doubled separators in it are excluded for the target ".", where the pasted path is absolute (base/file_path.cc:446); and its name may not be `.` or `..`. A target strictly above the source must not take copies into the source (`Reenters`), because the loop then writes over what it has still to read. Neither end may be a symbolic link, and there must be no links or special files where copies go, because writing through them is not modelled. The source has to be stripped and no root, "." or "". On a faulty disk only "nothing but the places of copies is touched, nothing goes away" is stated: directories that cannot be read are passed over silently, so that a true answer does not mean a complete copy. If something in the target's place is of another kind, the mirror is denied but what is copied is not described. `access` answers truly. Permission bits and wildcards do not occur.
- Copy.CopyEntry: `CopyFile` is one step that gives the target the source's content; its own read and write loop is not part of this model.
- Enumerator.FileEnumerator.Next: symbolic links are leaves, as with SHOW_SYM_LINKS; following links, patterns, INCLUDE_DOT_DOT and failures of `lstat` on single entries are not modelled, and nothing else changes the directory while it is read.
- Delete.Delete: a symbolic link to a directory is not part of the trees (a link leads to something else or to nothing), so that following one, at the end of a path or in its middle, is not modelled; permissions appear only as the faulty disk's refusals; removing the working directory, or one above it, is treated like removing any other; paths contain no NUL characters.
- ShuffleImpl.PerformInjectiveMultimapDestructive: that destinations are distinct is a precondition, as in the source's debug check; EINTR retries do not occur.
- CommandLine.CommandLine.AppendArguments: appending a command line to itself scans a vector that grows with every step and so does not end, unless there is only the program; that case is a precondition. That the program is included exactly if it is not empty is one too, as in the source's debug check.
- AtExit.Globals.ProcessCallbacksNow: a callback is its effect on the trace; callbacks that register or process again would meet the lock and are not modelled.
- Enumerator.FileEnumerator.GetFindInfo: only the file's kind and content are kept of the `stat` information.
- LazyInstance.LazyOverRuns: the reset to EMPTY by the instance's own at-exit callback is not modelled.
- RefCount.RefCountOverRuns: that references are dropped only by their holders, added only by a holder, and stay below 2^32 is the discipline that callers have to keep.
- Atomics.StepKeepsInv: steps are sequentially consistent; memory barriers, weak orderings and other processors' inline assembly are left out.
- FilePath.DirAndBaseOfAppend: drive letters and Windows separators are left out everywhere.
- PathExtensions.SameDot: lower-casing is that of ASCII letters.
- Quoting.RoundTrip: how the program name at the front of the line is read is not modelled, and neither are the other Windows branches of the command line, `ParseFromString` and `PrependWrapper`.
- HFS comparison and pickling of paths, base64, callbacks and binding, and thin wrappers over the operating system: they would only add easy members.
