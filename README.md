# Rustybox: chmod, ls, cp, echo and rm, modelled in Dafny

Rustybox is a small busybox-like shell utility written in Rust. All of it is in
`src/main.rs`. This project models the parts of that file that hold decision logic:

- **`chmod`** (`Permissions`, `PermissionProperties`, with `Bits` for the mode
  arithmetic).
  - `Chmod` chooses between a numeric mode and a symbolic one.
  - `Permissions.SymbolicToOctal` is the imperative translation of a symbolic
    expression such as `u+rwx`. It pushes letters onto two strings and
    increments three accumulators in nested loops. It is proved to return what
    the closed-form `SymbolicMode` describes: per-category sums, written in
    decimal side by side, read in base 8, then OR-ed (`+`) or XOR-ed (`-`) into
    the current mode.
  - The current mode is a parameter. `None` stands for a path whose metadata
    cannot be read or whose permissions cannot be set.
- **`ls`** (`Listing`, `ListingProperties`).
  - A directory tree is a datatype: a file is a name; a directory is a name,
    whether `read_dir` succeeds on it, and its entries in enumeration order.
  - `display`, `recursive_ls` and the `ls` branches are pure functions from
    the tree to the printed lines.
- **`cp` and `copy_r`** (`Disk`, `Copy`, `CopyProperties`, `CpProperties`,
  `CopyFixProperties`, `Shell`).
  - The filesystem is a map from paths (sequences of components, `[]` being
    the working directory) to `File(bytes)` or `Dir(entry names)`.
  - The system calls `create_dir_all`, `fs::copy`, `read_dir` and
    `remove_file` are functions from one map to the next, each with its error
    cases.
  - `Copy.CopyTree` specifies `copy_r`. `Shell.FileSystem.CopyR` is the
    recursive method that updates the `nodes` field of a `FileSystem` object
    in a loop over the directory entries. It is proved to produce exactly
    `CopyTree`.
- **`echo`** (`EchoCommand`) and the **option-less branch of `rm`** (`Removal`,
  `RemovalProperties`, `Shell.FileSystem.RemovePlainFiles`).

Where the source and a natural reading of its comments differ, the model
follows the code:

- `display` prints `.` and `..` before *every* entry, not once per directory.
- Each directory child of `copy_r` is passed back to `copy_r` with
  `target/<childname>` as its destination. So the rule "an existing
  destination receives the directory under its own name" applies again at
  every level. See Findings.

## Model

| member | source | states |
|---|---|---|
| Permissions.SymbolicToOctal | src/main.rs:439-544 | the imperative translation returns exactly the closed-form symbolic mode: letters classified, every (category, capability) pair summed with `i32` overflow as a panic, the decimal sums read in base 8 (an error when that is no `u32` octal number), a failed metadata read as an error, then OR for `+` and XOR for `-` |
| Permissions.Chmod | src/main.rs:387-437 | fewer than four arguments is `InvalidInput`; success needs a readable current mode; the only errors are `InvalidInput` (which only the argument checks give), `InvalidData` and the accumulator-overflow panic; `NumericModeReplaces`, `MalformedArgumentsFail`, `LargeNumberLeavesMode`, `SymbolicBranch`, `SymbolicWithoutRepeats`, `UserExecute` and `GroupOtherToggleWrite` give the mode chosen on each branch |
| Permissions.ParseUnsigned | src/main.rs:400-401 | `parse`/`from_str_radix`: a value is only produced when it fits the target type |
| Permissions.DeltaOfSums | src/main.rs:518-527 | the delta read from the three sums always fits in a `u32` |
| PermissionProperties.LastOperatorWins | src/main.rs:446-453 | the operator is the last `+` or `-` of the expression, whatever letters follow it |
| PermissionProperties.NoOperatorMeansAdd | src/main.rs:443-453 | an expression without `+` or `-` adds |
| PermissionProperties.CapabilityCounts | src/main.rs:456-516 | the capability sum is 4 per `r`, 2 per `w` and 1 per `x`, repeats included |
| PermissionProperties.DeltaIgnoresOrder | src/main.rs:446-527 | two expressions that are permutations of each other have the same delta |
| PermissionProperties.SymbolicModeIgnoresOrder | src/main.rs:446-542 | permuted expressions with the same last operator set the same mode |
| PermissionProperties.IgnoredCharacter | src/main.rs:446-453 | inserting a character that is no category, operator or capability letter anywhere changes nothing |
| PermissionProperties.SmallSums | src/main.rs:518-527 | sums below 8 give the octal number with those three digits |
| PermissionProperties.SumsWithoutRepeats | src/main.rs:456-516 | with no repeated letter and `a` alone, each sum is the 4/2/1 weight of the requested capabilities for its category |
| PermissionProperties.DeltaWithoutRepeats | src/main.rs:455-527 | under the same condition the delta is 64·U + 8·G + O |
| PermissionProperties.NoCategoryNoChange | src/main.rs:455-542 | an expression without category letters has delta 0 and leaves the mode unchanged |
| PermissionProperties.RepeatedCategoryFails | src/main.rs:456-527 | `uu+r` sums the user digit to 8, and "800" is rejected as octal |
| PermissionProperties.AllBesideUserFails | src/main.rs:456-527 | `ua+r` sums to 8, 4, 4 and is rejected |
| PermissionProperties.RepeatedCapabilityFails | src/main.rs:456-527 | `u+rr` sums to 8 and is rejected |
| PermissionProperties.LongSumShiftsDigits | src/main.rs:518-527 | `uu+rx` sums to 10, 0, 0, and "1000" is read as octal 1000 (512) |
| PermissionProperties.AddSetsRequestedBits | src/main.rs:530-532 | after `+`, each bit is set exactly when it was set in the mode or in the delta |
| PermissionProperties.SubtractTogglesRequestedBits | src/main.rs:530-534 | after `-`, each bit is set exactly when the mode and the delta differ there, so a clear requested bit becomes set |
| PermissionProperties.SubtractWriteDelta | src/main.rs:446-527 | `u-w` has delta 0o200 and operator `-` |
| PermissionProperties.SubtractOnExamples | src/main.rs:529-542 | `u-w` turns 0o666 into 0o466, and turns 0o466 back into 0o666 |
| PermissionProperties.ToggleWrite | src/main.rs:534 | XOR with 0o200 maps 0o666 to 0o466 and back |
| PermissionProperties.TranslatedMode | src/main.rs:529-543 | a valid delta together with a readable mode always gives the mode combined by the last operator; the "Invalid operation" arm is never taken |
| PermissionProperties.NumericParses | src/main.rs:400-401 | a decimal `u8` made of octal digits passes both parses and is read in base 8 |
| PermissionProperties.NumericModeReplaces | src/main.rs:400-416 | such a mode replaces the current mode outright, and a path whose permissions cannot be set gives `InvalidData` |
| PermissionProperties.NumericWithNonOctalDigitFails | src/main.rs:400-415 | a decimal `u8` holding an 8 or a 9 (`8`, `19`) is an `InvalidData` error |
| PermissionProperties.LargeNumberLeavesMode | src/main.rs:400-433 | a number above 255 is taken as a symbolic expression: no letters, so the mode is left as it is |
| PermissionProperties.SevenFiveFive | src/main.rs:400-433 | `chmod 755 <path>` leaves the mode unchanged |
| PermissionProperties.SymbolicBranch | src/main.rs:417-433 | an expression that is no option and no `u8` goes to `symbolic_to_octal`: its mode becomes the new mode, its panic is passed on, and any other error of it becomes `InvalidData` |
| PermissionProperties.SymbolicWithoutRepeats | src/main.rs:417-543 | with no repeated letter and `a` alone, `chmod <expr> <path>` sets the mode combined by the last operator with 64·U + 8·G + O, and fails with `InvalidData` when the path has no mode |
| PermissionProperties.UserExecute | src/main.rs:417-543 | `chmod u+x <path>` sets the user execute bit (0o100) and keeps every other bit |
| PermissionProperties.GroupOtherToggleWrite | src/main.rs:417-543 | `chmod go-w <path>` flips the group and other write bits (0o022) |
| PermissionProperties.MalformedArgumentsFail | src/main.rs:388-399 | fewer than four arguments, or a mode argument starting with `-`, give `InvalidInput` |
| Listing.Display | src/main.rs:719-721 | a path that cannot be read as a directory displays nothing |
| Listing.RecursiveLs | src/main.rs:699-705 | no output for a path that cannot be read as a directory, and otherwise the first line is `<path>:` |
| Listing.Ls | src/main.rs:605-697 | the only error is `InvalidInput`, reached with at most the `.` and `..` of `-a` printed and only with two to four arguments; bare `ls` fails exactly when the working directory cannot be read; `ls -r <path>` and the five-argument forms never fail; any other shape prints nothing and succeeds; `AllPrintsDotsOnce`, `AllFailsAfterDots` and `PlainListing` give the lines of each flat branch |
| ListingProperties.HiddenNamesFiltered | src/main.rs:719-746 | without `-a`, `display` prints exactly the names not starting with `.`, in enumeration order, as the reference filter gives them |
| ListingProperties.VisibleNamesMembers | src/main.rs:728-743 | the reference filter, and so `display` without `-a`, holds a name exactly when some entry has it and it does not start with `.` |
| ListingProperties.AllHiddenListsNothing | src/main.rs:728-735 | a directory of hidden entries displays nothing without `-a` |
| ListingProperties.ShowingHiddenTriples | src/main.rs:722-743 | with `-a`, every entry prints `.`, `..` and its name: 3 lines per entry and nothing for an empty directory |
| ListingProperties.AllPrintsDotsOnce | src/main.rs:627-641 | `ls -a` prints `.` and `..` once, then every name, hidden ones included |
| ListingProperties.AllFailsAfterDots | src/main.rs:668-683 | `ls -a <path>` on something unreadable prints `.` and `..` and then fails with `InvalidInput` |
| ListingProperties.PlainListing | src/main.rs:642-665 | `ls <dir>` prints the visible names, and fails with `InvalidInput` when the path cannot be read |
| ListingProperties.SubdirectoryBlock | src/main.rs:699-717 | pre-order: header, display, then the complete listing of each directory entry as one contiguous block, in order |
| ListingProperties.ReachableDirectoriesListed | src/main.rs:699-717 | every directory reachable through readable directories gets its header, hidden or not, with or without `-a` |
| ListingProperties.HiddenDirectoryDescended | src/main.rs:707-714 | a hidden subdirectory is listed recursively without `-a`, although `display` does not print its name |
| EchoCommand.Echo | src/main.rs:18-34 | `echo` fails with `InvalidInput` exactly when there is nothing to print or only `-n` |
| EchoCommand.EchoPrintsWords | src/main.rs:35-69 | a successful `echo` prints its words separated by single spaces, with a newline exactly when there is no leading `-n` |
| EchoCommand.EchoRoundTrip | src/main.rs:35-69 | when no word holds a space, splitting the printed line at its spaces gives back the words |
| Disk.ToPath | src/main.rs:275-276 | the components `Path::new` keeps of a command-line string: each is a non-empty name other than `.` that holds no `/` |
| Disk.ToOperand | src/main.rs:275-276 | a command-line path as spelled: its components, whether it is the empty string (which names nothing), and whether a trailing `/` makes it resolve only to a directory; a bare name is the one component it names |
| Disk.CopyOperands | src/main.rs:293 | `fs::copy` on paths as spelled succeeds exactly when both are neither empty nor end in `/` and the copy of their components succeeds, with that result; an empty source, or a file source onto an empty destination, is `NotFound`; a file source spelled with a trailing `/` is `NotADirectory` |
| Disk.FileName | src/main.rs:330-338 | `file_name` exists exactly when the path has a last component other than `..`, and it is that component |
| Disk.MakeDir | src/main.rs:340 | one directory is created exactly when it is absent and its parent is a directory; nothing is lost or changes kind, and nothing off the way to it changes (its parent gains the new name) |
| Disk.CreateDirAll | src/main.rs:340 | on success the path is a directory, nothing existing is lost or changes kind, and nothing off the way to the path changes |
| Disk.CopyFile | src/main.rs:361 | `fs::copy` succeeds only from a file; the destination then is a file with the source's bytes, or empty when it is the source itself, which is truncated first; nothing is lost or changes kind, and nothing off the way to the destination changes |
| Disk.ReadDir | src/main.rs:342 | `read_dir` succeeds exactly on a directory and yields its entries |
| Disk.RemoveFile | src/main.rs:251 | `remove_file` succeeds exactly on a file and removes that path only; every other node keeps its kind and, for a file, its bytes; a directory loses from its entries exactly the removed name |
| Copy.DirectoryTarget | src/main.rs:325-339 | a directory goes to `dest/<basename>` when `dest` exists as any node, to `dest` otherwise; an existing `dest` with a source without a name is `InvalidInput` |
| Copy.FileTarget | src/main.rs:364-382 | a file goes to `dest/<basename>` when `dest` is a directory and onto `dest` otherwise |
| Copy.CopyTree | src/main.rs:320-385 | `copy_r` succeeds only on a source that is a file or a directory, and a failed copy of anything but a directory changes nothing; `TreeExtends`, `TreeFrame`, `ChildrenCopied` and `TreeCopied` state what the walk keeps, touches and copies |
| Copy.CopyRoot | src/main.rs:275-340 | the first `copy_r` of `cp -r` on a directory: with a plainly spelled or existing destination it is `CopyTree` on the components; with one that does not exist (empty, or ending in `/` on a file or nothing) the directory is copied into the destination's components themselves |
| Copy.Cp | src/main.rs:268-318 | `cp` with no arguments is `InvalidInput`; a failed `cp` changes nothing unless it was a `-r` copy of a directory, whose walk may stop half way; `PlainCopy`, `RecursiveFileNeedsDirectory`, `RecursiveFlagBreaksRename` and the empty-path and trailing-slash lemmas give each branch |
| Copy.CopyTreeFixed | src/main.rs:320-385 | the corrected `copy_r` copies a file source exactly as `copy_r` does; `FixedCopyMirrors`, `FixedTreeCopied` and `FixedRecopyChangesNothing` state the correction for a directory |
| CopyProperties.TreeExtends | src/main.rs:320-385 | `copy_r`, whether it succeeds or fails, loses no node, turns no file into a directory or back, and keeps every parent a directory |
| CopyProperties.EntriesExtend | src/main.rs:342-363 | the same for the loop over the entries |
| CopyProperties.TreeFrame | src/main.rs:320-385 | `copy_r` changes nothing off the way to the destination and outside it |
| CopyProperties.EntriesFrame | src/main.rs:342-363 | the loop changes nothing outside the `target/<name>` of the entries it visits and off the way to the target |
| CopyProperties.TargetIsDir | src/main.rs:325-340 | a successful directory copy leaves its target a directory |
| CopyProperties.DestinationIsDir | src/main.rs:320-340 | a successful directory copy leaves a directory at the destination |
| CopyProperties.EntriesCopied | src/main.rs:342-363 | with source and target apart, each file entry ends up at `target/<name>` with the same bytes and each directory entry leaves a directory at `target/<name>` |
| CopyProperties.ChildrenCopied | src/main.rs:320-363 | the same for a whole `copy_r` of a directory, with the target the destination rule chose |
| CopyProperties.TreeCopied | src/main.rs:320-363 | `copy_r` of a directory into a vacant target apart from it, in a filesystem where every node is listed by its parent and no directory lists a name twice, copies the whole tree: every file at `source/r` is at `target/r` with the same bytes, every directory at `source/r` has a directory at `target/r` |
| CopyProperties.EntriesMirrored | src/main.rs:342-363 | the same for the loop over distinct entries whose targets are vacant |
| CopyProperties.StepMirrors | src/main.rs:356-361 | the first entry of the loop lands in its vacant target whole |
| CopyProperties.EntriesSequence | src/main.rs:342-363 | walking entries `a + b` is walking `a` and then, only if no error occurred, walking `b` |
| CopyProperties.FirstErrorAborts | src/main.rs:342-363 | once an entry fails no later entry is visited, and what the earlier entries did stays |
| CopyProperties.FileSourceCopied | src/main.rs:364-382 | a file source lands inside a destination directory under its own name, or onto the destination, with its bytes |
| CpProperties.PlainCopy | src/main.rs:295-316 | `cp src dest`: on success the source was a plainly spelled file, it landed in or onto `dest` with its bytes, and nothing off the way there changed |
| CpProperties.RecursiveFileNeedsDirectory | src/main.rs:274-294 | `cp -r <file> dest` succeeds only when `dest` is a directory, and puts the file at `dest/<basename>` |
| CpProperties.RecursiveFlagBreaksRename | src/main.rs:274-316 | copying a file to a new name in an existing directory works without `-r` and fails with it |
| CpProperties.CopyOntoEmptyPathFails | src/main.rs:297-314 | `cp <source> ""` fails and changes nothing, with `NotFound` when the source is a file |
| CpProperties.RecursiveFromEmptyPathFails | src/main.rs:274-291 | `cp -r "" dest` has no file name and is `InvalidInput`, with nothing changed |
| CpProperties.RecursiveIntoEmptyPath | src/main.rs:274-280 | `cp -r <dir> ""` copies the directory's entries into the working directory itself, since an empty destination does not exist |
| CpProperties.TrailingSlashSourceFails | src/main.rs:274-314 | `cp a.txt/ dest` and `cp -r a.txt/ dest` on a file `a.txt` are `NotADirectory` whatever `dest` is, with nothing changed |
| CopyFixProperties.ChildFromSource | src/main.rs:356-358 | a node that mirrors `source/<m>` below `target/<m>` mirrors `source` below `target` |
| CopyFixProperties.IntoFromSource | src/main.rs:325-363 | the corrected copy of a directory into a target apart from it adds only the directories leading to the target and copies of nodes of the source |
| CopyFixProperties.IntoEntriesFromSource | src/main.rs:342-363 | the same for the corrected loop over the entries |
| CopyFixProperties.FixedCopyMirrors | src/main.rs:320-363 | the corrected `cp -r` of a directory adds nothing that mirrors no node of the source |
| CopyFixProperties.IntoMatches | src/main.rs:340-363 | into a vacant target apart from the source, the corrected copy of a directory gives the same filesystem and result as `copy_r`, because each `target/<name>` is still vacant at its turn |
| CopyFixProperties.FixedTreeCopied | src/main.rs:320-363 | the corrected `cp -r` of a directory into a vacant target apart from it copies the whole tree: each file with its bytes, each directory as a directory |
| CopyScenarios.NestsIntoExistingDirectory | src/main.rs:325-363 | `cp -r src dst` into an empty existing `dst` puts the files at `dst/src/a.txt` and `dst/src/sub/b.txt` |
| RecopyScenarios.RecopyNestsDeeper | src/main.rs:325-358 | running `cp -r src dst` twice creates `dst/src/sub/sub/b.txt`, a level the source does not have |
| RecopyScenarios.SecondRunAddsForeignNode | src/main.rs:325-358 | the second run adds `dst/src/sub/sub`, which mirrors no node of `src` |
| RecopyScenarios.FixedRecopyChangesNothing | src/main.rs:325-358 | with the corrected copy the second run succeeds and leaves the filesystem as the first run left it |
| Shell.FileSystem.CopyR | src/main.rs:320-385 | the recursive method leaves exactly the filesystem and result that `CopyTree` describes |
| Shell.FileSystem.CopyDirectory | src/main.rs:340-363 | the directory branch as a method, its loop over the entries calling `CopyR` back, leaves exactly the filesystem and result that `Copy.CopyDirectory` describes |
| Shell.FileSystem.Cp | src/main.rs:268-318 | `cp` as a method leaves exactly the filesystem and result that `Copy.Cp` describes: no arguments is `InvalidInput`, a missing argument is a panic, `-r` on a directory is `copy_r` on the destination as spelled, `-r` on a file copies into `dest/<basename>` |
| Shell.FileSystem.RemovePlainFiles | src/main.rs:244-263 | the loop of `rm` without options leaves exactly the filesystem and result that `RemovePlainFiles` describes |
| Removal.RemovePlainFiles | src/main.rs:244-263 | the only error of `rm` without options is `InvalidData`, and it never adds a node; `RemoveSucceedsOnDistinctFiles` and `RemoveEffect` give when it succeeds and what it removes |
| RemovalProperties.FilesAfterRemove | src/main.rs:251 | after `remove_file` the files are those there were, less the one removed |
| RemovalProperties.RemoveFromResult | src/main.rs:246-262 | the loop ends in `Ok` exactly when no other argument was met and every argument named, without a trailing `/`, a file not already removed |
| RemovalProperties.RemoveSucceedsOnDistinctFiles | src/main.rs:244-263 | `rm` without options succeeds exactly when every argument is a distinct plain file, and otherwise fails with `InvalidData` |
| RemovalProperties.RemoveFromEffect | src/main.rs:246-256 | the loop removes exactly the files named plainly; every other node stays, of the same kind and, for a file, with the same bytes; a directory loses from its entries exactly the removed names |
| RemovalProperties.RemoveEffect | src/main.rs:244-263 | whatever it returns, `rm` removes exactly the files named plainly and keeps everything else as it was, each directory less the removed names: a directory argument does not stop the files after it from being removed |
| RemovalProperties.TrailingSlashKeepsFile | src/main.rs:247-254 | an argument ending in `/` makes `rm` fail with `InvalidData`, and a file it names stays with its bytes unless another argument names it plainly |

## Left out

- `pwd`, `cat`, `mkdir`, `mv`, `ln`, `rmdir` and `touch` are not modelled: each is a single system call behind an argument-count check.
- `grep` is not modelled, because its matching is the `regex` crate's.
- `main`, the command dispatch and the exit-code table are not modelled.
- The `-d` and `-r` branches of `rm` are not modelled; they call `remove_dir` and `remove_dir_all` in plain loops. Neither are `rm`'s own argument-count checks: the model takes the arguments after the command name.
- Terminal output: a printed line is an element of the output sequence or of a `Result<string>`, and `print!`/`println!` are not modelled as I/O.
- The filesystem has no symbolic links, owners or permission checks. An I/O error that a real system raises for other reasons (permissions, a full disk, a per-entry `read_dir` error) is not modelled. `ls` unwraps such an entry error and `recursive_ls` skips it.
- `read_dir` yields the entries as they are at the call. The walk of `copy_r` lists each directory once, right after `create_dir_all` of its target, so writes the walk itself makes later into the source are not seen by that listing (`cp -r a a` creates `a/a` before `a` is listed, and then lists it); changes by other processes during a walk are not modelled.
- Absolute paths are not distinguished from relative ones, and `..` is kept as a name without being resolved. Every command-line path resolves against one working directory. Of the spelling of a command-line path only two things are kept beside its components: whether it is empty, and whether it ends in `/` (or `/.`). A path whose inner component is a file (`a.txt/b`) fails with `NotFound` rather than `NotADirectory`.
- The operating system's path length limit is approximated by a limit on the number of components (`Disk.MaxDepth`). A path deeper than that fails with `NameTooLong`, which also bounds a copy of a directory into its own subtree.
- `ls` looks paths up in a map from the strings of the command line to trees (`Listing.World`), separate from the map `cp` and `rm` use.
- `to_string_lossy` is the identity: names are sequences of characters.
- The mode's upper bits (file type, setuid) are just bits of the `u32`, which OR and XOR pass through. The error kind of a failed metadata read is taken as `NotFound`.
- Permissions.SymbolicToOctal: `i32` accumulator overflow is modelled as a panic, as in a debug build; a release build would wrap instead. `Chmod` passes the panic on rather than turning it into an error value.
- Listing.Display and Listing.RecursiveLs: per-entry errors of `read_dir` are not modelled, so every enumerated entry is printed or descended into.

## Findings

| source | as written | input that shows it | evidently intended | confidence | as-written member | corrected member |
|---|---|---|---|---|---|---|
| src/main.rs:356-358 | every directory child is passed back to `copy_r` with `target/<name>` as its destination, so the "existing destination receives the directory under its own name" rule applies again below the top level | `src/{a.txt, sub/b.txt}` and an empty directory `dst`: the first `cp -r src dst` creates `dst/src/sub/b.txt`, and a second identical run creates `dst/src/sub/sub/b.txt` | only the top-level directory goes through the destination rule; each child directory is copied into exactly `target/<name>`, so a second run rewrites the same files | not executed | RecopyScenarios.RecopyNestsDeeper | CopyFixProperties.FixedCopyMirrors |
