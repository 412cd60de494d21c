# files_sort_out — a verified model of `collect` and `copy`

`files_sort_out` is a small command-line tool that finds the directories of a
tree whose files are mostly images and then copies them somewhere else. This
project models its two working commands in Dafny:

- **collect** walks a tree and, for each directory, counts its regular-file
  children and how many of them have an image extension (`.jpeg .jpg .bmp
  .png .gif .tiff`, case-sensitive). It keeps the directory when it has at
  least one file and images make up at least 80% of its files. The kept
  directories, in walk order, are saved as the record `image_dirs`.
- **copy** reads that record back. If it is empty, it reports "No image
  folders are found" and stops. Otherwise entry `n` (counting from 0) becomes
  the directory `0<n>_<name>` under the destination, which receives the
  regular files directly inside the source directory under their own names.
  `mkdir` is called without `exist_ok`, so an existing target stops the run.

Modules, one file each:

- `wrappers.dfy` — `Option`.
- `fs_model.dfy` (`FsModel`) — directory entries, directories, walk items, and
  Python's `PurePath.suffix` rule with the image test.
- `decimal.dfy` (`Decimal`) — Python's `str(n)` and its inverse.
- `classifier.dfy` (`Classifier`) — the counting functions, the 80% test, the
  scan as a specification function (`ImageDirs`) and as the nested-loop
  method `Collect`.
- `transfer.dfy` (`Transfer`) — target names, the destination as a class
  with `MakeDir`/`CopyFile`, the copy loop `Copy` and its specification
  `RunCopy`, and the properties of both.
- `result_store.dfy` (`ResultStore`) — the one-record store.
- `commands.dfy` (`Commands`) — the two commands put together.

Abstractions:

- A directory is its path, its name and its immediate children. Each child is
  `File(name)` when `is_file()` holds and `NotFile(name)` for anything else.
- The walk order `Path.glob("**")` produces is an input sequence of `Node`s.
  A node is either a directory or a path that `is_dir()` rejects, and such
  paths are skipped.
- The float test `image_files/total_files >= 0.8` is written as the integer test
  `5 * images >= 4 * total`. `Classifier.QualifiesIsRatio` proves that this
  is the exact ratio test.
- The destination is a map from the directories directly under it to the set
  of file names each holds, together with the set of names directly under it
  that are held by something other than a directory (a regular file, a link).
  `mkdir` fails on a name of either kind. `shutil.copy` to a name that is
  already there replaces that file, which a set captures.

Target names are not padded to a fixed width: `f"0{n}_..."` puts the whole
decimal index after the leading zero. `Transfer.TargetNameInjective` proves
that two entries never share a target. What changes at ten entries is the
name order: `Transfer.OrderBreaksAtTen` shows that `010_x` sorts before
`02_x`.

## Model

| member | source | states |
|---|---|---|
| `FsModel.IsImage` | src/files_sort_out/files_sort_out.py:71 | defines the image test as the suffix being one of the six extensions; `FsModel.IsImageIff` gives its meaning |
| `FsModel.LastDot` | src/files_sort_out/files_sort_out.py:71 | the index found is a '.', and no '.' follows it (-1 when there is none) |
| `FsModel.Suffix` | src/files_sort_out/files_sort_out.py:71 | the suffix is empty, or a '.' followed by at least one dot-free character that ends the name and leaves a non-empty stem |
| `FsModel.SuffixAt` | src/files_sort_out/files_sort_out.py:71 | when the last dot lies strictly inside the name, the suffix runs from that dot to the end |
| `FsModel.IsImageIff` | src/files_sort_out/files_sort_out.py:71 | a file counts as an image exactly when its name is a non-empty stem followed by one of the six extensions, spelled exactly as listed |
| `FsModel.ImageExamples` | src/files_sort_out/files_sort_out.py:71 | `photo.jpg`, `scan.tiff` and `a.b.png` are images (the last dot decides) |
| `FsModel.DotsOnlyStem` | src/files_sort_out/files_sort_out.py:71 | `..jpg`, a stem of dots only, has the suffix `.jpg` and is an image under the pre-3.14 rule |
| `FsModel.NotImageExamples` | src/files_sort_out/files_sort_out.py:71 | `photo.JPG`, `photo.webp` and the hidden file `.jpg` are not images |
| `Decimal.NatToString` | src/files_sort_out/files_sort_out.py:102 | `str(n)` is a non-empty digit string with no leading zero, one character long exactly when n < 10 |
| `Decimal.ParseNatToString` | src/files_sort_out/files_sort_out.py:102 | reading the digits of `str(n)` back gives n |
| `Decimal.NatToStringInjective` | src/files_sort_out/files_sort_out.py:102 | distinct indices have distinct decimal strings |
| `Classifier.TotalFiles` | src/files_sort_out/files_sort_out.py:64-69 | the number of regular-file children, never more than the children; `Classifier.NoFilesIff` and `Classifier.CountsAppend` give its meaning |
| `Classifier.Qualifies` | src/files_sort_out/files_sort_out.py:74 | defines the 80% test over the integers; `Classifier.QualifiesIsRatio` ties it to the ratio and `Classifier.Boundary` to the fixture's boundary |
| `Classifier.IsImageDir` | src/files_sort_out/files_sort_out.py:74 | a directory is kept when its two counts pass the test; `Classifier.NoRegularFileNeverQualifies` and `Classifier.FixtureLeaf` are about it |
| `Classifier.ImageDirs` | src/files_sort_out/files_sort_out.py:61-75 | defines the scan's result; `Classifier.ImageDirsSound`, `Classifier.ImageDirsComplete` and `Classifier.ImageDirsAppend` give its meaning, and `Classifier.Collect` is proved against it |
| `Classifier.ImageFiles` | src/files_sort_out/files_sort_out.py:64-72 | the image count never exceeds the regular-file count |
| `Classifier.CountsAppend` | src/files_sort_out/files_sort_out.py:67-72 | both counts add up over consecutive parts of a listing |
| `Classifier.NoFilesIff` | src/files_sort_out/files_sort_out.py:64-69 | the file count is zero exactly when no child is a regular file |
| `Classifier.NoRegularFileNeverQualifies` | src/files_sort_out/files_sort_out.py:74 | a directory none of whose children is a regular file (subdirectories, links, special files, or no children at all) is never kept, however many there are |
| `Classifier.QualifiesIsRatio` | src/files_sort_out/files_sort_out.py:74 | the integer test holds exactly when total > 0 and images / total >= 0.8 in exact arithmetic |
| `Classifier.Boundary` | src/files_sort_out/files_sort_out.py:74 | 4 images out of 5 files qualify, 3 out of 5 do not, and 0 files never qualify |
| `Classifier.Collect` | src/files_sort_out/files_sort_out.py:56-75 | the nested counting loops return exactly `ImageDirs(walk)`, the in-order filter of the walk's directories by the 80% test |
| `Classifier.ImageDirsSound` | src/files_sort_out/files_sort_out.py:61-75 | every directory in the result was visited by the walk and qualifies |
| `Classifier.ImageDirsComplete` | src/files_sort_out/files_sort_out.py:61-75 | every qualifying directory of the walk is in the result |
| `Classifier.ImageDirsAppend` | src/files_sort_out/files_sort_out.py:61-75 | the result keeps walk order: scanning a + b gives the result of a followed by the result of b |
| `Classifier.ImageDirsLength` | src/files_sort_out/files_sort_out.py:61-75 | the result is never longer than the walk |
| `Classifier.AllImages` | src/files_sort_out/files_sort_out.py:67-72 | in a listing of image files only, both counts equal its length |
| `Classifier.CountsPerm` | src/files_sort_out/files_sort_out.py:64-72 | both counts are the same for any order in which `glob("*")` lists the children |
| `Classifier.FixtureLeaf` | tests/test_sort_out_images.py:12-28 | a directory like the fixture's leaf (four image files, one more file, any number of children that are not regular files, in any listing order) qualifies |
| `Transfer.TargetName` | src/files_sort_out/files_sort_out.py:102 | defines the target name `0<n>_<name>`; `Transfer.TargetNameInjective` and the order lemmas give its meaning |
| `Transfer.Target` | src/files_sort_out/files_sort_out.py:102 | the target name of entry n of the list |
| `Transfer.LexLess` | tests/test_sort_out_images.py:120 | defines Python's string order used when the test sorts the targets; `Transfer.TargetOrderBelowTen` and `Transfer.OrderBreaksAtTen` are stated with it |
| `Transfer.RunCopy` | src/files_sort_out/files_sort_out.py:96-107 | defines the destination and the outcome after `copy`; `Transfer.CopyKeepsExisting`, `Transfer.CopyOutcomeIff`, `Transfer.CopyIntoFresh` and `Transfer.CopyTwiceCollides` give its meaning, and `Transfer.Copy` is proved against it |
| `Transfer.DigitsThenUnderscore` | src/files_sort_out/files_sort_out.py:102 | a shorter digit string followed by '_' never begins a target whose digit string is longer |
| `Transfer.TargetNameInjective` | src/files_sort_out/files_sort_out.py:102 | equal targets `0<n>_<name>` have equal indices and equal names, so the entries of one list never share a target |
| `Transfer.TargetOrderBelowTen` | src/files_sort_out/files_sort_out.py:102 | for indices below ten, Python's string order on targets is the list order, whatever the names |
| `Transfer.OrderBreaksAtTen` | src/files_sort_out/files_sort_out.py:102 | the target of entry 10 sorts before that of entry 2 |
| `Transfer.FileNames` | src/files_sort_out/files_sort_out.py:104-107 | a name is copied exactly when some child of the source is a regular file of that name |
| `Transfer.Planned` | src/files_sort_out/files_sort_out.py:101-107 | after the first k entries, each of their targets holds exactly the regular-file names of its source |
| `Transfer.PlannedKeys` | src/files_sort_out/files_sort_out.py:101-103 | the entries create nothing but their own targets |
| `Transfer.FirstClash` | src/files_sort_out/files_sort_out.py:101-103 | finds the first entry whose target name is already taken, or reports that there is none |
| `Transfer.Destination.MakeDir` | src/files_sort_out/files_sort_out.py:103 | creates an empty directory when no directory and no other entry holds the name, and otherwise fails and changes nothing |
| `Transfer.Destination.CopyFile` | src/files_sort_out/files_sort_out.py:106-107 | adds the file name to the target directory and changes nothing else |
| `Transfer.CopyFiles` | src/files_sort_out/files_sort_out.py:104-107 | the fresh target ends up holding exactly the regular-file names of the source, and nothing else changes |
| `Transfer.NotPlannedYet` | src/files_sort_out/files_sort_out.py:101-103 | the earlier entries never create the target of a later one |
| `Transfer.ClashIsFirst` | src/files_sort_out/files_sort_out.py:103 | a target the loop finds taken was taken before the run and is the first such entry |
| `Transfer.PlannedStep` | src/files_sort_out/files_sort_out.py:101-107 | copying entry n after the first n entries gives the plan of the first n + 1 entries |
| `Transfer.Copy` | src/files_sort_out/files_sort_out.py:96-107 | an empty list changes nothing and reports no image folders; otherwise the new destination and outcome are `RunCopy` of the old destination |
| `Transfer.CopyKeepsExisting` | src/files_sort_out/files_sort_out.py:103 | whatever the outcome, no directory that existed before the copy is changed |
| `Transfer.CopyOutcomeIff` | src/files_sort_out/files_sort_out.py:101-107 | a non-empty list copies completely exactly when none of its target names was taken, by a directory or anything else; otherwise the reported target is one that was |
| `Transfer.BlockedByNonDirectory` | src/files_sort_out/files_sort_out.py:103 | a regular file or other non-directory holding the first target stops the run with nothing created |
| `Transfer.FileInTheWay` | src/files_sort_out/files_sort_out.py:103 | a file `00_a` in the destination blocks the one entry named "a" |
| `Transfer.CopyIntoFresh` | src/files_sort_out/files_sort_out.py:101-107 | when no target name is taken, all entries are copied: the new names are exactly the targets, and each holds the regular-file names of its source |
| `Transfer.CopyTwiceCollides` | src/files_sort_out/files_sort_out.py:103 | running a successful copy again into the same destination fails on the first entry and changes nothing |
| `Transfer.FixtureTargetNames` | tests/test_sort_out_images.py:122 | entries 0 to 8 named "02" get the targets "00_02" to "08_02" |
| `Transfer.FixtureTargetSet` | tests/test_sort_out_images.py:122 | the targets of nine entries named "02" are exactly "00_02" to "08_02" |
| `Transfer.FixtureCopy` | tests/test_sort_out_images.py:115-124 | nine entries named "02" copied into an empty destination all succeed and create exactly "00_02" to "08_02" |
| `ResultStore.Store.Save` | src/files_sort_out/files_sort_out.py:80-81 | the record becomes the list just scanned, replacing any earlier one |
| `ResultStore.Store.Load` | src/files_sort_out/files_sort_out.py:93-94 | returns the stored record unchanged, or nothing when no scan was stored |
| `Commands.CollectCommand` | src/files_sort_out/files_sort_out.py:56-81 | the stored record is exactly the in-order filter of the walk |
| `Commands.CopyCommand` | src/files_sort_out/files_sort_out.py:93-107 | with no record nothing changes; otherwise the destination and the outcome are those of `RunCopy` on the stored list |
| `Commands.CollectThenCopy` | src/files_sort_out/files_sort_out.py:80-94 | a copy after a scan works on exactly the list the scan found |

## Left out

- Command-line layer (click decorators, help text, `cli()`, progress bar, the `--print` listing and the "Found …"/"Copied …" messages): user interface with no logic. The copied count is kept as `Copied(count)`.
- Elapsed-time measurement: clocks and floats, used only to report times.
- The shelve file format and its I/O: `ResultStore.Store` keeps only the one record. Opening a store with no record, which raises in the source, comes back as `None`.
- File-system effects: the walk order, `is_dir`/`is_file`, `mkdir(parents=True)` for missing parents and the bytes that `shutil.copy` moves. All are inputs or names only.
- Re-listing at copy time: `copy` calls `iterdir()` again, but the model copies the children recorded by the scan. The file system is assumed not to change between the two commands.
- Errors other than an existing target (permission errors, failed file copies, a vanished source directory). The model does not raise them.
- The stub commands `list`, `show`, `exclude`, `move` and `duplicates`: their bodies are empty in the source.
- Directories the walk cannot list: pathlib's `glob` suppresses the listing error and yields nothing, so such a directory arrives with no children listed and is never kept. The model takes the listings as given.
- `Classifier.QualifiesIsRatio`: ties the test to exact real division, not to IEEE-754 doubles. The two agree for every total below about 3.6·10^15, because 4/5 − images/total ≥ 1/(5·total) then exceeds half an ulp of 0.8. This bound is argued here, not proved.
- `FsModel.Suffix`: follows `PurePath.suffix` before Python 3.14, where the suffix runs from the last dot whenever that dot is neither the first nor the last character. Python 3.14 aligned the rule with `os.path.splitext`, under which leading dots belong to the stem, so a name such as `..jpg` has no suffix there; the model, like earlier versions, counts it as an image (`FsModel.DotsOnlyStem`).
