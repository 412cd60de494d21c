/**
 * The `collect` and `copy` commands as the command line runs them: the scan
 * followed by saving its result, and loading that result followed by the
 * copy.
 */
module Commands {
  import opened Wrappers
  import opened FsModel
  import opened Classifier
  import opened Transfer
  import opened ResultStore

  /** What `copy` ends with: no stored list to read (the source raises), or
      the outcome of the copy itself. */
  datatype CopyCommandResult = NoRecord | Ran(outcome: CopyOutcome)

  /** `collect`: scan the walk and store the qualifying directories. */
  method CollectCommand(store: Store, walk: seq<Node>) returns (imageDirs: seq<Directory>)
    modifies store
    ensures imageDirs == ImageDirs(walk)
    ensures store.imageDirs == Some(imageDirs)
  {
    imageDirs := Collect(walk);
    store.Save(imageDirs);
  }

  /** `copy`: read the stored list and copy it into the destination. */
  method CopyCommand(store: Store, dest: Destination) returns (r: CopyCommandResult)
    modifies dest
    ensures store.imageDirs == None ==> r == NoRecord && dest.dirs == old(dest.dirs)
    ensures store.imageDirs.Some? ==>
      var (after, outcome) := RunCopy(old(dest.dirs), old(dest.others), store.imageDirs.value);
      dest.dirs == after && r == Ran(outcome)
    ensures dest.others == old(dest.others)
  {
    var stored := store.Load();
    if stored == None {
      return NoRecord;
    }
    var outcome := Copy(dest, stored.value);
    return Ran(outcome);
  }

  /** `collect` then `copy` in later, separate runs: the copy works on exactly
      the list the scan found. */
  method CollectThenCopy(store: Store, dest: Destination, walk: seq<Node>) returns (r: CopyCommandResult)
    modifies store, dest
    ensures store.imageDirs == Some(ImageDirs(walk))
    ensures var (after, outcome) := RunCopy(old(dest.dirs), old(dest.others), ImageDirs(walk));
      dest.dirs == after && r == Ran(outcome)
    ensures dest.others == old(dest.others)
  {
    var found := CollectCommand(store, walk);
    r := CopyCommand(store, dest);
  }
}
