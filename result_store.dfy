/**
 * The persisted result of `collect`: the shelve file reduced to the one
 * record `image_dirs` it holds, overwritten by every scan and read back
 * unchanged by `copy`.
 */
module ResultStore {
  import opened Wrappers
  import opened FsModel

  class Store {
    /** The `image_dirs` record, or `None` when no scan has stored one. */
    var imageDirs: Option<seq<Directory>>

    /** A store in which no scan has been saved yet. */
    constructor ()
      ensures imageDirs == None
    {
      imageDirs := None;
    }

    /** `db['image_dirs'] = image_dirs`: replaces whatever was stored. */
    method Save(dirs: seq<Directory>)
      modifies this
      ensures imageDirs == Some(dirs)
    {
      imageDirs := Some(dirs);
    }

    /** `db['image_dirs']` opened read-only: the stored list, or `None` where
        the source raises because nothing was stored. */
    method Load() returns (r: Option<seq<Directory>>)
      ensures r == imageDirs
    {
      r := imageDirs;
    }
  }
}
