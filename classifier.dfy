/**
 * The `collect` command's scan: for every directory of the walk, count its
 * regular-file children and how many of them are images, and keep the
 * directory when images make up at least 80% of its files.
 */
module Classifier {
  import opened FsModel

  /** Number of regular-file children; never more than the children. */
  function TotalFiles(es: seq<Entry>): (r: nat)
    ensures r <= |es|
  {
    if es == [] then 0
    else TotalFiles(es[..|es| - 1]) + (if es[|es| - 1].File? then 1 else 0)
  }

  /** Number of regular-file children whose name has an image extension; never
      more than the number of regular-file children. */
  function ImageFiles(es: seq<Entry>): (r: nat)
    ensures r <= TotalFiles(es)
  {
    if es == [] then 0
    else ImageFiles(es[..|es| - 1]) + (if es[|es| - 1].File? && IsImage(es[|es| - 1].name) then 1 else 0)
  }

  /** The test `total_files and image_files/total_files >= 0.8`, over the
      integers: a directory with no file never qualifies, otherwise images
      must be at least four fifths of the files, the boundary included. */
  predicate Qualifies(total: nat, images: nat) {
    total > 0 && 5 * images >= 4 * total
  }

  /** A directory is kept by the scan. */
  predicate IsImageDir(d: Directory) {
    Qualifies(TotalFiles(d.children), ImageFiles(d.children))
  }

  /** The scan's result: the directories of the walk that qualify, in walk
      order; paths that are not directories are skipped. */
  function ImageDirs(walk: seq<Node>): seq<Directory> {
    if walk == [] then []
    else
      var last := walk[|walk| - 1];
      ImageDirs(walk[..|walk| - 1]) + (if last.DirNode? && IsImageDir(last.dir) then [last.dir] else [])
  }

  /** The `collect` loop (without the progress bar, the timing and the
      printing): nested loops that count files and images per directory and
      append the qualifying directories to `imageDirs`. */
  method Collect(walk: seq<Node>) returns (imageDirs: seq<Directory>)
    ensures imageDirs == ImageDirs(walk)
  {
    imageDirs := [];
    for k := 0 to |walk|
      invariant imageDirs == ImageDirs(walk[..k])
    {
      var node := walk[k];
      if node.DirNode? {
        var d := node.dir;
        var totalFiles, imageFiles := 0, 0;
        for j := 0 to |d.children|
          invariant totalFiles == TotalFiles(d.children[..j])
          invariant imageFiles == ImageFiles(d.children[..j])
        {
          var f := d.children[j];
          if f.File? {
            totalFiles := totalFiles + 1;
            if Suffix(f.name) in ImageExtensions {
              imageFiles := imageFiles + 1;
            }
          }
          assert d.children[..j + 1][..j] == d.children[..j];
        }
        assert d.children[..|d.children|] == d.children;
        if totalFiles > 0 && 5 * imageFiles >= 4 * totalFiles {
          imageDirs := imageDirs + [d];
        }
      }
      assert walk[..k + 1][..k] == walk[..k];
    }
    assert walk[..|walk|] == walk;
  }

  /** The integer test is the ratio test `images / total >= 0.8` in exact
      arithmetic. */
  lemma QualifiesIsRatio(total: nat, images: nat)
    ensures Qualifies(total, images) <==> total > 0 && (images as real) / (total as real) >= 0.8
  {
  }

  /** The fixture's boundary: four images out of five files qualify, three
      out of five do not, and whatever the images, no file means no match. */
  lemma Boundary()
    ensures Qualifies(5, 4) && !Qualifies(5, 3)
    ensures forall images: nat :: !Qualifies(0, images)
  {
  }

  /** A directory has no regular file exactly when every child is something
      other than a regular file. */
  lemma {:induction false} NoFilesIff(es: seq<Entry>)
    ensures TotalFiles(es) == 0 <==> forall i :: 0 <= i < |es| ==> es[i].NotFile?
  {
    if es != [] {
      var init := es[..|es| - 1];
      NoFilesIff(init);
      assert forall i :: 0 <= i < |init| ==> init[i] == es[i];
    }
  }

  /** A directory with no regular file among its children (only
      subdirectories, links or special files, or no children at all) is never
      kept, however many children it has. */
  lemma NoRegularFileNeverQualifies(d: Directory)
    requires forall i :: 0 <= i < |d.children| ==> d.children[i].NotFile?
    ensures !IsImageDir(d)
  {
    NoFilesIff(d.children);
  }

  /** Every directory of the result was visited and qualifies. */
  lemma {:induction false} ImageDirsSound(walk: seq<Node>)
    ensures forall d :: d in ImageDirs(walk) ==> DirNode(d) in walk && IsImageDir(d)
  {
    if walk != [] {
      var init := walk[..|walk| - 1];
      ImageDirsSound(init);
      assert forall n :: n in init ==> n in walk;
    }
  }

  /** No qualifying directory of the walk is dropped. */
  lemma {:induction false} ImageDirsComplete(walk: seq<Node>)
    ensures forall k :: 0 <= k < |walk| && walk[k].DirNode? && IsImageDir(walk[k].dir) ==> walk[k].dir in ImageDirs(walk)
  {
    if walk != [] {
      var init := walk[..|walk| - 1];
      ImageDirsComplete(init);
      assert forall k :: 0 <= k < |init| ==> init[k] == walk[k];
    }
  }

  /** The result keeps walk order: scanning two parts of a walk one after the
      other gives the results of the parts one after the other. */
  lemma {:induction false} ImageDirsAppend(a: seq<Node>, b: seq<Node>)
    ensures ImageDirs(a + b) == ImageDirs(a) + ImageDirs(b)
  {
    if b == [] {
      assert a + b == a;
    } else {
      var b' := b[..|b| - 1];
      ImageDirsAppend(a, b');
      assert (a + b)[..|a + b| - 1] == a + b';
      assert (a + b)[|a + b| - 1] == b[|b| - 1];
    }
  }

  /** The result never holds more directories than the walk visited. */
  lemma {:induction false} ImageDirsLength(walk: seq<Node>)
    ensures |ImageDirs(walk)| <= |walk|
  {
    if walk != [] {
      ImageDirsLength(walk[..|walk| - 1]);
    }
  }

  /** Both counts add up over consecutive parts of a listing. */
  lemma {:induction false} CountsAppend(a: seq<Entry>, b: seq<Entry>)
    ensures TotalFiles(a + b) == TotalFiles(a) + TotalFiles(b)
    ensures ImageFiles(a + b) == ImageFiles(a) + ImageFiles(b)
  {
    if b == [] {
      assert a + b == a;
    } else {
      var b' := b[..|b| - 1];
      CountsAppend(a, b');
      assert (a + b)[..|a + b| - 1] == a + b';
    }
  }

  /** A listing made only of image files counts each of them twice over. */
  lemma {:induction false} AllImages(es: seq<Entry>)
    requires forall i :: 0 <= i < |es| ==> es[i].File? && IsImage(es[i].name)
    ensures TotalFiles(es) == ImageFiles(es) == |es|
  {
    if es != [] {
      AllImages(es[..|es| - 1]);
    }
  }

  /** The counts do not depend on the order in which the children are
      listed. */
  lemma {:induction false} CountsPerm(a: seq<Entry>, b: seq<Entry>)
    requires multiset(a) == multiset(b)
    ensures TotalFiles(a) == TotalFiles(b) && ImageFiles(a) == ImageFiles(b)
    decreases |a|
  {
    if a == [] {
      assert |b| == |multiset(b)| == 0;
    } else {
      var x, a' := a[|a| - 1], a[..|a| - 1];
      assert a == a' + [x];
      assert x in multiset(b);
      var k :| 0 <= k < |b| && b[k] == x;
      var b' := b[..k] + b[k + 1..];
      assert b == b[..k] + [x] + b[k + 1..];
      assert multiset(a) == multiset(a') + multiset{x};
      assert multiset(b) == multiset(b[..k]) + multiset{x} + multiset(b[k + 1..]);
      assert multiset(b') == multiset(b[..k]) + multiset(b[k + 1..]);
      assert multiset(a') == multiset(a) - multiset{x};
      assert multiset(b') == multiset(b) - multiset{x};
      CountsPerm(a', b');
      CountsAppend(a', [x]);
      CountsAppend(b[..k] + [x], b[k + 1..]);
      CountsAppend(b[..k], [x]);
      CountsAppend(b[..k], b[k + 1..]);
    }
  }

  /** The test fixture's leaf directory: four image files, one more file
      and any number of children that are not regular files, listed in any
      order, make a qualifying directory. */
  lemma FixtureLeaf(d: Directory, images: seq<Entry>, other: string, subdirs: seq<Entry>)
    requires multiset(d.children) == multiset(images + [File(other)] + subdirs)
    requires |images| == 4 && forall i :: 0 <= i < 4 ==> images[i].File? && IsImage(images[i].name)
    requires forall i :: 0 <= i < |subdirs| ==> subdirs[i].NotFile?
    ensures IsImageDir(d)
  {
    AllImages(images);
    NoFilesIff(subdirs);
    assert ImageFiles(subdirs) == 0;
    var one := [File(other)];
    assert one[..0] == [];
    CountsAppend(images, one);
    CountsAppend(images + one, subdirs);
    CountsPerm(d.children, images + one + subdirs);
  }
}
