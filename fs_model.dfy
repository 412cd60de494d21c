/**
 * The abstract file system the two commands work on: the children of a
 * directory, a directory as the walk hands it over, and the suffix rule
 * with which a file name is recognised as an image.
 */
module FsModel {

  /** A child of a directory as listed by `glob("*")` / `iterdir()`.
      `File` is a child for which `is_file()` holds (a regular file);
      `NotFile` stands for every other child (a subdirectory, a dangling link, a
      special file), which neither command counts nor copies. */
  datatype Entry = File(name: string) | NotFile(name: string)

  /** A directory: its full path, its name and its immediate children in
      listing order. `name` is taken to be the last segment of `path`, the
      value `Path.name` gives; the model does not parse paths, so the two
      are supplied together by the walk. */
  datatype Directory = Directory(path: string, name: string, children: seq<Entry>)

  /** One path yielded by the recursive walk `glob("**")`: a directory, or a
      path for which `is_dir()` does not hold. */
  datatype Node = DirNode(dir: Directory) | OtherNode(path: string)

  /** The image extensions, compared case-sensitively. */
  const ImageExtensions: seq<string> := [".jpeg", ".jpg", ".bmp", ".png", ".gif", ".tiff"]

  /** Index of the last '.' in `s`, or -1 when there is none (`str.rfind`). */
  function LastDot(s: string): (i: int)
    ensures -1 <= i < |s|
    ensures 0 <= i ==> s[i] == '.'
    ensures forall j :: i < j < |s| ==> s[j] != '.'
  {
    if s == [] then -1
    else if s[|s| - 1] == '.' then |s| - 1
    else LastDot(s[..|s| - 1])
  }

  /** `PurePath.suffix`: from the last dot to the end, provided that dot is
      neither the first nor the last character of the name; otherwise empty. */
  function Suffix(name: string): (s: string)
    ensures s == [] || (|s| >= 2 && s[0] == '.' && |s| < |name| && name[|name| - |s|..] == s)
    ensures s != [] ==> forall j :: 0 < j < |s| ==> s[j] != '.'
  {
    var i := LastDot(name);
    if 0 < i < |name| - 1 then name[i..] else ""
  }

  /** The test `f.suffix in ('.jpeg', '.jpg', '.bmp', '.png', '.gif', '.tiff')`. */
  predicate IsImage(name: string) {
    Suffix(name) in ImageExtensions
  }

  /** `name` ends with `ext` and has at least one character before it. */
  predicate EndsWithAfterStem(name: string, ext: string) {
    |name| > |ext| && name[|name| - |ext|..] == ext
  }

  /** Every image extension is a dot followed by at least three characters
      none of which is a dot. */
  lemma ExtensionShape(ext: string)
    requires ext in ImageExtensions
    ensures |ext| >= 4 && ext[0] == '.' && forall j :: 0 < j < |ext| ==> ext[j] != '.'
  {
  }

  /** A name counts as an image exactly when it is a non-empty stem followed
      by one of the six extensions, spelled exactly as listed. */
  lemma {:induction false} IsImageIff(name: string)
    ensures IsImage(name) <==> exists ext :: ext in ImageExtensions && EndsWithAfterStem(name, ext)
  {
    if IsImage(name) {
      var ext := Suffix(name);
      assert ext in ImageExtensions && EndsWithAfterStem(name, ext);
    }
    if ext :| ext in ImageExtensions && EndsWithAfterStem(name, ext) {
      ExtensionShape(ext);
      var k := |name| - |ext|;
      assert name[k] == ext[0] == '.';
      forall j | k < j < |name| ensures name[j] != '.' {
        assert name[j] == ext[j - k];
      }
      var i := LastDot(name);
      assert i == k;
      assert Suffix(name) == name[k..] == ext;
    }
  }

  /** The suffix of a name whose last dot is at `k`, strictly inside it. */
  lemma SuffixAt(name: string, k: nat)
    requires 0 < k < |name| - 1 && name[k] == '.'
    requires forall j :: k < j < |name| ==> name[j] != '.'
    ensures Suffix(name) == name[k..]
  {
  }

  /** Examples of the rule: the last dot decides. */
  lemma ImageExamples()
    ensures IsImage("photo.jpg") && IsImage("scan.tiff") && IsImage("a.b.png")
  {
    SuffixAt("photo.jpg", 5);
    SuffixAt("scan.tiff", 4);
    SuffixAt("a.b.png", 3);
  }

  /** A stem made only of dots still leaves the last dot's suffix: `..jpg`
      is an image under the rule modelled here. */
  lemma DotsOnlyStem()
    ensures Suffix("..jpg") == ".jpg" && IsImage("..jpg")
  {
    SuffixAt("..jpg", 1);
  }

  /** Counter-examples: the comparison is case-sensitive, only the six listed
      extensions count, and a leading dot alone (a hidden file) is no suffix. */
  lemma NotImageExamples()
    ensures !IsImage("photo.JPG") && !IsImage("photo.webp") && !IsImage(".jpg")
  {
    SuffixAt("photo.JPG", 5);
    SuffixAt("photo.webp", 5);
    var i := LastDot(".jpg");
    assert ".jpg"[0] == '.' && ".jpg"[1] != '.' && ".jpg"[2] != '.' && ".jpg"[3] != '.';
    assert i == 0;
  }
}
