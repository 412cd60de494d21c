/**
 * The `copy` command: entry `n` of the stored list becomes the directory
 * `0<n>_<name>` under the destination, which receives the regular files
 * directly inside the source directory, under their own names.
 */
module Transfer {
  import opened Wrappers
  import opened FsModel
  import opened Decimal

  /** The destination root as seen by `copy`: each directory directly under
      it, by name, with the names of the files it holds. Names taken there
      by anything other than a directory are not part of it; see
      `Destination.others`. */
  type Tree = map<string, set<string>>

  /** `f"0{n}_{d.name}"`. */
  function TargetName(n: nat, name: string): string {
    "0" + NatToString(n) + "_" + name
  }

  /** Target of entry `n` of the list. */
  function Target(dirs: seq<Directory>, n: nat): string
    requires n < |dirs|
  {
    TargetName(n, dirs[n].name)
  }

  /** Two entries never share a target, whatever their names: the digits of
      the index contain no '_', so the first '_' ends the index. */
  lemma TargetNameInjective(m: nat, a: string, n: nat, b: string)
    requires TargetName(m, a) == TargetName(n, b)
    ensures m == n && a == b
  {
    var p, q := NatToString(m), NatToString(n);
    var s := TargetName(m, a);
    assert s == "0" + p + "_" + a && s == "0" + q + "_" + b;
    if |p| < |q| {
      DigitsThenUnderscore(p, a, q, b);
    } else if |q| < |p| {
      DigitsThenUnderscore(q, b, p, a);
    }
    assert p == s[1..1 + |p|] == q;
    assert a == s[2 + |p|..] == b;
    NatToStringInjective(m, n);
  }

  /** A shorter digit string followed by '_' cannot begin a longer one. */
  lemma DigitsThenUnderscore(p: string, a: string, q: string, b: string)
    requires forall i :: 0 <= i < |q| ==> IsDigit(q[i])
    requires |p| < |q|
    ensures "0" + p + "_" + a != "0" + q + "_" + b
  {
    var s, t := "0" + p + "_" + a, "0" + q + "_" + b;
    assert s[1 + |p|] == '_';
    assert t[1 + |p|] == q[|p|];
    assert IsDigit(q[|p|]);
  }

  /** Python's string order: lexicographic by code point, a proper prefix
      first. */
  predicate LexLess(a: string, b: string) {
    if a == [] then b != []
    else b != [] && (a[0] < b[0] || (a[0] == b[0] && LexLess(a[1..], b[1..])))
  }

  /** For indices below ten, sorting the targets by name gives the list
      order, whatever the directory names. */
  lemma TargetOrderBelowTen(m: nat, a: string, n: nat, b: string)
    requires m < n < 10
    ensures LexLess(TargetName(m, a), TargetName(n, b))
  {
  }

  /** From ten entries on, the name order and the list order part: entry 10
      sorts before entry 2. */
  lemma OrderBreaksAtTen(name: string)
    ensures LexLess(TargetName(10, name), TargetName(2, name))
  {
  }

  /** The names of the regular files directly inside a directory;
      subdirectories are left out. */
  function FileNames(es: seq<Entry>): (r: set<string>)
    ensures forall x :: x in r <==> exists i :: 0 <= i < |es| && es[i] == File(x)
  {
    if es == [] then {}
    else
      var init, last := es[..|es| - 1], es[|es| - 1];
      assert forall i :: 0 <= i < |init| ==> init[i] == es[i];
      FileNames(init) + (if last.File? then {last.name} else {})
  }

  /** The directories the first `k` entries create, each with the files of
      its source. */
  function Planned(dirs: seq<Directory>, k: nat): (r: Tree)
    requires k <= |dirs|
    ensures forall i :: 0 <= i < k ==> Target(dirs, i) in r && r[Target(dirs, i)] == FileNames(dirs[i].children)
  {
    if k == 0 then map[]
    else
      var r := Planned(dirs, k - 1)[Target(dirs, k - 1) := FileNames(dirs[k - 1].children)];
      assert forall i :: 0 <= i < k - 1 ==> Target(dirs, i) != Target(dirs, k - 1) by {
        forall i | 0 <= i < k - 1 ensures Target(dirs, i) != Target(dirs, k - 1) {
          if Target(dirs, i) == Target(dirs, k - 1) {
            TargetNameInjective(i, dirs[i].name, k - 1, dirs[k - 1].name);
          }
        }
      }
      r
  }

  /** The plan creates nothing but the targets of its entries. */
  lemma {:induction false} PlannedKeys(dirs: seq<Directory>, k: nat, t: string)
    requires k <= |dirs|
    requires t in Planned(dirs, k)
    ensures exists i :: 0 <= i < k && t == Target(dirs, i)
  {
    if t != Target(dirs, k - 1) {
      PlannedKeys(dirs, k - 1, t);
    }
  }

  /** The first entry, from `k` on, whose target is among the names `taken`
      beforehand. */
  function FirstClash(taken: set<string>, dirs: seq<Directory>, k: nat): (r: Option<nat>)
    requires k <= |dirs|
    ensures r.None? <==> forall j :: k <= j < |dirs| ==> Target(dirs, j) !in taken
    ensures r.Some? ==> k <= r.value < |dirs| && Target(dirs, r.value) in taken
    ensures r.Some? ==> forall j :: k <= j < r.value ==> Target(dirs, j) !in taken
    decreases |dirs| - k
  {
    if k == |dirs| then None
    else if Target(dirs, k) in taken then Some(k)
    else FirstClash(taken, dirs, k + 1)
  }

  /** What `copy` reports: the list was empty, all entries were copied, or
      `mkdir` found the target name already taken, by a directory or by
      anything else (the source raises `FileExistsError` and stops). */
  datatype CopyOutcome = NoImageFolders | Copied(count: nat) | TargetExists(target: string)

  /** The destination after `copy` and its outcome: nothing when the list is
      empty; otherwise the entries are created in list order up to the
      first one whose target name is taken, by a directory of `before` or by
      one of the non-directories `others`, which stops the run with the
      earlier targets left in place (there is no rollback). The
      non-directories are never changed. */
  function RunCopy(before: Tree, others: set<string>, dirs: seq<Directory>): (Tree, CopyOutcome) {
    if dirs == [] then (before, NoImageFolders)
    else match FirstClash(before.Keys + others, dirs, 0)
      case None => (before + Planned(dirs, |dirs|), Copied(|dirs|))
      case Some(n) => (before + Planned(dirs, n), TargetExists(Target(dirs, n)))
  }

  /** The destination directory: `mkdir` without `exist_ok` and
      `shutil.copy` into a directory made by this run. */
  class Destination {
    var dirs: Tree
    /** Names directly under the destination held by something other than a
        directory. */
    var others: set<string>

    constructor (existing: Tree, existingOthers: set<string>)
      ensures dirs == existing && others == existingOthers
    {
      dirs := existing;
      others := existingOthers;
    }

    /** `to_dir.mkdir(parents=True)`: creates an empty directory, or fails
        when the name is taken, by a directory or by anything else. */
    method MakeDir(name: string) returns (created: bool)
      modifies this
      ensures created <==> name !in old(dirs) && name !in old(others)
      ensures dirs == if created then old(dirs)[name := {}] else old(dirs)
      ensures others == old(others)
    {
      created := name !in dirs && name !in others;
      if created {
        dirs := dirs[name := {}];
      }
    }

    /** `shutil.copy(file, to_dir / file.name)`: the file lands in `dir` under
        its own name, replacing a file of that name. */
    method CopyFile(dir: string, file: string)
      requires dir in dirs
      modifies this
      ensures dirs == old(dirs)[dir := old(dirs)[dir] + {file}]
      ensures others == old(others)
    {
      dirs := dirs[dir := dirs[dir] + {file}];
    }
  }

  /** The inner loop of `copy`: every regular file of `children` is copied
      into the freshly made `toDir`; nothing else changes. */
  method CopyFiles(dest: Destination, toDir: string, children: seq<Entry>)
    requires toDir in dest.dirs && dest.dirs[toDir] == {}
    modifies dest
    ensures dest.dirs == old(dest.dirs)[toDir := FileNames(children)]
    ensures dest.others == old(dest.others)
  {
    ghost var start := dest.dirs;
    for j := 0 to |children|
      invariant dest.dirs == start[toDir := FileNames(children[..j])]
      invariant dest.others == old(dest.others)
    {
      var file := children[j];
      assert children[..j + 1][..j] == children[..j];
      if file.File? {
        dest.CopyFile(toDir, file.name);
        assert dest.dirs == start[toDir := FileNames(children[..j]) + {file.name}];
      } else {
        assert FileNames(children[..j + 1]) == FileNames(children[..j]);
      }
    }
    assert children[..|children|] == children;
  }

  /** The first `n` entries have not created the target of entry `n`. */
  lemma NotPlannedYet(dirs: seq<Directory>, n: nat)
    requires n < |dirs|
    ensures Target(dirs, n) !in Planned(dirs, n)
  {
    if Target(dirs, n) in Planned(dirs, n) {
      PlannedKeys(dirs, n, Target(dirs, n));
      var i :| 0 <= i < n && Target(dirs, n) == Target(dirs, i);
      TargetNameInjective(i, dirs[i].name, n, dirs[n].name);
    }
  }

  /** A target that the run finds taken while no earlier one was taken
      beforehand is the first clash, so it was taken beforehand. */
  lemma ClashIsFirst(before: Tree, others: set<string>, dirs: seq<Directory>, n: nat)
    requires n < |dirs|
    requires forall j :: 0 <= j < n ==> Target(dirs, j) !in before && Target(dirs, j) !in others
    requires Target(dirs, n) in before + Planned(dirs, n) || Target(dirs, n) in others
    ensures FirstClash(before.Keys + others, dirs, 0) == Some(n)
  {
    NotPlannedYet(dirs, n);
    var taken := before.Keys + others;
    assert Target(dirs, n) in taken;
    var r := FirstClash(taken, dirs, 0);
    assert r.Some? && r.value <= n;
  }

  /** Copying entry `n` after the first `n` extends the plan by one entry. */
  lemma PlannedStep(before: Tree, dirs: seq<Directory>, n: nat)
    requires n < |dirs|
    ensures (before + Planned(dirs, n))[Target(dirs, n) := FileNames(dirs[n].children)] == before + Planned(dirs, n + 1)
  {
  }

  /** The `copy` loop over the stored list (without the messages and the
      timing). */
  method Copy(dest: Destination, imageDirs: seq<Directory>) returns (outcome: CopyOutcome)
    modifies dest
    ensures imageDirs == [] ==> outcome == NoImageFolders && dest.dirs == old(dest.dirs)
    ensures (dest.dirs, outcome) == RunCopy(old(dest.dirs), old(dest.others), imageDirs)
    ensures dest.others == old(dest.others)
  {
    if imageDirs == [] {
      return NoImageFolders;
    }
    ghost var before, others := dest.dirs, dest.others;
    for n := 0 to |imageDirs|
      invariant dest.dirs == before + Planned(imageDirs, n)
      invariant dest.others == others
      invariant forall j :: 0 <= j < n ==> Target(imageDirs, j) !in before && Target(imageDirs, j) !in others
    {
      var d := imageDirs[n];
      var toDir := TargetName(n, d.name);
      var created := dest.MakeDir(toDir);
      if !created {
        ClashIsFirst(before, others, imageDirs, n);
        return TargetExists(toDir);
      }
      CopyFiles(dest, toDir, d.children);
      PlannedStep(before, imageDirs, n);
    }
    assert FirstClash(before.Keys + others, imageDirs, 0) == None;
    return Copied(|imageDirs|);
  }

  /** No directory that existed before `copy` is changed by it, whatever the
      outcome: a taken target stops the run instead of being merged into. */
  lemma CopyKeepsExisting(before: Tree, others: set<string>, dirs: seq<Directory>)
    ensures forall t :: t in before ==> t in RunCopy(before, others, dirs).0 && RunCopy(before, others, dirs).0[t] == before[t]
  {
    if dirs != [] {
      var m := match FirstClash(before.Keys + others, dirs, 0) case None => |dirs| case Some(n) => n;
      assert RunCopy(before, others, dirs).0 == before + Planned(dirs, m);
      forall t | t in before
        ensures t !in Planned(dirs, m)
      {
        if t in Planned(dirs, m) {
          PlannedKeys(dirs, m, t);
        }
      }
    }
  }

  /** A non-empty list copies completely exactly when none of its target
      names is taken beforehand; otherwise the reported target is one that
      was, by a directory or by something else. */
  lemma CopyOutcomeIff(before: Tree, others: set<string>, dirs: seq<Directory>)
    requires dirs != []
    ensures RunCopy(before, others, dirs).1 == Copied(|dirs|) <==>
      forall n :: 0 <= n < |dirs| ==> Target(dirs, n) !in before && Target(dirs, n) !in others
    ensures RunCopy(before, others, dirs).1.TargetExists? <==>
      exists n :: 0 <= n < |dirs| && (Target(dirs, n) in before || Target(dirs, n) in others)
    ensures RunCopy(before, others, dirs).1.TargetExists? ==>
      RunCopy(before, others, dirs).1.target in before || RunCopy(before, others, dirs).1.target in others
  {
  }

  /** A non-directory holding the first entry's target stops the run before
      anything is created. */
  lemma BlockedByNonDirectory(before: Tree, others: set<string>, dirs: seq<Directory>)
    requires dirs != [] && Target(dirs, 0) in others
    ensures RunCopy(before, others, dirs) == (before, TargetExists(Target(dirs, 0)))
  {
    assert Planned(dirs, 0) == map[];
    assert before + map[] == before;
  }

  /** A regular file `00_a` in the destination blocks the single entry
      named "a": nothing is created. */
  lemma FileInTheWay(path: string, children: seq<Entry>)
    ensures RunCopy(map[], {"00_a"}, [Directory(path, "a", children)]) == (map[], TargetExists("00_a"))
  {
    var dirs := [Directory(path, "a", children)];
    assert Target(dirs, 0) == "00_a";
    BlockedByNonDirectory(map[], {"00_a"}, dirs);
  }

  /** Copying into a destination where none of the target names is taken
      creates one directory per entry, named after its index and source,
      holding exactly the names of the regular files of that source, next to
      what was there. */
  lemma CopyIntoFresh(before: Tree, others: set<string>, dirs: seq<Directory>)
    requires dirs != []
    requires forall n :: 0 <= n < |dirs| ==> Target(dirs, n) !in before && Target(dirs, n) !in others
    ensures RunCopy(before, others, dirs).1 == Copied(|dirs|)
    ensures RunCopy(before, others, dirs).0.Keys == before.Keys + set n | 0 <= n < |dirs| :: Target(dirs, n)
    ensures forall n :: 0 <= n < |dirs| ==> RunCopy(before, others, dirs).0[Target(dirs, n)] == FileNames(dirs[n].children)
  {
    var after := RunCopy(before, others, dirs).0;
    assert after == before + Planned(dirs, |dirs|);
    forall t | t in after
      ensures t in before.Keys + set n | 0 <= n < |dirs| :: Target(dirs, n)
    {
      if t !in before {
        PlannedKeys(dirs, |dirs|, t);
      }
    }
  }

  /** Running `copy` a second time into the same destination fails on the
      first entry and changes nothing. */
  lemma CopyTwiceCollides(before: Tree, others: set<string>, dirs: seq<Directory>)
    requires dirs != [] && RunCopy(before, others, dirs).1.Copied?
    ensures RunCopy(RunCopy(before, others, dirs).0, others, dirs) == (RunCopy(before, others, dirs).0, TargetExists(Target(dirs, 0)))
  {
    var after := RunCopy(before, others, dirs).0;
    assert Target(dirs, 0) in Planned(dirs, |dirs|);
    assert Target(dirs, 0) in after;
    assert FirstClash(after.Keys + others, dirs, 0) == Some(0);
    assert Planned(dirs, 0) == map[];
    assert after + map[] == after;
  }

  /** The targets of the test scenario's nine entries, all named "02". */
  lemma FixtureTargetNames()
    ensures TargetName(0, "02") == "00_02" && TargetName(1, "02") == "01_02" && TargetName(2, "02") == "02_02"
    ensures TargetName(3, "02") == "03_02" && TargetName(4, "02") == "04_02" && TargetName(5, "02") == "05_02"
    ensures TargetName(6, "02") == "06_02" && TargetName(7, "02") == "07_02" && TargetName(8, "02") == "08_02"
  {
  }

  /** The set of targets of the test scenario's nine entries. */
  lemma FixtureTargetSet(dirs: seq<Directory>)
    requires |dirs| == 9 && forall n :: 0 <= n < 9 ==> dirs[n].name == "02"
    ensures (set n | 0 <= n < 9 :: Target(dirs, n)) == {"00_02", "01_02", "02_02", "03_02", "04_02", "05_02", "06_02", "07_02", "08_02"}
  {
    FixtureTargetNames();
    var targets := set n | 0 <= n < 9 :: Target(dirs, n);
    var expected := {"00_02", "01_02", "02_02", "03_02", "04_02", "05_02", "06_02", "07_02", "08_02"};
    assert Target(dirs, 0) == "00_02" && Target(dirs, 1) == "01_02" && Target(dirs, 2) == "02_02";
    assert Target(dirs, 3) == "03_02" && Target(dirs, 4) == "04_02" && Target(dirs, 5) == "05_02";
    assert Target(dirs, 6) == "06_02" && Target(dirs, 7) == "07_02" && Target(dirs, 8) == "08_02";
    assert expected <= targets;
    forall t | t in targets ensures t in expected {
      var n :| 0 <= n < 9 && t == Target(dirs, n);
      if n == 0 {} else if n == 1 {} else if n == 2 {} else if n == 3 {}
      else if n == 4 {} else if n == 5 {} else if n == 6 {} else if n == 7 {} else {}
    }
  }

  /** The test scenario: nine directories all named "02" copied into an
      empty destination give the targets "00_02" to "08_02". */
  lemma FixtureCopy(dirs: seq<Directory>)
    requires |dirs| == 9 && forall n :: 0 <= n < 9 ==> dirs[n].name == "02"
    ensures RunCopy(map[], {}, dirs).1 == Copied(9)
    ensures RunCopy(map[], {}, dirs).0.Keys == {"00_02", "01_02", "02_02", "03_02", "04_02", "05_02", "06_02", "07_02", "08_02"}
  {
    CopyIntoFresh(map[], {}, dirs);
    FixtureTargetSet(dirs);
    var empty: Tree := map[];
    assert empty.Keys + (set n | 0 <= n < 9 :: Target(dirs, n)) == set n | 0 <= n < 9 :: Target(dirs, n);
  }
}
