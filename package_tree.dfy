/**
  An unpacked package as the merge sees it, and the file-level collision scan
  that runs before a package is merged on top of the target (`checkFileCollisions`).

  A tree maps each path below the package root, written with a leading `/` as
  the source obtains it by cutting the root's path off (`/classes/Foo.cls`), to
  what is there. The root itself is not an entry.
 */
module PackageTree {
  import opened Options
  import opened Manifest

  /** The content of a file: a manifest the XML parser accepts, a file it
      rejects, or any other data (kept opaque). */
  datatype Content = XmlDoc(doc: Document) | BadXml | Data(text: string)

  datatype Entry = Directory | File(content: Content)

  type Tree = map<string, Entry>

  /** `File.isDirectory()`: false for a path that is not there. */
  predicate IsDirectory(t: Tree, p: string)
  {
    p in t && t[p].Directory?
  }

  /** `File.getName()`: the part of `p` after its last `/`. */
  function Name(p: string): string
  {
    if p == [] then []
    else if p[|p| - 1] == '/' then []
    else Name(p[..|p| - 1]) + [p[|p| - 1]]
  }

  /** The name of `dir/n` is `n` when `n` holds no `/`. */
  lemma {:induction false} NameAfterSlash(dir: string, n: string)
    requires '/' !in n
    ensures Name(dir + "/" + n) == n
  {
    var p := dir + "/" + n;
    if n != [] {
      var n' := n[..|n| - 1];
      assert '/' !in n' by {
        forall i | 0 <= i < |n'| ensures n'[i] != '/' {
          assert n'[i] == n[i];
        }
      }
      NameAfterSlash(dir, n');
      assert p[..|p| - 1] == dir + "/" + n';
      assert n == n' + [n[|n| - 1]];
    } else {
      assert p[..|p| - 1] == dir;
    }
  }

  /** An entry the scan passes over: a name starting with `.`, or the manifest's
      own name, at any depth. */
  predicate Skipped(name: string)
  {
    (|name| > 0 && name[0] == '.') || name == "package.xml"
  }

  /** `s` ends with `n`. */
  predicate EndsWith(s: string, n: string)
  {
    |n| <= |s| && s[|s| - |n|..] == n
  }

  // ---------------------------------------------------------------------------
  // The scan as written

  /** `currentDir` after the scan has looked at entry `p`: a directory entry
      that is not skipped sets it to the part of its absolute path left after
      the candidate root is cut out, `absPrefix` followed by its relative path. */
  function NextDir(candidate: Tree, p: string, absPrefix: string, currentDir: string): string
  {
    if !Skipped(Name(p)) && IsDirectory(candidate, p) then absPrefix + p else currentDir
  }

  /** What the scan as written adds to its report for entry `p`: a file entry
      that is not skipped and exists under the same relative path in `target`
      is reported as `currentDir` followed by its bare name. */
  function ReportedAsWritten(target: Tree, candidate: Tree, p: string, currentDir: string): seq<string>
  {
    if !Skipped(Name(p)) && !IsDirectory(candidate, p) && p in target then [currentDir + Name(p)] else []
  }

  /** The report of `checkFileCollisions` for the entries `walk` yields, in
      order, when the last directory entry seen gave `currentDir`. */
  function ReportAsWritten(target: Tree, candidate: Tree, walk: seq<string>, absPrefix: string, currentDir: string): seq<string>
  {
    if walk == [] then []
    else
      ReportedAsWritten(target, candidate, walk[0], currentDir)
        + ReportAsWritten(target, candidate, walk[1..], absPrefix, NextDir(candidate, walk[0], absPrefix, currentDir))
  }

  lemma ReportStep(target: Tree, candidate: Tree, walk: seq<string>, i: int, absPrefix: string, currentDir: string)
    requires 0 <= i < |walk|
    ensures ReportAsWritten(target, candidate, walk[i..], absPrefix, currentDir)
         == ReportedAsWritten(target, candidate, walk[i], currentDir)
          + ReportAsWritten(target, candidate, walk[i + 1..], absPrefix, NextDir(candidate, walk[i], absPrefix, currentDir))
  {
    assert walk[i..][1..] == walk[i + 1..];
  }

  /** `checkFileCollisions`, over the entries `walk` yields for the candidate
      tree (the order and the selection of `FileUtils.iterateFiles` are not
      part of this model, so the walk is given). Neither tree is changed. */
  method CheckFileCollisions(target: Tree, candidate: Tree, walk: seq<string>, absPrefix: string) returns (collisionList: seq<string>)
    ensures collisionList == ReportAsWritten(target, candidate, walk, absPrefix, "")
  {
    collisionList := [];
    var currentDir := "";
    var i := 0;
    assert walk[0..] == walk;
    while i < |walk|
      invariant 0 <= i <= |walk|
      invariant collisionList + ReportAsWritten(target, candidate, walk[i..], absPrefix, currentDir)
             == ReportAsWritten(target, candidate, walk, absPrefix, "")
    {
      var toBeMergedFile := walk[i];
      ghost var added := ReportedAsWritten(target, candidate, toBeMergedFile, currentDir);
      ghost var nextDir := NextDir(candidate, toBeMergedFile, absPrefix, currentDir);
      ghost var rest := ReportAsWritten(target, candidate, walk[i + 1..], absPrefix, nextDir);
      ReportStep(target, candidate, walk, i, absPrefix, currentDir);
      ghost var before := collisionList;
      var actualFilePath := toBeMergedFile;
      if Skipped(Name(toBeMergedFile)) {
        assert added == [] && nextDir == currentDir;
        assert added + rest == rest;
        i := i + 1;
        continue;
      }
      if IsDirectory(candidate, toBeMergedFile) {
        currentDir := absPrefix + toBeMergedFile;
        assert added == [] && nextDir == currentDir;
        assert added + rest == rest;
      } else if actualFilePath in target {
        collisionList := collisionList + [currentDir + Name(toBeMergedFile)];
        assert collisionList + rest == before + (added + rest);
      } else {
        assert added == [];
        assert added + rest == rest;
      }
      i := i + 1;
    }
  }

  // ---------------------------------------------------------------------------
  // The scan reporting relative paths

  /** An entry of the candidate that collides: not skipped, not a directory,
      and present under the same relative path in the target. */
  predicate Flagged(target: Tree, candidate: Tree, p: string)
  {
    !Skipped(Name(p)) && !IsDirectory(candidate, p) && p in target
  }

  /** The relative paths of the colliding entries that `walk` yields, in order. */
  function Collisions(target: Tree, candidate: Tree, walk: seq<string>): seq<string>
  {
    if walk == [] then []
    else (if Flagged(target, candidate, walk[0]) then [walk[0]] else []) + Collisions(target, candidate, walk[1..])
  }

  /** The scan that reports each collision by its relative path. */
  method FindCollisions(target: Tree, candidate: Tree, walk: seq<string>) returns (collisionList: seq<string>)
    ensures collisionList == Collisions(target, candidate, walk)
  {
    collisionList := [];
    var i := 0;
    while i < |walk|
      invariant 0 <= i <= |walk|
      invariant collisionList + Collisions(target, candidate, walk[i..]) == Collisions(target, candidate, walk)
    {
      var toBeMergedFile := walk[i];
      assert walk[i..][1..] == walk[i + 1..];
      if !Skipped(Name(toBeMergedFile)) && !IsDirectory(candidate, toBeMergedFile) && toBeMergedFile in target {
        collisionList := collisionList + [toBeMergedFile];
      }
      i := i + 1;
    }
    assert walk[i..] == [];
  }

  /** Exactly the flagged entries of the walk are reported: a file or other
      non-directory entry is reported if and only if its relative path exists
      in the target, and a skipped name never is. */
  lemma {:induction false} CollisionsMeaning(target: Tree, candidate: Tree, walk: seq<string>)
    ensures forall p :: p in Collisions(target, candidate, walk) <==> p in walk && Flagged(target, candidate, p)
    ensures |Collisions(target, candidate, walk)| <= |walk|
  {
    if walk != [] {
      CollisionsMeaning(target, candidate, walk[1..]);
      assert walk == [walk[0]] + walk[1..];
    }
  }

  /** The skip rule looks at the bare name only, so it applies at any depth. */
  lemma SkippedAtAnyDepth(target: Tree, candidate: Tree, dir: string, n: string)
    requires '/' !in n && Skipped(n)
    ensures !Flagged(target, candidate, dir + "/" + n)
  {
    NameAfterSlash(dir, n);
  }

  /** When the walk yields every entry of the candidate, the report names every
      shared non-directory path whose name is not skipped. */
  lemma CollisionsComplete(target: Tree, candidate: Tree, walk: seq<string>, p: string)
    requires forall q :: q in candidate ==> q in walk
    requires p in candidate && candidate[p].File? && p in target && !Skipped(Name(p))
    ensures p in Collisions(target, candidate, walk)
  {
    CollisionsMeaning(target, candidate, walk);
  }

  /** The report as written has one string per collision, in the same order,
      and each ends with the colliding entry's bare name. */
  lemma {:induction false} ReportMatchesCollisions(target: Tree, candidate: Tree, walk: seq<string>, absPrefix: string, currentDir: string)
    ensures |ReportAsWritten(target, candidate, walk, absPrefix, currentDir)| == |Collisions(target, candidate, walk)|
    ensures forall i :: 0 <= i < |Collisions(target, candidate, walk)| ==>
              EndsWith(ReportAsWritten(target, candidate, walk, absPrefix, currentDir)[i], Name(Collisions(target, candidate, walk)[i]))
  {
    if walk != [] {
      var p := walk[0];
      ReportMatchesCollisions(target, candidate, walk[1..], absPrefix, NextDir(candidate, p, absPrefix, currentDir));
      if Flagged(target, candidate, p) {
        var s := currentDir + Name(p);
        assert s[|s| - |Name(p)|..] == Name(p);
      }
    }
  }

  /** Both scans stop the run on the same inputs. */
  lemma AbortDecisionAgrees(target: Tree, candidate: Tree, walk: seq<string>, absPrefix: string)
    ensures ReportAsWritten(target, candidate, walk, absPrefix, "") == [] <==> Collisions(target, candidate, walk) == []
  {
    ReportMatchesCollisions(target, candidate, walk, absPrefix, "");
  }

  /** `FileUtils.iterateFiles` yields files only; on such a walk no directory
      entry is seen, and the report as written holds bare names alone. */
  lemma {:induction false} FilesOnlyWalkReportsNames(target: Tree, candidate: Tree, walk: seq<string>, absPrefix: string)
    requires forall i :: 0 <= i < |walk| ==> !IsDirectory(candidate, walk[i])
    ensures |ReportAsWritten(target, candidate, walk, absPrefix, "")| == |Collisions(target, candidate, walk)|
    ensures forall i :: 0 <= i < |Collisions(target, candidate, walk)| ==>
              ReportAsWritten(target, candidate, walk, absPrefix, "")[i] == Name(Collisions(target, candidate, walk)[i])
  {
    if walk != [] {
      FilesOnlyWalkReportsNames(target, candidate, walk[1..], absPrefix);
    }
  }

  /** A file `classes/Foo.cls` in both trees: the scan as written reports
      `Foo.cls`, not the relative path. */
  lemma ReportAsWrittenLosesDirectory()
    ensures var t := map["/classes" := Directory, "/classes/Foo.cls" := File(Data("x"))];
            && ReportAsWritten(t, t, ["/classes/Foo.cls"], "/home/user/", "") == ["Foo.cls"]
            && Collisions(t, t, ["/classes/Foo.cls"]) == ["/classes/Foo.cls"]
  {
    var t := map["/classes" := Directory, "/classes/Foo.cls" := File(Data("x"))];
    var walk := ["/classes/Foo.cls"];
    FooIsFlagged(t);
    assert walk[1..] == [];
    assert ReportedAsWritten(t, t, walk[0], "") == ["" + "Foo.cls"];
    assert "" + "Foo.cls" == "Foo.cls";
  }

  lemma FooIsFlagged(t: Tree)
    requires t == map["/classes" := Directory, "/classes/Foo.cls" := File(Data("x"))]
    ensures Name("/classes/Foo.cls") == "Foo.cls" && Name("/classes") == "classes"
    ensures Flagged(t, t, "/classes/Foo.cls")
    ensures !Skipped(Name("/classes")) && IsDirectory(t, "/classes")
  {
    assert "/classes/Foo.cls" == "/classes" + "/" + "Foo.cls";
    NameAfterSlash("/classes", "Foo.cls");
    assert "/classes" == "" + "/" + "classes";
    NameAfterSlash("", "classes");
    assert "Foo.cls"[0] == 'F' && |"Foo.cls"| != |"package.xml"|;
    assert "classes"[0] == 'c' && |"classes"| != |"package.xml"|;
  }

  /** When the walk does yield the directory, its absolute remainder is glued to
      the name without a separator. */
  lemma ReportAsWrittenGluesDirectory()
    ensures var t := map["/classes" := Directory, "/classes/Foo.cls" := File(Data("x"))];
            ReportAsWritten(t, t, ["/classes", "/classes/Foo.cls"], "/home/user/", "") == ["/home/user//classesFoo.cls"]
  {
    var t := map["/classes" := Directory, "/classes/Foo.cls" := File(Data("x"))];
    var walk := ["/classes", "/classes/Foo.cls"];
    FooIsFlagged(t);
    var dir := NextDir(t, walk[0], "/home/user/", "");
    assert dir == "/home/user//classes";
    assert ReportedAsWritten(t, t, walk[0], "") == [];
    assert walk[1..] == ["/classes/Foo.cls"] && walk[1..][1..] == [];
    assert ReportedAsWritten(t, t, walk[1], dir) == [dir + "Foo.cls"];
    assert dir + "Foo.cls" == "/home/user//classesFoo.cls";
  }
}
