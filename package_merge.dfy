/**
  The merge orchestration of PackageMerge: `mergePackageXMLs`, which unions the
  target's and the staged package's manifests into the target's manifest, and
  `processFiles`, which seeds the target from the first input and then merges the
  remaining inputs on top of it one at a time, stopping at the first collision.

  The working directory is the class `Workspace`, whose two fields are the
  trees under `workingDir/target` and `workingDir/temp`. The file operations of
  the `Utils` class are methods of `Workspace` whose contracts are ASSUMED:
  their code is not part of this model, and each body is the behaviour the
  contract assumes.
 */
module PackageMerge {
  import opened Options
  import opened Lexicographic
  import opened Manifest
  import opened PackageTree

  /** The manifest's path relative to a package root. */
  const ManifestPath: string := "/package.xml"

  /** One argument of the command line, as the file system holds it: a zip
      archive (a file), a directory, or nothing at all. */
  datatype Source = Archive(contents: Tree) | Folder(contents: Tree) | Missing

  /** Why a run stopped without writing the output archive: an input that
      cannot be copied (an IOException, caught and printed), or a
      null dereference or a TransformerException while merging manifests. */
  datatype Failure = CannotCopy(input: nat) | NoManifest | NoVersion | ManifestNotWritable

  /** How a run ends. Input `k` is `args[k + 1]`. */
  datatype Outcome = Zipped(archive: Tree) | Collided(input: nat, report: seq<string>) | Failed(failure: Failure)

  /** The two directories of the working area. */
  datatype Dir = TargetDir | TempDir

  // ---------------------------------------------------------------------------
  // Reading the manifests

  /** `dBuilder.parse` on an existing path: the document, or None when it
      throws (a directory, or a file that is not well-formed XML). */
  function Parse(e: Entry): Option<Document>
  {
    if e.File? && e.content.XmlDoc? then Some(e.content.doc) else None
  }

  /** The parsed manifest of `t`, None when it is missing or does not parse. */
  function ManifestOf(t: Tree): Option<Document>
  {
    if ManifestPath in t then Parse(t[ManifestPath]) else None
  }

  /** The manifest of `t` parses and `convertXmlToMetadataHash` does not throw on it. */
  predicate Usable(t: Tree)
  {
    ManifestOf(t).Some? && Named(TypesList(ManifestOf(t).value.children))
  }

  /** What the manifest of `t` adds to the list of mappings: its mapping when
      usable, nothing otherwise. */
  function HashesOf(t: Tree): seq<MetadataHash>
  {
    if Usable(t) then [HashOf(TypesList(ManifestOf(t).value.children))] else []
  }

  /** The mappings the loop of `mergePackageXMLs` collects from `trees`, in order. */
  function ParsedHashes(trees: seq<Tree>): seq<MetadataHash>
  {
    if trees == [] then [] else ParsedHashes(trees[..|trees| - 1]) + HashesOf(trees[|trees| - 1])
  }

  /** `doc1`: the first manifest of `trees` that was read into a mapping. */
  function FirstParsed(trees: seq<Tree>): Option<Document>
  {
    if trees == [] then None
    else
      var before := FirstParsed(trees[..|trees| - 1]);
      var last := trees[|trees| - 1];
      if before.Some? then before else if Usable(last) then ManifestOf(last) else None
  }

  lemma PairParsed(target: Tree, temp: Tree)
    ensures ParsedHashes([target, temp]) == HashesOf(target) + HashesOf(temp)
    ensures FirstParsed([target, temp]) == if Usable(target) then ManifestOf(target) else if Usable(temp) then ManifestOf(temp) else None
  {
    var pair := [target, temp];
    assert pair[..1] == [target] && [target][..0] == [];
    assert ParsedHashes([target]) == [] + HashesOf(target);
    assert ParsedHashes(pair) == ParsedHashes([target]) + HashesOf(temp);
    assert FirstParsed([target]) == if Usable(target) then ManifestOf(target) else None;
  }

  /** `mergePackageXMLs` on the target and the staged package: the target with
      its manifest replaced by the union of both manifests, under the root and
      the version of `doc1`. */
  function MergeManifests(target: Tree, temp: Tree): Result<Tree, Failure>
  {
    var trees := [target, temp];
    var resultPackageHash := JoinAll(ParsedHashes(trees));
    match FirstParsed(trees)
    case None => Err(NoManifest)
    case Some(doc1) =>
      match FirstVersion(doc1.children)
      case None => Err(NoVersion)
      case Some(versionText) =>
        if IsDirectory(target, ManifestPath) then Err(ManifestNotWritable)
        else Ok(target[ManifestPath := File(XmlDoc(Serialised(doc1.root, versionText, resultPackageHash)))])
  }

  /** `p` lies below the directory `dir`. */
  predicate IsUnder(p: string, dir: string)
  {
    |dir| < |p| && p[..|dir| + 1] == dir + "/"
  }

  /** `File.delete()`: a file, or a directory with nothing below it, is removed;
      anything else stays. */
  function Delete(t: Tree, p: string): Tree
  {
    if p in t && (t[p].File? || forall q :: q in t ==> !IsUnder(q, p)) then t - {p} else t
  }

  /** The loop over the two manifest paths in `mergePackageXMLs`: every
      manifest that exists, parses and converts adds its mapping to `maps`, and
      the first such one is `doc1`. A missing or unreadable manifest is skipped
      and the loop goes on. */
  method ReadManifests(fileNames: seq<Tree>) returns (maps: seq<MetadataHash>, doc1: Option<Document>)
    ensures maps == ParsedHashes(fileNames)
    ensures doc1 == FirstParsed(fileNames)
  {
    maps := [];
    doc1 := None;
    var firstPass := true;
    for n := 0 to |fileNames|
      invariant maps == ParsedHashes(fileNames[..n])
      invariant doc1 == FirstParsed(fileNames[..n])
      invariant firstPass <==> doc1.None?
    {
      var fileToParse := fileNames[n];
      assert fileNames[..n + 1][..n] == fileNames[..n];
      if ManifestPath in fileToParse {
        var doc := Parse(fileToParse[ManifestPath]);
        if doc.Some? {
          var converted := ConvertXmlToMetadataHash(doc.value);
          if converted.Some? {
            maps := maps + [converted.value];
            if firstPass {
              doc1 := doc;
              firstPass := false;
            }
          }
        }
      }
    }
    assert fileNames[..|fileNames|] == fileNames;
  }

  // ---------------------------------------------------------------------------
  // The run

  /** The working area while inputs are merged, and once the run has ended. */
  datatype Progress = Running(target: Tree, temp: Tree) | Stopped(outcome: Outcome, target: Tree, temp: Tree)

  /** Unzipping or copying a source into a directory holding `dir`. */
  function Stage(dir: Tree, src: Source): Option<Tree>
  {
    match src
    case Archive(t) => Some(dir + t)
    case Folder(t) => Some(dir + t)
    case Missing => None
  }

  /** The tree a source holds (nothing for a missing one). */
  function SourceTree(src: Source): Tree
  {
    match src
    case Archive(t) => t
    case Folder(t) => t
    case Missing => map[]
  }

  /** The mappings of the inputs' manifests that parse and convert, in input order. */
  function InputHashes(inputs: seq<Source>): seq<MetadataHash>
  {
    if inputs == [] then [] else InputHashes(inputs[..|inputs| - 1]) + HashesOf(SourceTree(inputs[|inputs| - 1]))
  }

  /** No input holds a directory where its manifest belongs. */
  predicate ManifestsAreFiles(inputs: seq<Source>)
  {
    forall i :: 0 <= i < |inputs| ==> ManifestIsFile(inputs[i])
  }

  /** The working area after it is purged and `args[1]` is staged into the target. */
  function Seed(first: Source): Progress
  {
    match Stage(map[], first)
    case None => Stopped(Failed(CannotCopy(0)), map[], map[])
    case Some(t) => Running(t, map[])
  }

  /** One round of the loop of `processFiles`, for input `k`: stage it into the
      temporary directory, then go on as `MergeStaged`. */
  function MergeStep(target: Tree, temp: Tree, k: nat, src: Source, walk: Tree -> seq<string>): Progress
  {
    match Stage(temp, src)
    case None => Stopped(Failed(CannotCopy(k)), target, temp)
    case Some(staged) => MergeStaged(target, staged, k, walk)
  }

  /** The rest of the round once input `k` is staged: stop on a collision,
      otherwise merge the manifests, delete the staged manifest and move the
      staged tree onto the target. */
  function MergeStaged(target: Tree, staged: Tree, k: nat, walk: Tree -> seq<string>): Progress
  {
    var collisionList := Collisions(target, staged, walk(staged));
    if collisionList != [] then Stopped(Collided(k, collisionList), target, staged)
    else MergeUnchecked(target, staged, k)
  }

  /** Merging a staged tree that does not collide with the target. */
  function MergeUnchecked(target: Tree, staged: Tree, k: nat): Progress
  {
    match MergeManifests(target, staged)
    case Err(e) => Stopped(Failed(e), target, staged)
    case Ok(merged) => Running(merged + Delete(staged, ManifestPath), map[])
  }

  /** What one round of the loop does to a running working area, given its
      target, its temporary tree, the index of the input and the input. */
  type Round = (Tree, Tree, nat, Source) -> Progress

  /** The round of `processFiles`, whose collision scan visits a staged tree in
      the order `walk` lists it. */
  function MergeRound(walk: Tree -> seq<string>): Round
  {
    (target: Tree, temp: Tree, k: nat, src: Source) => MergeStep(target, temp, k, src, walk)
  }

  /** The working area after the first `n` inputs, when each round is `round`. */
  function Steps(inputs: seq<Source>, n: nat, round: Round): Progress
    requires 1 <= n <= |inputs|
  {
    if n == 1 then Seed(inputs[0])
    else
      var p := Steps(inputs, n - 1, round);
      if p.Stopped? then p else round(p.target, p.temp, n - 1, inputs[n - 1])
  }

  /** A whole run: if every input was merged, zip the target and purge the
      working area. */
  function Run(inputs: seq<Source>, walk: Tree -> seq<string>): Progress
    requires |inputs| >= 1
  {
    var p := Steps(inputs, |inputs|, MergeRound(walk));
    if p.Stopped? then p else Stopped(Zipped(p.target), map[], map[])
  }

  // ---------------------------------------------------------------------------
  // The working directory

  class Workspace {
    var target: Tree
    var temp: Tree

    constructor ()
      ensures target == map[] && temp == map[]
    {
      target := map[];
      temp := map[];
    }

    /** ASSUMED: `Utils.purgeDirectory(workingDir)` followed by `Utils.checkDir`
        leaves both directories empty. */
    method Purge()
      modifies this
      ensures target == map[] && temp == map[]
    {
      target := map[];
      temp := map[];
    }

    /** ASSUMED: `Utils.unzip` adds the archive's entries to the directory,
        replacing entries at the same path. */
    method Unzip(archive: Tree, dir: Dir)
      modifies this
      ensures dir == TargetDir ==> target == old(target) + archive && temp == old(temp)
      ensures dir == TempDir ==> temp == old(temp) + archive && target == old(target)
    {
      if dir == TargetDir {
        target := target + archive;
      } else {
        temp := temp + archive;
      }
    }

    /** ASSUMED: `Utils.copyDirContent` adds a directory's entries to the
        directory, and throws an IOException (`ok` false) when there is no such
        directory. */
    method CopyDirContent(folder: Option<Tree>, dir: Dir) returns (ok: bool)
      modifies this
      ensures ok <==> folder.Some?
      ensures dir == TargetDir ==> temp == old(temp) && target == if ok then old(target) + folder.value else old(target)
      ensures dir == TempDir ==> target == old(target) && temp == if ok then old(temp) + folder.value else old(temp)
    {
      if folder.None? {
        return false;
      }
      if dir == TargetDir {
        target := target + folder.value;
      } else {
        temp := temp + folder.value;
      }
      return true;
    }

    /** Lines 72-78 and 90-96: unzip when the argument is a file, copy otherwise. */
    method StageInput(src: Source, dir: Dir) returns (ok: bool)
      modifies this
      ensures ok <==> Stage(map[], src).Some?
      ensures dir == TargetDir ==> temp == old(temp) && (ok ==> Stage(old(target), src) == Some(target)) && (!ok ==> target == old(target))
      ensures dir == TempDir ==> target == old(target) && (ok ==> Stage(old(temp), src) == Some(temp)) && (!ok ==> temp == old(temp))
    {
      if src.Archive? {
        Unzip(src.contents, dir);
        ok := true;
      } else {
        ok := CopyDirContent(if src.Folder? then Some(src.contents) else None, dir);
      }
    }

    /** `new File(toBeMergedPackageXMLPath).delete()`. */
    method DeleteTempManifest()
      modifies this
      ensures target == old(target) && temp == Delete(old(temp), ManifestPath)
    {
      temp := Delete(temp, ManifestPath);
    }

    /** ASSUMED: `Utils.mergeTwoDirectories` moves every entry of the temporary
        directory into the target, replacing entries at the same path, and
        leaves the temporary directory empty. */
    method MergeTwoDirectories()
      modifies this
      ensures target == old(target) + old(temp) && temp == map[]
    {
      target := target + temp;
      temp := map[];
    }

    /** ASSUMED: `Utils.zipIt` archives the target directory as it is. */
    method ZipIt() returns (archive: Tree)
      ensures archive == target
    {
      archive := target;
    }

    /** `mergePackageXMLs(target/package.xml, temp/package.xml)`: `None` when
        the merged manifest was written over the target's, or the failure that
        stopped it, in which case the target is as it was. */
    method MergePackageXMLs() returns (failure: Option<Failure>)
      modifies this
      ensures temp == old(temp)
      ensures MergeManifests(old(target), old(temp)).Ok? ==> failure == None && target == MergeManifests(old(target), old(temp)).value
      ensures MergeManifests(old(target), old(temp)).Err? ==> failure == Some(MergeManifests(old(target), old(temp)).error) && target == old(target)
    {
      var maps, doc1 := ReadManifests([target, temp]);
      var resultPackageHash := JoinHashmaps(maps);
      if doc1.None? {
        return Some(NoManifest);
      }
      var versionElement := FirstVersion(doc1.value.children);
      if versionElement.None? {
        return Some(NoVersion);
      }
      var output := SerialiseManifest(doc1.value.root, versionElement.value, resultPackageHash);
      if IsDirectory(target, ManifestPath) {
        return Some(ManifestNotWritable);
      }
      target := target[ManifestPath := File(XmlDoc(output))];
      return None;
    }

    /** One round of the loop of `processFiles` (lines 84-122) for input `k`:
        `None` when the input was merged, otherwise how the run ends. */
    method MergeInput(src: Source, k: nat, walk: Tree -> seq<string>) returns (stop: Option<Outcome>)
      modifies this
      ensures stop.None? ==> MergeStep(old(target), old(temp), k, src, walk) == Running(target, temp)
      ensures stop.Some? ==> MergeStep(old(target), old(temp), k, src, walk) == Stopped(stop.value, target, temp)
    {
      var ok := StageInput(src, TempDir);
      if !ok {
        return Some(Failed(CannotCopy(k)));
      }
      var collisionList := FindCollisions(target, temp, walk(temp));
      if collisionList != [] {
        return Some(Collided(k, collisionList));
      }
      var failure := MergePackageXMLs();
      if failure.Some? {
        return Some(Failed(failure.value));
      }
      DeleteTempManifest();
      MergeTwoDirectories();
      return None;
    }

    /** `processFiles`: seed the target from `inputs[0]` (`args[1]`), merge the
        other inputs on top of it in order, and zip the target. `walk` is the
        order in which `FileUtils.iterateFiles` visits a tree. */
    method ProcessFiles(inputs: seq<Source>, walk: Tree -> seq<string>) returns (outcome: Outcome)
      requires |inputs| >= 1
      modifies this
      ensures Run(inputs, walk) == Stopped(outcome, target, temp)
    {
      Purge();
      var ok := StageInput(inputs[0], TargetDir);
      if !ok {
        RunStopsAt(inputs, 1, walk);
        return Failed(CannotCopy(0));
      }
      for i := 1 to |inputs|
        invariant Steps(inputs, i, MergeRound(walk)) == Running(target, temp)
      {
        StepsNext(inputs, i, MergeRound(walk));
        RoundIsMergeStep(target, temp, i, inputs[i], walk);
        var stop := MergeInput(inputs[i], i, walk);
        if stop.Some? {
          RunStopsAt(inputs, i + 1, walk);
          return stop.value;
        }
      }
      var archive := ZipIt();
      Purge();
      return Zipped(archive);
    }
  }

  // ---------------------------------------------------------------------------
  // Properties of a run

  /** The round after `n` inputs is applied to the working area they left. */
  lemma StepsNext(inputs: seq<Source>, n: nat, round: Round)
    requires 1 <= n < |inputs|
    requires Steps(inputs, n, round).Running?
    ensures Steps(inputs, n + 1, round) == round(Steps(inputs, n, round).target, Steps(inputs, n, round).temp, n, inputs[n])
  {
  }

  lemma RoundIsMergeStep(target: Tree, temp: Tree, k: nat, src: Source, walk: Tree -> seq<string>)
    ensures MergeRound(walk)(target, temp, k, src) == MergeStep(target, temp, k, src, walk)
  {
  }

  /** A run that stops after `n` inputs ends as it stopped. */
  lemma RunStopsAt(inputs: seq<Source>, n: nat, walk: Tree -> seq<string>)
    requires 1 <= n <= |inputs|
    requires Steps(inputs, n, MergeRound(walk)).Stopped?
    ensures Run(inputs, walk) == Steps(inputs, n, MergeRound(walk))
  {
    StoppedStays(inputs, n, |inputs|, MergeRound(walk));
  }

  /** Once a run has stopped, later inputs change nothing. */
  lemma {:induction false} StoppedStays(inputs: seq<Source>, n: nat, m: nat, round: Round)
    requires 1 <= n <= m <= |inputs|
    requires Steps(inputs, n, round).Stopped?
    ensures Steps(inputs, m, round) == Steps(inputs, n, round)
    decreases m
  {
    if m > n {
      StoppedStays(inputs, n, m - 1, round);
    }
  }

  /** Where a stopped run stopped: at the seed (`k == 0`) or in the round of
      input `k`, which was handed a running working area. */
  lemma {:induction false} StopPoint(inputs: seq<Source>, n: nat, round: Round) returns (k: nat)
    requires 1 <= n <= |inputs|
    requires Steps(inputs, n, round).Stopped?
    ensures k < n
    ensures k == 0 ==> Steps(inputs, n, round) == Seed(inputs[0])
    ensures k > 0 ==> && Steps(inputs, k, round).Running?
                      && Steps(inputs, n, round) == round(Steps(inputs, k, round).target, Steps(inputs, k, round).temp, k, inputs[k])
  {
    if n == 1 {
      k := 0;
    } else if Steps(inputs, n - 1, round).Stopped? {
      k := StopPoint(inputs, n - 1, round);
      StoppedStays(inputs, n - 1, n, round);
    } else {
      k := n - 1;
    }
  }

  /** The first `n` rounds see only the first `n` inputs. */
  lemma {:induction false} StepsOfPrefix(a: seq<Source>, b: seq<Source>, n: nat, round: Round)
    requires 1 <= n <= |a|
    ensures Steps(a + b, n, round) == Steps(a, n, round)
  {
    assert (a + b)[n - 1] == a[n - 1];
    if n > 1 {
      StepsOfPrefix(a, b, n - 1, round);
    }
  }

  /** Inputs are taken strictly in order, and once the run has stopped the
      inputs after it are never looked at. */
  lemma AbortIsFinal(inputs: seq<Source>, more: seq<Source>, walk: Tree -> seq<string>)
    requires |inputs| >= 1
    requires Steps(inputs, |inputs|, MergeRound(walk)).Stopped?
    ensures Run(inputs + more, walk) == Run(inputs, walk)
  {
    StepsOfPrefix(inputs, more, |inputs|, MergeRound(walk));
    StoppedStays(inputs + more, |inputs|, |inputs + more|, MergeRound(walk));
  }

  /** Every round of `round` that goes through leaves the temporary directory empty. */
  ghost predicate EmptiesTemp(round: Round)
  {
    forall target, temp, k, src :: round(target, temp, k, src).Running? ==> round(target, temp, k, src).temp == map[]
  }

  lemma MergeRoundEmptiesTemp(walk: Tree -> seq<string>)
    ensures EmptiesTemp(MergeRound(walk))
  {
    forall target, temp, k, src
      ensures MergeRound(walk)(target, temp, k, src).Running? ==> MergeRound(walk)(target, temp, k, src).temp == map[]
    {
      assert MergeRound(walk)(target, temp, k, src) == MergeStep(target, temp, k, src, walk);
    }
  }

  /** While the run goes on, the temporary directory is empty between rounds. */
  lemma {:induction false} RunningTempIsEmpty(inputs: seq<Source>, n: nat, round: Round)
    requires 1 <= n <= |inputs|
    requires EmptiesTemp(round)
    requires Steps(inputs, n, round).Running?
    ensures Steps(inputs, n, round).temp == map[]
  {
    if n > 1 {
      RunningTempIsEmpty(inputs, n - 1, round);
    }
  }

  /** No round of `round` ends a run with an archive. */
  ghost predicate NeverZips(round: Round)
  {
    forall target, temp, k, src :: round(target, temp, k, src).Stopped? ==> !round(target, temp, k, src).outcome.Zipped?
  }

  lemma MergeRoundNeverZips(walk: Tree -> seq<string>)
    ensures NeverZips(MergeRound(walk))
  {
    forall target, temp, k, src
      ensures MergeRound(walk)(target, temp, k, src).Stopped? ==> !MergeRound(walk)(target, temp, k, src).outcome.Zipped?
    {
      assert MergeRound(walk)(target, temp, k, src) == MergeStep(target, temp, k, src, walk);
    }
  }

  /** A run that stopped early stopped without an archive. */
  lemma {:induction false} StoppedWithoutArchive(inputs: seq<Source>, n: nat, round: Round)
    requires 1 <= n <= |inputs|
    requires NeverZips(round)
    requires Steps(inputs, n, round).Stopped?
    ensures !Steps(inputs, n, round).outcome.Zipped?
  {
    if n > 1 && Steps(inputs, n - 1, round).Stopped? {
      StoppedWithoutArchive(inputs, n - 1, round);
    }
  }

  /** The run writes the output archive exactly when every input was merged,
      and the archive is then the target after the last input. */
  lemma ZippedIffAllMerged(inputs: seq<Source>, walk: Tree -> seq<string>)
    requires |inputs| >= 1
    ensures Run(inputs, walk).outcome.Zipped? <==> Steps(inputs, |inputs|, MergeRound(walk)).Running?
    ensures Run(inputs, walk).outcome.Zipped? ==> Run(inputs, walk).outcome.archive == Steps(inputs, |inputs|, MergeRound(walk)).target
  {
    if Steps(inputs, |inputs|, MergeRound(walk)).Stopped? {
      MergeRoundNeverZips(walk);
      StoppedWithoutArchive(inputs, |inputs|, MergeRound(walk));
    }
  }

  /** A collision stops the run at input `k` before anything is merged: the
      target is exactly what it was after inputs `0` to `k - 1`, the staged
      tree is input `k`'s, and the report is the non-empty list of its entries
      that collide with that target. */
  lemma CollisionLeavesTarget(inputs: seq<Source>, walk: Tree -> seq<string>)
    requires |inputs| >= 1
    requires Run(inputs, walk).outcome.Collided?
    ensures var r := Run(inputs, walk);
            var k := r.outcome.input;
            && 1 <= k < |inputs|
            && Steps(inputs, k, MergeRound(walk)).Running?
            && r.target == Steps(inputs, k, MergeRound(walk)).target
            && Stage(map[], inputs[k]) == Some(r.temp)
            && r.outcome.report != []
            && r.outcome.report == Collisions(r.target, r.temp, walk(r.temp))
  {
    var last := Steps(inputs, |inputs|, MergeRound(walk));
    assert last.Stopped? && Run(inputs, walk) == last;
    var k := StopPoint(inputs, |inputs|, MergeRound(walk));
    if k > 0 {
      var p := Steps(inputs, k, MergeRound(walk));
      MergeRoundEmptiesTemp(walk);
      RunningTempIsEmpty(inputs, k, MergeRound(walk));
      RoundIsMergeStep(p.target, map[], k, inputs[k], walk);
      CollidedRound(p.target, inputs[k], k, walk);
    }
  }

  /** A round from an empty temporary directory that stops on a collision
      leaves the target alone and holds the staged input as the temporary tree. */
  lemma CollidedRound(target: Tree, src: Source, k: nat, walk: Tree -> seq<string>)
    ensures var r := MergeStep(target, map[], k, src, walk);
            r.Stopped? && r.outcome.Collided? ==>
              && r.outcome.input == k
              && r.target == target
              && Stage(map[], src) == Some(r.temp)
              && r.outcome.report != []
              && r.outcome.report == Collisions(r.target, r.temp, walk(r.temp))
  {
  }

  // ---------------------------------------------------------------------------
  // Properties of the manifest merge

  /** A tree whose manifest is a written manifest reads back as that
      manifest's version and mapping. */
  lemma WrittenManifestReadsBack(t: Tree, root: string, versionText: string, hash: MetadataHash)
    requires ManifestOf(t) == Some(Serialised(root, versionText, hash))
    ensures Usable(t) && HashesOf(t) == [hash]
    ensures ManifestOf(t).value.root == root && FirstVersion(ManifestOf(t).value.children) == Some(versionText)
  {
    SerialisedIsManifestFor(root, versionText, hash);
    ReadBack(Serialised(root, versionText, hash), versionText, hash);
  }

  /** `mergePackageXMLs` goes through exactly when some manifest was read, the
      first one read has a version, and the target's manifest path is not a
      directory. Then only the target's manifest changes, and it now holds the
      root and the version of that first manifest (the target's own when it is
      readable, never the staged one's after that) and the union of the
      mappings read; a manifest that is missing or unreadable adds nothing. */
  lemma MergeManifestsMeaning(target: Tree, temp: Tree)
    ensures var doc1 := FirstParsed([target, temp]);
            MergeManifests(target, temp).Ok? <==>
              doc1.Some? && FirstVersion(doc1.value.children).Some? && !IsDirectory(target, ManifestPath)
    ensures MergeManifests(target, temp).Ok? ==>
              FirstParsed([target, temp]).Some? &&
              var doc1 := FirstParsed([target, temp]).value;
              var t' := MergeManifests(target, temp).value;
              && (Usable(target) ==> ManifestOf(target) == Some(doc1))
              && (!Usable(target) ==> Usable(temp) && ManifestOf(temp) == Some(doc1))
              && t' - {ManifestPath} == target - {ManifestPath}
              && Usable(t') && ManifestOf(t').value.root == doc1.root
              && FirstVersion(ManifestOf(t').value.children) == FirstVersion(doc1.children)
              && HashesOf(t') == [JoinAll(HashesOf(target) + HashesOf(temp))]
  {
    PairParsed(target, temp);
    if MergeManifests(target, temp).Ok? {
      var doc1 := FirstParsed([target, temp]).value;
      var t' := MergeManifests(target, temp).value;
      var hash := JoinAll(HashesOf(target) + HashesOf(temp));
      assert ManifestOf(t') == Some(Serialised(doc1.root, FirstVersion(doc1.children).value, hash));
      WrittenManifestReadsBack(t', doc1.root, FirstVersion(doc1.children).value, hash);
    }
  }

  /** A staged manifest that is missing or unreadable leaves the mapping as the
      target's alone. */
  lemma UnreadableStagedManifestAddsNothing(target: Tree, temp: Tree)
    requires Usable(target) && !Usable(temp)
    ensures MergeManifests(target, temp).Ok? ==> HashesOf(MergeManifests(target, temp).value) == HashesOf(target)
  {
    MergeManifestsMeaning(target, temp);
    JoinAllOne(HashOf(TypesList(ManifestOf(target).value.children)));
    assert HashesOf(temp) == [];
    assert HashesOf(target) + HashesOf(temp) == HashesOf(target);
  }

  // ---------------------------------------------------------------------------
  // Properties of the run's manifest

  /** One merged round rewrites the target's manifest from the target's root
      and version and the union of both mappings. */
  lemma MergedRoundManifest(target: Tree, staged: Tree, k: nat)
    requires Usable(target)
    requires ManifestPath in staged ==> staged[ManifestPath].File?
    requires MergeUnchecked(target, staged, k).Running?
    ensures var d := ManifestOf(target).value;
            && FirstVersion(d.children).Some?
            && ManifestOf(MergeUnchecked(target, staged, k).target)
               == Some(Serialised(d.root, FirstVersion(d.children).value, JoinAll(HashesOf(target) + HashesOf(staged))))
  {
    PairParsed(target, staged);
    var merged := MergeManifests(target, staged).value;
    assert ManifestPath !in Delete(staged, ManifestPath);
    assert (merged + Delete(staged, ManifestPath))[ManifestPath] == merged[ManifestPath];
  }

  /** Appending an input appends its mapping, if any. */
  lemma InputHashesSnoc(inputs: seq<Source>, n: nat)
    requires 1 <= n <= |inputs|
    ensures InputHashes(inputs[..n]) == InputHashes(inputs[..n - 1]) + HashesOf(SourceTree(inputs[n - 1]))
  {
    var front := inputs[..n];
    assert front[..|front| - 1] == inputs[..n - 1];
    assert front[|front| - 1] == inputs[n - 1];
  }

  /** A round from an empty temporary directory that goes through keeps the
      target's root and version and adds the input's mapping to the target's. */
  lemma RoundManifest(target: Tree, src: Source, k: nat, walk: Tree -> seq<string>)
    requires Usable(target)
    requires ManifestIsFile(src)
    requires MergeStep(target, map[], k, src, walk).Running?
    ensures var t' := MergeStep(target, map[], k, src, walk).target;
            var d := ManifestOf(target).value;
            && Usable(t')
            && ManifestOf(t').value.root == d.root
            && FirstVersion(ManifestOf(t').value.children) == FirstVersion(d.children)
            && HashesOf(t') == [JoinAll(HashesOf(target) + HashesOf(SourceTree(src)))]
  {
    var staged := SourceTree(src);
    assert Stage(map[], src) == Some(map[] + staged);
    assert map[] + staged == staged;
    assert MergeStep(target, map[], k, src, walk) == MergeUnchecked(target, staged, k);
    MergedRoundManifest(target, staged, k);
    var d := ManifestOf(target).value;
    WrittenManifestReadsBack(MergeUnchecked(target, staged, k).target, d.root, FirstVersion(d.children).value, JoinAll(HashesOf(target) + HashesOf(staged)));
  }

  /** `after`'s manifest is `before`'s with the root and the version kept and
      the mapping of `src`'s manifest added. */
  predicate Extends(before: Tree, src: Source, after: Tree)
  {
    && Usable(before) && Usable(after)
    && ManifestOf(after).value.root == ManifestOf(before).value.root
    && FirstVersion(ManifestOf(after).value.children) == FirstVersion(ManifestOf(before).value.children)
    && HashesOf(after) == [JoinAll(HashesOf(before) + HashesOf(SourceTree(src)))]
  }

  /** Input `src` holds no directory where its manifest belongs. */
  predicate ManifestIsFile(src: Source)
  {
    ManifestPath in SourceTree(src) ==> SourceTree(src)[ManifestPath].File?
  }

  /** Every round of `round` from an empty temporary directory that goes
      through extends a usable target manifest by the input's. */
  ghost predicate KeepsManifest(round: Round)
  {
    forall target, k, src :: Usable(target) && ManifestIsFile(src) && round(target, map[], k, src).Running? ==>
      Extends(target, src, round(target, map[], k, src).target)
  }

  lemma MergeRoundKeepsManifest(walk: Tree -> seq<string>)
    ensures KeepsManifest(MergeRound(walk))
  {
    forall target, k, src | Usable(target) && ManifestIsFile(src) && MergeRound(walk)(target, map[], k, src).Running?
      ensures Extends(target, src, MergeRound(walk)(target, map[], k, src).target)
    {
      assert MergeRound(walk)(target, map[], k, src) == MergeStep(target, map[], k, src, walk);
      RoundManifest(target, src, k, walk);
    }
  }

  /** What a merged round does to the files: every staged entry other than the
      manifest arrives as staged, every other target entry except the manifest
      stays as it was, and no other path appears. */
  lemma MergedRoundFiles(target: Tree, staged: Tree, k: nat)
    requires MergeUnchecked(target, staged, k).Running?
    ensures var t' := MergeUnchecked(target, staged, k).target;
            && (forall p :: p in t' <==> p in target || p in staged || p == ManifestPath)
            && (forall p :: p in staged && p != ManifestPath ==> t'[p] == staged[p])
            && (forall p :: p in target && p !in staged && p != ManifestPath ==> t'[p] == target[p])
  {
    var merged := MergeManifests(target, staged).value;
    assert merged.Keys == target.Keys + {ManifestPath};
    assert forall p :: p in merged && p != ManifestPath ==> merged[p] == target[p];
  }

  /** The collision check is what keeps a round from overwriting: when the walk
      lists the whole staged tree and the round goes through, every staged
      non-directory entry already in the target has a skipped name. */
  lemma NoSilentOverwrite(target: Tree, staged: Tree, k: nat, walk: Tree -> seq<string>)
    requires forall q :: q in staged ==> q in walk(staged)
    requires MergeStaged(target, staged, k, walk).Running?
    ensures forall p :: p in staged && !IsDirectory(staged, p) && p in target ==> Skipped(Name(p))
  {
    CollisionsMeaning(target, staged, walk(staged));
  }

  /** `t`'s manifest is usable, has the root and the version of `d0`, and its
      mapping is the union of `hs`. */
  predicate Carries(t: Tree, d0: Document, hs: seq<MetadataHash>)
  {
    && Usable(t)
    && ManifestOf(t).value.root == d0.root
    && FirstVersion(ManifestOf(t).value.children) == FirstVersion(d0.children)
    && HashesOf(t) == [JoinAll(hs)]
  }

  /** A round that extends the target's manifest carries the input's mapping
      into the union. */
  lemma CarriesOn(before: Tree, src: Source, after: Tree, d0: Document, hs: seq<MetadataHash>)
    requires Carries(before, d0, hs) && Extends(before, src, after)
    ensures Carries(after, d0, hs + HashesOf(SourceTree(src)))
  {
    JoinAllFlatten(hs, HashesOf(SourceTree(src)));
  }

  /** The seeded target carries the first input's manifest. */
  lemma SeedCarries(first: Source)
    requires Usable(SourceTree(first))
    ensures Seed(first).Running? ==> Carries(Seed(first).target, ManifestOf(SourceTree(first)).value, HashesOf(SourceTree(first)))
  {
    var t0 := SourceTree(first);
    if Seed(first).Running? {
      assert Seed(first).target == map[] + t0 == t0;
      JoinAllOne(HashOf(TypesList(ManifestOf(t0).value.children)));
    }
  }

  /** While the run goes on, the target's manifest has the root and the version
      of the first input's manifest and the union of the mappings of every input
      so far. */
  lemma {:induction false} TargetManifest(inputs: seq<Source>, n: nat, round: Round)
    requires 1 <= n <= |inputs|
    requires EmptiesTemp(round) && KeepsManifest(round)
    requires Steps(inputs, n, round).Running?
    requires Usable(SourceTree(inputs[0])) && ManifestsAreFiles(inputs)
    ensures Carries(Steps(inputs, n, round).target, ManifestOf(SourceTree(inputs[0])).value, InputHashes(inputs[..n]))
  {
    if n == 1 {
      FirstTargetManifest(inputs, round);
    } else {
      TargetManifest(inputs, n - 1, round);
      NextTargetManifest(inputs, n, round, ManifestOf(SourceTree(inputs[0])).value);
    }
  }

  /** The claim of `TargetManifest` after the first input. */
  lemma FirstTargetManifest(inputs: seq<Source>, round: Round)
    requires 1 <= |inputs|
    requires Steps(inputs, 1, round).Running?
    requires Usable(SourceTree(inputs[0]))
    ensures Carries(Steps(inputs, 1, round).target, ManifestOf(SourceTree(inputs[0])).value, InputHashes(inputs[..1]))
  {
    InputHashesSnoc(inputs, 1);
    assert InputHashes(inputs[..0]) == [];
    SeedCarries(inputs[0]);
  }

  /** The claim of `TargetManifest` carried over one more input. */
  lemma NextTargetManifest(inputs: seq<Source>, n: nat, round: Round, d0: Document)
    requires 2 <= n <= |inputs|
    requires EmptiesTemp(round) && KeepsManifest(round)
    requires Steps(inputs, n, round).Running?
    requires ManifestIsFile(inputs[n - 1])
    requires Steps(inputs, n - 1, round).Running?
    requires Carries(Steps(inputs, n - 1, round).target, d0, InputHashes(inputs[..n - 1]))
    ensures Carries(Steps(inputs, n, round).target, d0, InputHashes(inputs[..n]))
  {
    InputHashesSnoc(inputs, n);
    RunningTempIsEmpty(inputs, n - 1, round);
    StepsNext(inputs, n - 1, round);
    CarriesStep(round, Steps(inputs, n - 1, round).target, inputs[n - 1], n - 1, d0, InputHashes(inputs[..n - 1]));
  }

  /** One round of a manifest-keeping `round` carries the union one input further. */
  lemma CarriesStep(round: Round, before: Tree, src: Source, k: nat, d0: Document, hs: seq<MetadataHash>)
    requires KeepsManifest(round)
    requires Carries(before, d0, hs) && ManifestIsFile(src)
    requires round(before, map[], k, src).Running?
    ensures Carries(round(before, map[], k, src).target, d0, hs + HashesOf(SourceTree(src)))
  {
    CarriesOn(before, src, round(before, map[], k, src).target, d0, hs);
  }

  lemma LastTargetManifest(inputs: seq<Source>, round: Round)
    requires |inputs| >= 1
    requires EmptiesTemp(round) && KeepsManifest(round)
    requires Steps(inputs, |inputs|, round).Running?
    requires Usable(SourceTree(inputs[0])) && ManifestsAreFiles(inputs)
    ensures Carries(Steps(inputs, |inputs|, round).target, ManifestOf(SourceTree(inputs[0])).value, InputHashes(inputs))
  {
    TargetManifest(inputs, |inputs|, round);
    assert inputs[..|inputs|] == inputs;
  }

  /** The output archive's manifest, when the first input's manifest is
      readable: its root and version are the first input's, and it lists
      exactly the types and the members of every input's readable manifest. */
  lemma ZippedManifest(inputs: seq<Source>, walk: Tree -> seq<string>)
    requires |inputs| >= 1
    requires Run(inputs, walk).outcome.Zipped?
    requires Usable(SourceTree(inputs[0])) && ManifestsAreFiles(inputs)
    ensures Carries(Run(inputs, walk).outcome.archive, ManifestOf(SourceTree(inputs[0])).value, InputHashes(inputs))
  {
    ZippedIffAllMerged(inputs, walk);
    MergeRoundEmptiesTemp(walk);
    MergeRoundKeepsManifest(walk);
    LastTargetManifest(inputs, MergeRound(walk));
  }
}
