/**
 * `SaveCombinedMeshes`: which folders are accepted, how the project-relative
 * asset path is derived from the chosen folder, and which asset file each
 * combined mesh is written to. The folder panel, the progress bar's cancel
 * button and the asset database are inputs; the asset writes are returned as
 * a list.
 */
module SavePaths {
  import opened Common

  type String = seq<char>

  predicate StartsWith(s: String, prefix: String) {
    |prefix| <= |s| && s[..|prefix|] == prefix
  }

  /** C#'s ordinal `string.Contains`; the empty string occurs in every string. */
  predicate Contains(s: String, sub: String)
    ensures Contains(s, sub) ==> |sub| <= |s|
    ensures sub == [] ==> Contains(s, sub)
    decreases |s|
  {
    StartsWith(s, sub) || (|s| > 0 && Contains(s[1..], sub))
  }

  /**
   * C#'s `string.Replace(oldValue, newValue)`: every occurrence, left to right,
   * without overlap. An empty `oldValue` makes C# throw, hence the requires.
   */
  function Replace(s: String, oldValue: String, newValue: String): String
    requires |oldValue| > 0
    decreases |s|
  {
    if |s| == 0 then s
    else if StartsWith(s, oldValue) then newValue + Replace(s[|oldValue|..], oldValue, newValue)
    else [s[0]] + Replace(s[1..], oldValue, newValue)
  }

  /** A string without an occurrence is left as it is. */
  lemma {:induction false} ReplaceAbsent(s: String, oldValue: String, newValue: String)
    requires |oldValue| > 0 && !Contains(s, oldValue)
    ensures Replace(s, oldValue, newValue) == s
    decreases |s|
  {
    if |s| > 0 {
      ReplaceAbsent(s[1..], oldValue, newValue);
      assert [s[0]] + s[1..] == s;
    }
  }

  /** An occurrence at the start is replaced and the rest is handled on its own. */
  lemma ReplaceAtStart(rest: String, oldValue: String, newValue: String)
    requires |oldValue| > 0
    ensures Replace(oldValue + rest, oldValue, newValue) == newValue + Replace(rest, oldValue, newValue)
  {
    var s := oldValue + rest;
    assert s[..|oldValue|] == oldValue;
    assert s[|oldValue|..] == rest;
  }

  // ---------------------------------------------------------------------
  // Decimal index
  // ---------------------------------------------------------------------

  predicate IsDigit(c: char) {
    '0' <= c <= '9'
  }

  predicate AllDigits(s: String) {
    forall k :: 0 <= k < |s| ==> IsDigit(s[k])
  }

  /** `int.ToString()` for a non-negative int: decimal digits, no sign, no leading zero. */
  function NatToString(n: nat): (r: String)
    ensures |r| >= 1 && AllDigits(r)
    ensures r[0] == '0' ==> n == 0
    ensures n == 0 ==> r == "0"
  {
    if n < 10 then ['0' + n as char]
    else NatToString(n / 10) + ['0' + (n % 10) as char]
  }

  /** Reads a string of decimal digits back as a number. */
  function ParseDecimal(s: String): nat
    requires AllDigits(s)
  {
    if s == [] then 0
    else ParseDecimal(s[..|s| - 1]) * 10 + (s[|s| - 1] - '0') as int
  }

  lemma {:induction false} ParseNatToString(n: nat)
    ensures ParseDecimal(NatToString(n)) == n
  {
    if n >= 10 {
      var s := NatToString(n);
      assert s[..|s| - 1] == NatToString(n / 10);
      ParseNatToString(n / 10);
    }
  }

  lemma NatToStringInjective(a: nat, b: nat)
    requires NatToString(a) == NatToString(b)
    ensures a == b
  {
    ParseNatToString(a);
    ParseNatToString(b);
  }

  // ---------------------------------------------------------------------
  // Asset file names
  // ---------------------------------------------------------------------

  /** `mesh.name + "_" + i.ToString() + ".asset"`. */
  function MeshFileName(meshName: String, index: nat): String {
    meshName + "_" + NatToString(index) + ".asset"
  }

  /** `assetPath + "/" + fileName`. */
  function MeshFilePath(assetPath: String, meshName: String, index: nat): String {
    assetPath + "/" + MeshFileName(meshName, index)
  }

  /** The longest run of digits at the end of `s`. */
  function DigitSuffix(s: String): (r: String)
    ensures |r| <= |s| && r == s[|s| - |r|..] && AllDigits(r)
  {
    if |s| == 0 || !IsDigit(s[|s| - 1]) then []
    else DigitSuffix(s[..|s| - 1]) + [s[|s| - 1]]
  }

  /** After an underscore, the digit run at the end is exactly the digits written. */
  lemma {:induction false} DigitSuffixAfterUnderscore(n: String, d: String)
    requires AllDigits(d)
    ensures DigitSuffix(n + "_" + d) == d
  {
    var s := n + "_" + d;
    if |d| == 0 {
      assert s[|s| - 1] == '_';
    } else {
      var d' := d[..|d| - 1];
      assert s[..|s| - 1] == n + "_" + d';
      assert s[|s| - 1] == d[|d| - 1];
      DigitSuffixAfterUnderscore(n, d');
      assert d' + [d[|d| - 1]] == d;
    }
  }

  /** The digits after the last underscore are the same when the strings are. */
  lemma SameDigitsAfterUnderscore(n1: String, d1: String, n2: String, d2: String)
    requires AllDigits(d1) && AllDigits(d2)
    requires n1 + "_" + d1 == n2 + "_" + d2
    ensures d1 == d2
  {
    DigitSuffixAfterUnderscore(n1, d1);
    DigitSuffixAfterUnderscore(n2, d2);
  }

  /**
   * Two meshes of one save never share a file: the index after the last
   * underscore tells their file paths apart, whatever the mesh names are.
   */
  lemma MeshFilePathsDistinct(assetPath: String, name1: String, name2: String, i: nat, j: nat)
    requires i != j
    ensures MeshFilePath(assetPath, name1, i) != MeshFilePath(assetPath, name2, j)
  {
    if MeshFilePath(assetPath, name1, i) == MeshFilePath(assetPath, name2, j) {
      var x := name1 + "_" + NatToString(i);
      var y := name2 + "_" + NatToString(j);
      var p := MeshFilePath(assetPath, name1, i);
      var q := MeshFilePath(assetPath, name2, j);
      assert p == assetPath + "/" + x + ".asset";
      assert q == assetPath + "/" + y + ".asset";
      assert |x| == |y|;
      assert x == p[|assetPath| + 1..|p| - 6];
      assert y == q[|assetPath| + 1..|q| - 6];
      SameDigitsAfterUnderscore(name1, NatToString(i), name2, NatToString(j));
      NatToStringInjective(i, j);
    }
  }

  // ---------------------------------------------------------------------
  // Saving
  // ---------------------------------------------------------------------

  /**
   * The mesh of a filter found under the combiner. `isAsset` is the answer of
   * `AssetDatabase.Contains(mesh)` at the moment the loop reaches this filter,
   * after the assets written for earlier filters: a mesh shared with an
   * earlier filter already counts as an asset there. Mesh identity itself is
   * not modelled.
   */
  datatype MeshInfo = MeshInfo(name: String, isAsset: bool)

  /** A child `MeshFilter`'s `sharedMesh`, possibly null. */
  type MeshFilterSlot = Option<MeshInfo>

  /** One `AssetDatabase.CreateAsset(mesh, path)` for the filter at `index`. */
  datatype Written = Written(index: nat, path: String)

  datatype SaveStatus =
    | PanelCancelled          // the folder panel returned ""
    | NotInProject            // the folder does not contain the data path
    | NoMeshFilters
    | ReplaceFailed           // an empty data path makes `Replace` throw; the exception is logged
    | AlreadySaved(at: nat)   // the mesh at `at` is already an asset: the save stops there
    | ProgressCancelled(at: nat)
    | Completed

  datatype SaveResult = SaveResult(
    panelFolder: String,       // the folder the panel opens in
    saveMeshesFolder: String,  // the combiner's remembered folder afterwards
    written: seq<Written>,
    status: SaveStatus)

  /** The loop stops at filter `i`: its mesh is an asset already, or the user cancels there. */
  predicate StopsAt(filters: seq<MeshFilterSlot>, i: nat, cancelAt: Option<nat>)
    requires i < |filters|
  {
    filters[i].Some? && (filters[i].value.isAsset || cancelAt == Some(i))
  }

  /** The first filter the loop stops at, or the number of filters. */
  function StopIndex(filters: seq<MeshFilterSlot>, cancelAt: Option<nat>, from: nat): (stop: nat)
    requires from <= |filters|
    ensures from <= stop <= |filters|
    ensures forall i :: from <= i < stop ==> !StopsAt(filters, i, cancelAt)
    ensures stop < |filters| ==> StopsAt(filters, stop, cancelAt)
    decreases |filters| - from
  {
    if from == |filters| || StopsAt(filters, from, cancelAt) then from
    else StopIndex(filters, cancelAt, from + 1)
  }

  /** The writes of the first `n` filters: one per non-null mesh, at the filter's own index. */
  function PlannedWrites(assetPath: String, filters: seq<MeshFilterSlot>, n: nat): (w: seq<Written>)
    requires n <= |filters|
    ensures |w| <= n
  {
    if n == 0 then []
    else PlannedWrites(assetPath, filters, n - 1) +
         (match filters[n - 1]
          case None => []
          case Some(mesh) => [Written(n - 1, MeshFilePath(assetPath, mesh.name, n - 1))])
  }

  lemma PlannedWritesStep(assetPath: String, filters: seq<MeshFilterSlot>, n: nat)
    requires 0 < n <= |filters|
    ensures filters[n - 1].None? ==> PlannedWrites(assetPath, filters, n) == PlannedWrites(assetPath, filters, n - 1)
    ensures filters[n - 1].Some? ==>
              PlannedWrites(assetPath, filters, n) == PlannedWrites(assetPath, filters, n - 1) +
                [Written(n - 1, MeshFilePath(assetPath, filters[n - 1].value.name, n - 1))]
  {
  }

  /** Each planned write is a non-null mesh below `n`, at the path built from its name and index. */
  lemma {:induction false} PlannedWritesPaths(assetPath: String, filters: seq<MeshFilterSlot>, n: nat)
    requires n <= |filters|
    ensures var w := PlannedWrites(assetPath, filters, n);
            forall k :: 0 <= k < |w| ==>
              w[k].index < n && filters[w[k].index].Some? &&
              w[k].path == MeshFilePath(assetPath, filters[w[k].index].value.name, w[k].index)
  {
    if n > 0 {
      PlannedWritesPaths(assetPath, filters, n - 1);
      PlannedWritesStep(assetPath, filters, n);
    }
  }

  /** The writes follow filter order, so no two share an index, nor (by the index) a file. */
  lemma {:induction false} PlannedWritesOrdered(assetPath: String, filters: seq<MeshFilterSlot>, n: nat)
    requires n <= |filters|
    ensures var w := PlannedWrites(assetPath, filters, n);
            forall k, l :: 0 <= k < l < |w| ==> w[k].index < w[l].index && w[k].path != w[l].path
  {
    if n > 0 {
      PlannedWritesOrdered(assetPath, filters, n - 1);
      PlannedWritesPaths(assetPath, filters, n);
      PlannedWritesPaths(assetPath, filters, n - 1);
      PlannedWritesStep(assetPath, filters, n);
      var w0 := PlannedWrites(assetPath, filters, n - 1);
      var w := PlannedWrites(assetPath, filters, n);
      forall k, l | 0 <= k < l < |w| ensures w[k].index < w[l].index && w[k].path != w[l].path {
        assert w[k] == w0[k];
        if l < |w0| {
          assert w[l] == w0[l];
        } else {
          assert w[l].index == n - 1;
        }
        MeshFilePathsDistinct(assetPath, filters[w[k].index].value.name, filters[w[l].index].value.name,
                              w[k].index, w[l].index);
      }
    }
  }

  /** Every non-null mesh below `n` is written. */
  lemma {:induction false} PlannedWritesComplete(assetPath: String, filters: seq<MeshFilterSlot>, n: nat)
    requires n <= |filters|
    ensures var w := PlannedWrites(assetPath, filters, n);
            forall i :: 0 <= i < n && filters[i].Some? ==> exists k :: 0 <= k < |w| && w[k].index == i
  {
    if n > 0 {
      PlannedWritesComplete(assetPath, filters, n - 1);
      PlannedWritesStep(assetPath, filters, n);
      var w0 := PlannedWrites(assetPath, filters, n - 1);
      var w := PlannedWrites(assetPath, filters, n);
      forall i | 0 <= i < n && filters[i].Some? ensures exists k :: 0 <= k < |w| && w[k].index == i {
        if i == n - 1 {
          assert w[|w| - 1].index == i;
        } else {
          var k :| 0 <= k < |w0| && w0[k].index == i;
          assert w[k] == w0[k];
        }
      }
    }
  }

  /** With no null mesh the written indices are exactly 0, 1, ..., n - 1. */
  lemma {:induction false} PlannedWritesConsecutive(assetPath: String, filters: seq<MeshFilterSlot>, n: nat)
    requires n <= |filters| && forall i :: 0 <= i < n ==> filters[i].Some?
    ensures var w := PlannedWrites(assetPath, filters, n);
            |w| == n && forall k :: 0 <= k < |w| ==> w[k].index == k
  {
    if n > 0 {
      PlannedWritesConsecutive(assetPath, filters, n - 1);
      PlannedWritesStep(assetPath, filters, n);
    }
  }

  /** The loop stops at `i` when it has passed every filter before it and stops at `i`. */
  lemma StopIndexAt(filters: seq<MeshFilterSlot>, cancelAt: Option<nat>, i: nat)
    requires i <= |filters|
    requires forall k :: 0 <= k < i ==> !StopsAt(filters, k, cancelAt)
    requires i < |filters| ==> StopsAt(filters, i, cancelAt)
    ensures StopIndex(filters, cancelAt, 0) == i
  {
  }

  /**
   * `SaveCombinedMeshes`. `chosenPath` is what the folder panel returns and
   * `cancelAt` the filter index at which the progress bar reports a cancel.
   */
  method SaveCombinedMeshes(saveMeshesFolder: String, dataPath: String, chosenPath: String,
                            filters: seq<MeshFilterSlot>, cancelAt: Option<nat>) returns (r: SaveResult)
    ensures r.panelFolder == if saveMeshesFolder == "" then dataPath else saveMeshesFolder
    ensures chosenPath == "" ==>
              r.status == PanelCancelled && r.written == [] && r.saveMeshesFolder == r.panelFolder
    ensures chosenPath != "" && !Contains(chosenPath, dataPath) ==>
              r.status == NotInProject && r.written == [] && r.saveMeshesFolder == r.panelFolder
    ensures chosenPath != "" && Contains(chosenPath, dataPath) ==> r.saveMeshesFolder == chosenPath
    ensures chosenPath != "" && Contains(chosenPath, dataPath) && |filters| == 0 ==>
              r.status == NoMeshFilters && r.written == []
    ensures chosenPath != "" && |filters| > 0 && dataPath == "" ==>
              r.status == ReplaceFailed && r.written == []
    ensures chosenPath != "" && Contains(chosenPath, dataPath) && |filters| > 0 && dataPath != "" ==>
              var stop := StopIndex(filters, cancelAt, 0);
              r.written == PlannedWrites(Replace(chosenPath, dataPath, "Assets"), filters, stop) &&
              r.status == (if stop == |filters| then Completed
                           else if filters[stop].value.isAsset then AlreadySaved(stop)
                           else ProgressCancelled(stop))
  {
    var folder := if saveMeshesFolder == "" then dataPath else saveMeshesFolder;
    var panelFolder := folder;
    if chosenPath == "" {
      return SaveResult(panelFolder, folder, [], PanelCancelled);
    }
    if !Contains(chosenPath, dataPath) {
      return SaveResult(panelFolder, folder, [], NotInProject);
    }
    folder := chosenPath;
    if |filters| == 0 {
      return SaveResult(panelFolder, folder, [], NoMeshFilters);
    }
    if dataPath == "" {
      return SaveResult(panelFolder, folder, [], ReplaceFailed);
    }
    var assetPath := Replace(chosenPath, dataPath, "Assets");
    var written: seq<Written> := [];
    var status := Completed;
    var i := 0;
    while i < |filters|
      invariant 0 <= i <= |filters|
      invariant forall k :: 0 <= k < i ==> !StopsAt(filters, k, cancelAt)
      invariant written == PlannedWrites(assetPath, filters, i)
    {
      match filters[i]
      case None =>
        i := i + 1;
      case Some(mesh) =>
        if mesh.isAsset {
          StopIndexAt(filters, cancelAt, i);
          return SaveResult(panelFolder, folder, written, AlreadySaved(i));
        }
        var filePath := MeshFilePath(assetPath, mesh.name, i);
        if cancelAt == Some(i) {
          StopIndexAt(filters, cancelAt, i);
          status := ProgressCancelled(i);
          break;
        }
        written := written + [Written(i, filePath)];
        i := i + 1;
    }
    if status == Completed {
      StopIndexAt(filters, cancelAt, i);
    }
    r := SaveResult(panelFolder, folder, written, status);
  }

  // ---------------------------------------------------------------------
  // The folder test as the message states it
  // ---------------------------------------------------------------------

  /** The chosen folder is the project's `Assets` folder or lies inside it. */
  predicate InProjectFolder(savePath: String, dataPath: String) {
    savePath == dataPath || StartsWith(savePath, dataPath + "/")
  }

  /** The project-relative path of a folder inside the data path. */
  function ProjectAssetPath(savePath: String, dataPath: String): (r: String)
    requires InProjectFolder(savePath, dataPath)
    ensures r == "Assets" || StartsWith(r, "Assets/")
    ensures dataPath + r[|"Assets"|..] == savePath
  {
    "Assets" + savePath[|dataPath|..]
  }

  lemma StartsWithContains(s: String, prefix: String)
    requires StartsWith(s, prefix)
    ensures Contains(s, prefix)
  {
  }

  /** A single leading occurrence becomes "Assets"; the rest is kept. */
  lemma ReplaceLeadingOnly(dataPath: String, rest: String)
    requires |dataPath| > 0 && !Contains(rest, dataPath)
    ensures Replace(dataPath + rest, dataPath, "Assets") == "Assets" + rest
  {
    ReplaceAtStart(rest, dataPath, "Assets");
    ReplaceAbsent(rest, dataPath, "Assets");
  }

  /**
   * The prefix test accepts only folders the source accepts, and where the
   * data path does not occur again below it, both derive the same asset path.
   */
  lemma InProjectFolderAgrees(savePath: String, dataPath: String)
    requires InProjectFolder(savePath, dataPath)
    ensures Contains(savePath, dataPath)
    ensures |dataPath| > 0 && !Contains(savePath[|dataPath|..], dataPath) ==>
              Replace(savePath, dataPath, "Assets") == ProjectAssetPath(savePath, dataPath)
  {
    InProjectFolderStartsWith(savePath, dataPath);
    StartsWithContains(savePath, dataPath);
    if |dataPath| > 0 && !Contains(savePath[|dataPath|..], dataPath) {
      ReplaceLeadingOnly(dataPath, savePath[|dataPath|..]);
    }
  }

  lemma InProjectFolderStartsWith(savePath: String, dataPath: String)
    requires InProjectFolder(savePath, dataPath)
    ensures StartsWith(savePath, dataPath) && savePath == dataPath + savePath[|dataPath|..]
  {
    if savePath != dataPath {
      assert savePath[..|dataPath|] == (dataPath + "/")[..|dataPath|];
    }
  }

  /**
   * With data path "/p/Assets" the source accepts "/x/p/Assets", a folder
   * outside the project, and derives "/xAssets", which is no asset path.
   */
  lemma ContainsAcceptsOutsideFolder()
    ensures Contains("/x/p/Assets", "/p/Assets")
    ensures Replace("/x/p/Assets", "/p/Assets", "Assets") == "/xAssets"
    ensures !InProjectFolder("/x/p/Assets", "/p/Assets")
  {
    var s: String := "/x/p/Assets";
    assert s[2..] == "/p/Assets";
    assert StartsWith(s[2..], "/p/Assets");
    assert s[1..][1..] == s[2..];
    assert s[..9][1] != "/p/Assets"[1];
    assert !StartsWith(s[1..], "/p/Assets");
    ReplaceAtStart("", "/p/Assets", "Assets");
    assert Replace(s[2..], "/p/Assets", "Assets") == "Assets";
  }

  /** It also accepts the sibling folder "/p/Assets2" and derives "Assets2", outside "Assets". */
  lemma ContainsAcceptsSiblingFolder()
    ensures Contains("/p/Assets2", "/p/Assets")
    ensures Replace("/p/Assets2", "/p/Assets", "Assets") == "Assets2"
    ensures !InProjectFolder("/p/Assets2", "/p/Assets")
  {
    var s: String := "/p/Assets2";
    assert s == "/p/Assets" + "2";
    ReplaceAtStart("2", "/p/Assets", "Assets");
    ReplaceAbsent("2", "/p/Assets", "Assets");
    assert !StartsWith(s, "/p/Assets/");
  }
}
