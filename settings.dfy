/**
 * The integer and scalar clamps the inspector applies to the combiner's
 * settings while they are edited. Each function takes the value as it stands
 * after the user's edit and returns the value written back.
 *
 * Unity's `float` fields are modelled as `real`: the code only compares them
 * with small integers and assigns those integers, which a float does exactly.
 */
module Settings {
  import opened Common

  // ---------------------------------------------------------------------
  // Single-field clamps
  // ---------------------------------------------------------------------

  /** Cell size: raised to at least 4 when edited. */
  function ClampCellSize(cellSize: int): (r: int)
    ensures r >= 4
    ensures cellSize >= 4 ==> r == cellSize
    ensures cellSize < 4 ==> r == 4
  {
    if cellSize < 4 then 4 else cellSize
  }

  /** `cellSize / 2` with C#'s integer division, which truncates toward zero. */
  function HalfCellSize(cellSize: int): (h: int)
    ensures cellSize >= 0 ==> 0 <= h && cellSize - 1 <= 2 * h <= cellSize
    ensures cellSize < 0 ==> h <= 0 && cellSize <= 2 * h <= cellSize + 1
  {
    if cellSize >= 0 then cellSize / 2 else -((-cellSize) / 2)
  }

  /** One axis of the cell offset: above half the cell size goes to it, below 0 to 0. */
  function ClampOffsetAxis(v: real, half: int): (r: real)
    ensures half >= 0 ==> 0.0 <= r <= half as real
    ensures half >= 0 && 0.0 <= v <= half as real ==> r == v
    ensures v > half as real ==> r == half as real
    ensures v < 0.0 && v <= half as real ==> r == 0.0
  {
    if v > half as real then half as real
    else if v < 0.0 then 0.0
    else v
  }

  /** A Unity `Vector3` of float components. */
  datatype Vec3 = Vec3(x: real, y: real, z: real)

  ghost predicate OffsetInCell(o: Vec3, half: int) {
    0.0 <= o.x <= half as real && 0.0 <= o.y <= half as real && 0.0 <= o.z <= half as real
  }

  function ClampCellOffset(o: Vec3, half: int): (r: Vec3)
    ensures half >= 0 ==> OffsetInCell(r, half)
    ensures half >= 0 && OffsetInCell(o, half) ==> r == o
    ensures r.x == ClampOffsetAxis(o.x, half) && r.y == ClampOffsetAxis(o.y, half) && r.z == ClampOffsetAxis(o.z, half)
  {
    Vec3(ClampOffsetAxis(o.x, half), ClampOffsetAxis(o.y, half), ClampOffsetAxis(o.z, half))
  }

  /** The two buttons beside the cell-offset field. */
  datatype OffsetButton = NoButton | HalfButton | ResetButton

  /**
   * The cell-offset field: clamped per axis when edited, then "H" sets every
   * axis to half the cell size and "R" sets it to zero.
   */
  function CellOffsetField(offset: Vec3, cellSize: int, changed: bool, button: OffsetButton): (r: Vec3)
    ensures cellSize >= 0 && (changed || button != NoButton) ==> OffsetInCell(r, HalfCellSize(cellSize))
    ensures button == HalfButton ==> r == Vec3(HalfCellSize(cellSize) as real, HalfCellSize(cellSize) as real, HalfCellSize(cellSize) as real)
    ensures button == ResetButton ==> r == Vec3(0.0, 0.0, 0.0)
    ensures button == NoButton && changed ==> r == ClampCellOffset(offset, HalfCellSize(cellSize))
    ensures button == NoButton && (!changed || (cellSize >= 0 && OffsetInCell(offset, HalfCellSize(cellSize)))) ==> r == offset
  {
    var half := HalfCellSize(cellSize);
    var clamped := if changed then ClampCellOffset(offset, half) else offset;
    match button
    case NoButton => clamped
    case HalfButton => Vec3(half as real, half as real, half as real)
    case ResetButton => Vec3(0.0, 0.0, 0.0)
  }

  /** For every cell size the inspector allows, "H" and "R" give offsets the clamp keeps. */
  lemma OffsetButtonsStayInCell(cellSize: int, o: Vec3, button: OffsetButton)
    requires cellSize >= 4 && button != NoButton
    ensures var r := CellOffsetField(o, cellSize, false, button);
            CellOffsetField(r, cellSize, true, NoButton) == r
  {
  }

  /**
   * Lower bound first, then upper bound: the shape of the meshes-per-frame and
   * thread-count clamps. With `lo > hi` a value below `lo` becomes `lo`, any other `hi`.
   */
  function ClampLowThenHigh(v: int, lo: int, hi: int): (r: int)
    ensures lo <= hi ==> lo <= r <= hi
    ensures lo <= v <= hi ==> r == v
    ensures v < lo ==> r == lo
    ensures v >= lo && v > hi ==> r == hi
  {
    if v < lo then lo else if v > hi then hi else v
  }

  /** Meshes combined per frame: kept in [1, 128]. */
  function ClampMeshesPerFrame(v: int): (r: int)
    ensures 1 <= r <= 128
    ensures 1 <= v <= 128 ==> r == v
    ensures v < 1 ==> r == 1
    ensures v > 128 ==> r == 128
  {
    ClampLowThenHigh(v, 1, 128)
  }

  /** Custom thread amount: raised to 1, then lowered to the core count. */
  function ClampCustomThreadAmount(v: int, cores: int): (r: int)
    ensures cores >= 1 ==> 1 <= r <= cores
    ensures 1 <= v <= cores ==> r == v
    ensures v < 1 ==> r == 1
    ensures v >= 1 && v > cores ==> r == cores
  {
    ClampLowThenHigh(v, 1, cores)
  }

  /** Vertex input and output limits: at least 1. */
  function ClampVertexLimit(v: int): (r: int)
    ensures r >= 1
    ensures v >= 1 ==> r == v
    ensures v < 1 ==> r == 1
  {
    if v < 1 then 1 else v
  }

  /** Max bounds factor (a float): at least 1 when edited. */
  function ClampMaxBoundsFactor(v: real): (r: real)
    ensures r >= 1.0
    ensures v >= 1.0 ==> r == v
    ensures v < 1.0 ==> r == 1.0
  {
    if v < 1.0 then 1.0 else v
  }

  /** Scale in lightmap (a float): not negative. */
  function ClampScaleInLightmap(v: real): (r: real)
    ensures r >= 0.0
    ensures v >= 0.0 ==> r == v
    ensures v < 0.0 ==> r == 0.0
  {
    if v < 0.0 then 0.0 else v
  }

  // ---------------------------------------------------------------------
  // Search conditions: vertex input limit and max bounds factor
  // ---------------------------------------------------------------------

  datatype SearchLimits = SearchLimits(useMaxBoundsFactor: bool, maxBoundsFactor: real, vertexInputLimit: int)

  /**
   * The vertex input limit is clamped on every draw; the max bounds factor
   * only in static-objects mode, when its toggle is on and its field changed.
   */
  function DrawSearchLimits(s: SearchLimits, staticObjectsMode: bool, boundsFieldChanged: bool): (r: SearchLimits)
    ensures r.useMaxBoundsFactor == s.useMaxBoundsFactor
    ensures r.vertexInputLimit >= 1 && (s.vertexInputLimit >= 1 ==> r.vertexInputLimit == s.vertexInputLimit)
    ensures staticObjectsMode && s.useMaxBoundsFactor && boundsFieldChanged ==> r.maxBoundsFactor >= 1.0
    ensures r.maxBoundsFactor != s.maxBoundsFactor ==> s.maxBoundsFactor < 1.0 && staticObjectsMode && s.useMaxBoundsFactor && boundsFieldChanged
    ensures r.vertexInputLimit == ClampVertexLimit(s.vertexInputLimit)
    ensures staticObjectsMode && s.useMaxBoundsFactor && boundsFieldChanged ==>
              r.maxBoundsFactor == ClampMaxBoundsFactor(s.maxBoundsFactor)
    ensures staticObjectsMode && s.useMaxBoundsFactor && boundsFieldChanged && s.maxBoundsFactor < 1.0 ==>
              r.maxBoundsFactor == 1.0
  {
    var factor := if staticObjectsMode && s.useMaxBoundsFactor && boundsFieldChanged
                  then ClampMaxBoundsFactor(s.maxBoundsFactor) else s.maxBoundsFactor;
    s.(maxBoundsFactor := factor, vertexInputLimit := ClampVertexLimit(s.vertexInputLimit))
  }

  // ---------------------------------------------------------------------
  // Job settings
  // ---------------------------------------------------------------------

  datatype CombineJobMode = CombineAtOnce | CombinePerFrame

  datatype JobSettings = JobSettings(
    combineJobMode: CombineJobMode,
    combineMeshesPerFrame: int,
    useMultiThreading: bool,
    customThreadAmountMode: bool,   // threadAmountMode == Custom
    customThreadAmount: int)

  /** What the job-settings panel leaves in place: the fixed points of `DrawJobSettings`. */
  ghost predicate JobSettingsValid(s: JobSettings, cores: int, webGLRuntime: bool) {
    (s.combineJobMode == CombinePerFrame ==> 1 <= s.combineMeshesPerFrame <= 128) &&
    (webGLRuntime ==> !s.useMultiThreading) &&
    (s.useMultiThreading && s.customThreadAmountMode ==> 1 <= s.customThreadAmount <= cores)
  }

  /**
   * The job-settings panel: meshes per frame clamped in per-frame mode,
   * multi-threading switched off for a WebGL runtime build, the custom
   * thread amount clamped to [1, cores] when it is in use.
   */
  function DrawJobSettings(s: JobSettings, cores: int, webGLRuntime: bool): (r: JobSettings)
    ensures r.combineJobMode == s.combineJobMode && r.customThreadAmountMode == s.customThreadAmountMode
    ensures r.combineJobMode == CombinePerFrame ==> 1 <= r.combineMeshesPerFrame <= 128
    ensures r.combineJobMode == CombineAtOnce ==> r.combineMeshesPerFrame == s.combineMeshesPerFrame
    ensures r.combineJobMode == CombinePerFrame ==> r.combineMeshesPerFrame == ClampMeshesPerFrame(s.combineMeshesPerFrame)
    ensures r.useMultiThreading && r.customThreadAmountMode ==>
              r.customThreadAmount == ClampCustomThreadAmount(s.customThreadAmount, cores)
    ensures r.useMultiThreading == (s.useMultiThreading && !webGLRuntime)
    ensures cores >= 1 && r.useMultiThreading && r.customThreadAmountMode ==> 1 <= r.customThreadAmount <= cores
    ensures !(r.useMultiThreading && r.customThreadAmountMode) ==> r.customThreadAmount == s.customThreadAmount
    ensures cores >= 1 ==> JobSettingsValid(r, cores, webGLRuntime)
    ensures JobSettingsValid(s, cores, webGLRuntime) ==> r == s
  {
    var perFrame := if s.combineJobMode == CombinePerFrame
                    then ClampMeshesPerFrame(s.combineMeshesPerFrame) else s.combineMeshesPerFrame;
    var multi := s.useMultiThreading && !webGLRuntime;
    var threads := if multi && s.customThreadAmountMode
                   then ClampCustomThreadAmount(s.customThreadAmount, cores) else s.customThreadAmount;
    s.(combineMeshesPerFrame := perFrame, useMultiThreading := multi, customThreadAmount := threads)
  }

  /** Drawing the job panel twice changes nothing the first draw did not. */
  lemma DrawJobSettingsIdempotent(s: JobSettings, cores: int, webGLRuntime: bool)
    requires cores >= 1
    ensures DrawJobSettings(DrawJobSettings(s, cores, webGLRuntime), cores, webGLRuntime)
            == DrawJobSettings(s, cores, webGLRuntime)
  {
  }

  // ---------------------------------------------------------------------
  // Output settings: baked-lighting toggles
  // ---------------------------------------------------------------------

  datatype LightingSettings = LightingSettings(
    copyBakedLighting: bool,
    validCopyBakedLighting: bool,
    rebakeLighting: bool,
    scaleInLightmap: real)

  /**
   * The lighting part of the output panel. The copy toggle is drawn when
   * baked GI is on and realtime GI off (`bakedOnly`); the rebake toggle when
   * not combining in runtime and not playing (`editorOnly`). `copyEdit` and
   * `rebakeEdit` are what the user clicked on the toggles, if anything.
   */
  function DrawLighting(s: LightingSettings, bakedOnly: bool, editorOnly: bool,
                        copyEdit: Option<bool>, rebakeEdit: Option<bool>): (r: LightingSettings)
    ensures bakedOnly || editorOnly ==> !(r.copyBakedLighting && r.rebakeLighting)
    ensures !bakedOnly && !editorOnly ==> r == s
    ensures bakedOnly && !editorOnly ==> r.validCopyBakedLighting == r.copyBakedLighting
    ensures editorOnly && r.rebakeLighting ==> r.scaleInLightmap >= 0.0
    ensures editorOnly && rebakeEdit.Some? ==> r.rebakeLighting == rebakeEdit.value
    ensures bakedOnly && copyEdit.Some? && !r.rebakeLighting ==> r.copyBakedLighting == copyEdit.value
    ensures var copy := if bakedOnly && copyEdit.Some? then copyEdit.value else s.copyBakedLighting;
            r.rebakeLighting == (if editorOnly && rebakeEdit.Some? then rebakeEdit.value
                                 else s.rebakeLighting && !(bakedOnly && copy))
    ensures var copy := if bakedOnly && copyEdit.Some? then copyEdit.value else s.copyBakedLighting;
            r.copyBakedLighting == (copy && !(editorOnly && r.rebakeLighting))
    ensures var copy := if bakedOnly && copyEdit.Some? then copyEdit.value else s.copyBakedLighting;
            r.validCopyBakedLighting == (if bakedOnly then copy else s.validCopyBakedLighting)
    ensures r.scaleInLightmap == (if editorOnly && r.rebakeLighting then ClampScaleInLightmap(s.scaleInLightmap)
                                  else s.scaleInLightmap)
  {
    var s1 := if bakedOnly then
                var copy := match copyEdit case Some(v) => v case None => s.copyBakedLighting;
                s.(copyBakedLighting := copy,
                   rebakeLighting := if copy then false else s.rebakeLighting,
                   validCopyBakedLighting := copy)
              else s;
    if editorOnly then
      var rebake := match rebakeEdit case Some(v) => v case None => s1.rebakeLighting;
      s1.(rebakeLighting := rebake,
          copyBakedLighting := if rebake then false else s1.copyBakedLighting,
          scaleInLightmap := if rebake then ClampScaleInLightmap(s1.scaleInLightmap) else s1.scaleInLightmap)
    else s1
  }

  /**
   * Redrawing without a click leaves the toggles as the previous draw left
   * them, except that `validCopyBakedLighting` catches up with
   * `copyBakedLighting` one draw late when the rebake click cleared the copy.
   */
  lemma DrawLightingStable(s: LightingSettings, bakedOnly: bool, editorOnly: bool,
                           copyEdit: Option<bool>, rebakeEdit: Option<bool>)
    ensures var r := DrawLighting(s, bakedOnly, editorOnly, copyEdit, rebakeEdit);
            DrawLighting(r, bakedOnly, editorOnly, None, None)
            == r.(validCopyBakedLighting := if bakedOnly then r.copyBakedLighting else r.validCopyBakedLighting)
  {
  }
}
