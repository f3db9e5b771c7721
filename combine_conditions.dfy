/**
 * The static-editor-flags override of the combine conditions. Mesh Combine
 * Studio replaces Unity's static batching, so the `BatchingStatic` bit is
 * cleared whenever it appears in the override.
 */
module CombineConditions {

  /** `SerializedProperty.intValue`: a 32-bit two's-complement int, as bits. */
  type Flags = bv32

  /** `StaticEditorFlags.BatchingStatic`. */
  const BatchingStatic: Flags := 4

  /**
   * The guarded clear of the combine conditions. The guard changes nothing:
   * the result is the flags masked with `~BatchingStatic` either way.
   */
  function ClearBatchingStatic(flags: Flags): (r: Flags)
    ensures r == flags & !BatchingStatic
    ensures r & BatchingStatic == 0
    ensures flags & BatchingStatic == 0 ==> r == flags
  {
    if flags & BatchingStatic != 0 then flags & !BatchingStatic else flags
  }

  /** Apart from `BatchingStatic` itself, the result equals the flags. */
  lemma ClearBatchingStaticOnlyThatBit(flags: Flags)
    ensures ClearBatchingStatic(flags) | BatchingStatic == flags | BatchingStatic
  {
  }

  /**
   * Seen through any mask, the result holds the flags' bits under that mask
   * minus `BatchingStatic`: every other bit survives.
   */
  lemma ClearBatchingStaticKeepsOtherBits(flags: Flags, mask: Flags)
    ensures ClearBatchingStatic(flags) & mask == flags & (mask & !BatchingStatic)
  {
  }

  lemma ClearBatchingStaticIdempotent(flags: Flags)
    ensures ClearBatchingStatic(ClearBatchingStatic(flags)) == ClearBatchingStatic(flags)
  {
  }
}
