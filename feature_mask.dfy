/**
 * The AC_FEATURE_* bit mask of the advanced configuration: the feature
 * bits, the set/clear/test operations, and the memory overhead each
 * feature adds to the estimate.
 */
module FeatureMask {

  // Feature bits (AC_FEATURE_*)
  const FeatureOta: bv32 := 1 << 0
  const FeatureUpdate: bv32 := 1 << 1
  const FeatureFilesystem: bv32 := 1 << 2
  const FeatureJson: bv32 := 1 << 3
  const FeatureCredentials: bv32 := 1 << 4
  const FeaturePortal: bv32 := 1 << 5
  const FeatureTicker: bv32 := 1 << 6
  const FeatureDebug: bv32 := 1 << 7

  const FeaturesDefault: bv32 := FeatureCredentials | FeaturePortal | FeatureJson
  const FeaturesMinimal: bv32 := FeatureCredentials | FeaturePortal
  const FeaturesFull: bv32 := 0xFF

  // Overheads counted by estimateMemoryUsage
  const FilesystemOverhead: nat := 2048
  const OtaOverhead: nat := 4096
  const PortalOverhead: nat := 8192

  /** hasFeature on a raw mask. */
  predicate MaskHas(mask: bv32, feature: bv32)
  {
    mask & feature != 0
  }

  /** `mask | feature`: the bits of `feature` set, every other bit as before. */
  function WithFeature(mask: bv32, feature: bv32): (r: bv32)
    ensures r & feature == feature
    ensures r & !feature == mask & !feature
    ensures feature != 0 ==> MaskHas(r, feature)
  {
    mask | feature
  }

  /** `mask & ~feature`: the bits of `feature` cleared, every other bit as before. */
  function WithoutFeature(mask: bv32, feature: bv32): (r: bv32)
    ensures r & feature == 0
    ensures r & !feature == mask & !feature
  {
    mask & !feature
  }

  /** The feature-dependent part of estimateMemoryUsage. */
  function FeatureOverhead(mask: bv32): (n: nat)
    ensures n <= FilesystemOverhead + OtaOverhead + PortalOverhead
    ensures n == 0 <==> !MaskHas(mask, FeatureFilesystem) && !MaskHas(mask, FeatureOta) && !MaskHas(mask, FeaturePortal)
  {
    (if MaskHas(mask, FeatureFilesystem) then FilesystemOverhead else 0)
    + (if MaskHas(mask, FeatureOta) then OtaOverhead else 0)
    + (if MaskHas(mask, FeaturePortal) then PortalOverhead else 0)
  }

  /** Turning more features on never lowers the estimate. */
  lemma FeatureOverheadMonotone(m1: bv32, m2: bv32)
    requires m1 & m2 == m1
    ensures FeatureOverhead(m1) <= FeatureOverhead(m2)
  {
    assert MaskHas(m1, FeatureFilesystem) ==> MaskHas(m2, FeatureFilesystem);
    assert MaskHas(m1, FeatureOta) ==> MaskHas(m2, FeatureOta);
    assert MaskHas(m1, FeaturePortal) ==> MaskHas(m2, FeaturePortal);
  }

  /** Enabling features never lowers the estimate. */
  lemma EnablingNeverLowersOverhead(mask: bv32, features: bv32)
    ensures FeatureOverhead(mask) <= FeatureOverhead(WithFeature(mask, features))
  {
    var up := WithFeature(mask, features);
    assert mask & up == mask;
    FeatureOverheadMonotone(mask, up);
  }

  /** Disabling features never raises the estimate. */
  lemma DisablingNeverRaisesOverhead(mask: bv32, features: bv32)
    ensures FeatureOverhead(WithoutFeature(mask, features)) <= FeatureOverhead(mask)
  {
    var down := WithoutFeature(mask, features);
    assert down & mask == down;
    FeatureOverheadMonotone(down, mask);
  }
}
