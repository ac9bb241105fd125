/** From ARCHIVE_ONLY_BUCKETS to the buckets that are archived (service/archive.go). */
module Scoping {
  import opened Tiers
  import opened Strings

  /** `b` is one of the names in the comma-separated list. */
  ghost predicate Named(raw: string, b: string) {
    b != "" && exists i :: 0 <= i < |Split(raw, ',')| && TrimSpace(Split(raw, ',')[i]) == b
  }

  method ParseBucketScope(raw: string) returns (scope: Scope)
    ensures scope.EveryBucket? <==> forall b :: !Named(raw, b)
    ensures scope.Only? ==> forall b :: b in scope.buckets <==> Named(raw, b)
  {
    var parts := Split(raw, ',');
    var names: set<string> := {};
    for i := 0 to |parts|
      invariant forall b :: b in names <==> b != "" && exists j :: 0 <= j < i && TrimSpace(parts[j]) == b
    {
      var b := TrimSpace(parts[i]);
      if b != "" {
        names := names + {b};
      }
    }
    assert forall b :: b in names <==> Named(raw, b);
    if names == {} {
      return EveryBucket;
    }
    ghost var some :| some in names;
    assert Named(raw, some);
    return Only(names);
  }

  /** What an operator configures: with no name in the list every bucket is archived,
      otherwise exactly the named ones, and none while the archive is off. */
  method ConfiguredScope(enabled: bool, archiveBucket: string, raw: string) returns (cfg: Config)
    ensures forall b :: cfg.InScope(b) <==> enabled && (Named(raw, b) || forall other :: !Named(raw, other))
  {
    var scope := ParseBucketScope(raw);
    cfg := Config(enabled, archiveBucket, scope);
  }
}
