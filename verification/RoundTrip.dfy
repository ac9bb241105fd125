/** Archiving a whole bucket and restoring it is the identity, whatever the
    schedules of the two pools that do it. */
module RoundTrip {
  import opened KeyMapping
  import opened Tiers
  import opened Schedules
  import opened BatchArchive
  import opened RestoreCommand

  predicate IsArchived(cfg: Config, w: World, bucket: string, it: Item) {
    var place := cfg.PlaceOf(Loc(bucket, it.key));
    place in w.archive && it.size == |w.archive[place]|
  }

  // ----- Archive, then restore ------------------------------------------------------

  function Keys(items: seq<Item>): (keys: set<string>)
    ensures forall k :: k in keys <==> exists it :: it in items && it.key == k
  {
    set it | it in items :: it.key
  }

  /** What `Walk` finds after the eviction is exactly the evicted keys. */
  lemma ItemsAreKeys(cfg: Config, w: World, bucket: string, keys: set<string>, evicted: World, items: seq<Item>)
    requires NoSlash(bucket) && "" !in keys && AllLocal(w, bucket, keys)
    requires forall k: string :: cfg.PlaceOf(Loc(bucket, k)) !in w.archive
    requires ArchivedFrom(cfg, w, bucket, keys, evicted)
    requires forall it: Item :: it in items <==> it.key != "" && IsArchived(cfg, evicted, bucket, it)
    ensures Keys(items) == keys
  {
    forall k ensures k in keys <==> k in Keys(items) {
      var place := cfg.PlaceOf(Loc(bucket, k));
      if k in keys {
        assert ArchivedSince(cfg, w, Loc(bucket, k), evicted);
        assert IsArchived(cfg, evicted, bucket, Item(k, |evicted.archive[place]|));
        assert Item(k, |evicted.archive[place]|) in items;
      } else if place in evicted.archive {
        assert !SamePlace(w, evicted, place);
        var k' :| k' in keys && place == cfg.PlaceOf(Loc(bucket, k'));
        ResolveInjective(cfg.archiveBucket, Loc(bucket, k), Loc(bucket, k'));
      }
    }
  }

  lemma RestoredLocalIsOriginal(cfg: Config, w: World, bucket: string, keys: set<string>, evicted: World,
                                local: map<Loc, Bytes>)
    requires forall l :: Among(l, bucket, keys) ==> l in w.local
    requires forall l: Loc :: Among(l, bucket, keys) ==> cfg.PlaceOf(l) !in w.archive
    requires AllLocal(w, bucket, keys) && ArchivedFrom(cfg, w, bucket, keys, evicted)
    requires evicted.local == Remaining(w.local, bucket, keys, true)
    requires InArchive(cfg, evicted, bucket, keys) && RestoredTier(cfg, evicted, bucket, keys, local)
    ensures local == w.local
  {
    forall l: Loc ensures (l in local <==> l in w.local) && (l in local ==> local[l] == w.local[l]) {
      if Among(l, bucket, keys) {
        assert l == Loc(bucket, l.key);
        assert ArchivedSince(cfg, w, l, evicted) && !Verified(cfg, w, l);
      } else {
        assert SameLocal(evicted.local, local, l);
      }
    }
  }

  /** Under both layouts and for all schedules of both pools: archive every object
      of an in-scope bucket the archive holds nothing for, then restore what `Walk`
      finds. The local tier is back to what it was, in that bucket and in every
      other, and the archive still holds all it held before. */
  lemma ArchiveThenRestoreIsIdentity(cfg: Config, w: World, bucket: string, keys: set<string>,
                                     out: seq<Label>, listing: seq<Item>, back: seq<Label>)
    requires cfg.InScope(bucket) && NoSlash(bucket) && "" !in keys
    requires forall l :: l in w.local && l.bucket == bucket <==> l.bucket == bucket && l.key in keys
    requires forall k: string :: cfg.PlaceOf(Loc(bucket, k)) !in w.archive
    requires OnlyArchive(true, out) && Covers(bucket, keys, out) && Complete(cfg, Fresh(w), out)
    requires var evicted := Run(cfg, Fresh(w), out).world;
             && IsListing(evicted.archive, Resolve(cfg.archiveBucket, Loc(bucket, "")).s3Bucket,
                          WalkPrefix(cfg.archiveBucket, bucket), listing)
             && RestoresAll(cfg, evicted, bucket, Keys(Walked(listing, WalkPrefix(cfg.archiveBucket, bucket))), back)
    ensures var evicted := Run(cfg, Fresh(w), out).world;
            var restored := Run(cfg, Fresh(evicted), back).world;
            && (forall l :: l in evicted.local <==> l in w.local && l.bucket != bucket)
            && restored.local == w.local
            && (forall q :: q in w.archive ==> q in restored.archive && restored.archive[q] == w.archive[q])
  {
    forall k | k in keys ensures Loc(bucket, k) in w.local {
      assert Loc(bucket, k).key in keys;
    }
    BatchArchives(cfg, w, bucket, keys, true, out);
    assert Present(w, bucket, keys) == keys;
    var evicted := Run(cfg, Fresh(w), out).world;
    var items := Walked(listing, WalkPrefix(cfg.archiveBucket, bucket));
    WalkInvertsResolve(cfg.archiveBucket, bucket, evicted.archive, listing);
    forall it: Item ensures it in items <==> it.key != "" && IsArchived(cfg, evicted, bucket, it) {}
    ItemsAreKeys(cfg, w, bucket, keys, evicted, items);
    forall l: Loc | Among(l, bucket, keys) ensures cfg.PlaceOf(l) in evicted.archive && cfg.PlaceOf(l) !in w.archive {
      assert l == Loc(bucket, l.key);
      assert ArchivedSince(cfg, w, l, evicted);
    }
    WholeRestore(cfg, evicted, bucket, keys, back);
    RestoredLocalIsOriginal(cfg, w, bucket, keys, evicted, Run(cfg, Fresh(evicted), back).world.local);
    forall q | q in w.archive ensures SamePlace(w, evicted, q) {
      assert !PlaceOfSome(cfg, bucket, keys, q);
    }
  }
}
