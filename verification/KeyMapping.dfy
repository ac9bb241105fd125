/** The mapping between a local object and its place in the archive, and the
    listing that inverts it (service/archive.go). */
module KeyMapping {

  newtype byte = x: int | 0 <= x < 256

  type Bytes = seq<byte>

  /** Where the application looks for an object. */
  datatype Loc = Loc(bucket: string, key: string)

  /** Where S3 stores its archived copy. */
  datatype Place = Place(s3Bucket: string, s3Key: string)

  /** One entry of a listing: a key and the size stored under it. */
  datatype Item = Item(key: string, size: nat)

  predicate NoSlash(bucket: string) { '/' !in bucket }

  /** `archiveBucket` is ARCHIVE_BUCKET: empty selects one S3 bucket per local
      bucket, anything else a single S3 bucket with a "<bucket>/" key prefix. */
  function Resolve(archiveBucket: string, loc: Loc): Place {
    if archiveBucket != "" then Place(archiveBucket, loc.bucket + "/" + loc.key)
    else Place(loc.bucket, loc.key)
  }

  /** The two layouts: the same bucket and key, or everything in the archive bucket
      under "<bucket>/". */
  lemma Layouts(archiveBucket: string, bucket: string, key: string)
    ensures archiveBucket == "" ==> Resolve(archiveBucket, Loc(bucket, key)) == Place(bucket, key)
    ensures archiveBucket != "" ==>
              var place, n := Resolve(archiveBucket, Loc(bucket, key)), |bucket|;
              && place.s3Bucket == archiveBucket && |place.s3Key| == n + 1 + |key|
              && place.s3Key[..n] == bucket && place.s3Key[n] == '/' && place.s3Key[n + 1..] == key
  {
  }

  /** What `Walk` asks S3 to list for a bucket: the prefix of every key it stores. */
  function WalkPrefix(archiveBucket: string, bucket: string): string {
    Resolve(archiveBucket, Loc(bucket, "")).s3Key
  }

  function TrimPrefix(s: string, prefix: string): string {
    if prefix <= s then s[|prefix|..] else s
  }

  /** The first slash of `b + "/" + rest` ends `b` when `b` has none. */
  lemma SlashSplits(b1: string, rest1: string, b2: string, rest2: string)
    requires NoSlash(b1) && NoSlash(b2)
    requires b1 + "/" + rest1 == b2 + "/" + rest2
    ensures b1 == b2 && rest1 == rest2
  {
    var s1, s2 := b1 + "/" + rest1, b2 + "/" + rest2;
    assert s1[|b1|] == '/' && s2[|b2|] == '/';
    assert b1 == s1[..|b1|] && b2 == s2[..|b2|];
    assert |b1| == |b2|;
    assert rest1 == s1[|b1| + 1..] && rest2 == s2[|b2| + 1..];
  }

  /** Two objects never share an archived copy, in either layout. */
  lemma ResolveInjective(archiveBucket: string, l1: Loc, l2: Loc)
    requires NoSlash(l1.bucket) && NoSlash(l2.bucket)
    requires Resolve(archiveBucket, l1) == Resolve(archiveBucket, l2)
    ensures l1 == l2
  {
    if archiveBucket != "" {
      SlashSplits(l1.bucket, l1.key, l2.bucket, l2.key);
    }
  }

  ghost predicate SomeKeysCollide(archiveBucket: string, b1: string, b2: string) {
    exists k1, k2 :: Resolve(archiveBucket, Loc(b1, k1)) == Resolve(archiveBucket, Loc(b2, k2))
  }

  /** Exactly which bucket names would make the mapping ambiguous: under a single
      archive bucket, those whose "<bucket>/" prefixes extend one another. */
  lemma CollisionCondition(archiveBucket: string, b1: string, b2: string)
    ensures SomeKeysCollide(archiveBucket, b1, b2) <==>
              if archiveBucket == "" then b1 == b2 else b1 + "/" <= b2 + "/" || b2 + "/" <= b1 + "/"
  {
    var p1, p2 := b1 + "/", b2 + "/";
    if archiveBucket == "" {
      if b1 == b2 {
        assert Resolve(archiveBucket, Loc(b1, "")) == Resolve(archiveBucket, Loc(b2, ""));
      }
    } else {
      if p1 <= p2 {
        assert p1 + p2[|p1|..] == p2 + "";
        assert Resolve(archiveBucket, Loc(b1, p2[|p1|..])) == Resolve(archiveBucket, Loc(b2, ""));
      }
      if p2 <= p1 {
        assert p2 + p1[|p2|..] == p1 + "";
        assert Resolve(archiveBucket, Loc(b1, "")) == Resolve(archiveBucket, Loc(b2, p1[|p2|..]));
      }
      if SomeKeysCollide(archiveBucket, b1, b2) {
        var k1, k2 :| Resolve(archiveBucket, Loc(b1, k1)) == Resolve(archiveBucket, Loc(b2, k2));
        var s := p1 + k1;
        assert s == p2 + k2;
        assert p1 == s[..|p1|] && p2 == s[..|p2|];
      }
    }
  }

  // ----- Walk ---------------------------------------------------------------

  /** `listing` is what S3 answers for `prefix`: every stored key that starts
      with it, once, with its size. */
  ghost predicate IsListing(objects: map<Place, Bytes>, s3Bucket: string, prefix: string, listing: seq<Item>) {
    && (forall i :: 0 <= i < |listing| ==>
          && prefix <= listing[i].key
          && Place(s3Bucket, listing[i].key) in objects
          && listing[i].size == |objects[Place(s3Bucket, listing[i].key)]|)
    && (forall k: string :: prefix <= k && Place(s3Bucket, k) in objects ==>
          exists i :: 0 <= i < |listing| && listing[i].key == k)
    && (forall i, j :: 0 <= i < j < |listing| ==> listing[i].key != listing[j].key)
  }

  /** What the callback of `Walk` sees: prefix removed, directory markers dropped. */
  function Walked(listing: seq<Item>, prefix: string): seq<Item> {
    if listing == [] then []
    else
      var init := Walked(listing[..|listing| - 1], prefix);
      var last := listing[|listing| - 1];
      var key := TrimPrefix(last.key, prefix);
      if key == "" then init else init + [Item(key, last.size)]
  }

  datatype WalkResult = WalkDone | WalkRefused | WalkFailed | WalkDisabled

  /** `listing` is what the pages delivered, all of them unless `broken`; the
      callback takes `room` items and refuses the next. */
  method Walk(enabled: bool, archiveBucket: string, bucket: string, listing: seq<Item>, broken: bool, room: nat)
    returns (seen: seq<Item>, result: WalkResult)
    ensures !enabled ==> seen == [] && result == WalkDisabled
    ensures var all := Walked(listing, WalkPrefix(archiveBucket, bucket));
            enabled ==>
              && seen == (if room < |all| then all[..room] else all)
              && result == if room < |all| then WalkRefused else if broken then WalkFailed else WalkDone
  {
    if !enabled {
      return [], WalkDisabled;
    }
    var prefix := Resolve(archiveBucket, Loc(bucket, "")).s3Key;
    seen := [];
    for i := 0 to |listing|
      invariant seen == Walked(listing[..i], prefix) && |seen| <= room
    {
      var key := TrimPrefix(listing[i].key, prefix);
      assert listing[..i + 1][..i] == listing[..i];
      if key != "" {
        if |seen| == room {
          WalkedGrows(listing, i + 1, prefix);
          return seen, WalkRefused;
        }
        seen := seen + [Item(key, listing[i].size)];
      }
    }
    assert listing[..|listing|] == listing;
    result := if broken then WalkFailed else WalkDone;
  }

  lemma {:induction false} WalkedGrows(listing: seq<Item>, i: nat, prefix: string)
    requires i <= |listing|
    ensures Walked(listing[..i], prefix) <= Walked(listing, prefix)
    decreases |listing|
  {
    if i == |listing| {
      assert listing[..i] == listing;
    } else {
      var init := listing[..|listing| - 1];
      assert init[..i] == listing[..i];
      WalkedGrows(init, i, prefix);
    }
  }

  predicate DistinctItems(items: seq<Item>) {
    forall i, j :: 0 <= i < j < |items| ==> items[i].key != items[j].key
  }

  lemma PrefixCancels(prefix: string, a: string, b: string)
    ensures prefix + a == prefix + b ==> a == b
  {
    assert (prefix + a)[|prefix|..] == a && (prefix + b)[|prefix|..] == b;
  }

  /** `items` are the non-empty keys of `listing`, without the prefix. */
  ghost predicate AreItemsOf(items: seq<Item>, listing: seq<Item>, prefix: string) {
    forall it: Item :: it in items <==> it.key != "" && Item(prefix + it.key, it.size) in listing
  }

  lemma OneMoreItem(listing: seq<Item>, prefix: string, items: seq<Item>, items': seq<Item>)
    requires listing != [] && prefix <= listing[|listing| - 1].key
    requires AreItemsOf(items, listing[..|listing| - 1], prefix)
    requires var last := listing[|listing| - 1];
             var key := TrimPrefix(last.key, prefix);
             items' == if key == "" then items else items + [Item(key, last.size)]
    ensures AreItemsOf(items', listing, prefix)
  {
    var init, last := listing[..|listing| - 1], listing[|listing| - 1];
    var key := TrimPrefix(last.key, prefix);
    assert last.key == prefix + key && listing == init + [last];
    forall it: Item ensures it in items' <==> it.key != "" && Item(prefix + it.key, it.size) in listing {
      PrefixCancels(prefix, it.key, key);
    }
  }

  lemma {:induction false} WalkedMembers(listing: seq<Item>, prefix: string)
    requires forall i :: 0 <= i < |listing| ==> prefix <= listing[i].key
    ensures AreItemsOf(Walked(listing, prefix), listing, prefix)
  {
    if listing != [] {
      WalkedMembers(listing[..|listing| - 1], prefix);
      OneMoreItem(listing, prefix, Walked(listing[..|listing| - 1], prefix), Walked(listing, prefix));
    }
  }

  lemma NewKey(init: seq<Item>, last: Item, prefix: string, items: seq<Item>)
    requires prefix <= last.key && AreItemsOf(items, init, prefix)
    requires forall i :: 0 <= i < |init| ==> init[i].key != last.key
    ensures forall i :: 0 <= i < |items| ==> items[i].key != TrimPrefix(last.key, prefix)
  {
    var key := TrimPrefix(last.key, prefix);
    assert last.key == prefix + key;
    forall i | 0 <= i < |items| ensures items[i].key != key {
      var it := items[i];
      assert it in items && Item(prefix + it.key, it.size) in init;
    }
  }

  lemma {:induction false} WalkedItems(listing: seq<Item>, prefix: string)
    requires forall i :: 0 <= i < |listing| ==> prefix <= listing[i].key
    requires DistinctItems(listing)
    ensures AreItemsOf(Walked(listing, prefix), listing, prefix)
    ensures DistinctItems(Walked(listing, prefix))
  {
    WalkedMembers(listing, prefix);
    if listing != [] {
      var n := |listing| - 1;
      WalkedItems(listing[..n], prefix);
      NewKey(listing[..n], listing[n], prefix, Walked(listing[..n], prefix));
    }
  }

  lemma ListedIffStored(objects: map<Place, Bytes>, s3Bucket: string, prefix: string, listing: seq<Item>, it: Item)
    requires IsListing(objects, s3Bucket, prefix, listing) && prefix <= it.key
    ensures it in listing <==> Place(s3Bucket, it.key) in objects && it.size == |objects[Place(s3Bucket, it.key)]|
  {
    if Place(s3Bucket, it.key) in objects {
      var i :| 0 <= i < |listing| && listing[i].key == it.key;
      assert listing[i] in listing;
    }
  }

  /** `Walk` is the exact inverse of `Resolve`: it yields key `k` with size `n`,
      once, if and only if the archive stores `n` bytes where (bucket, k) resolves. */
  lemma WalkInvertsResolve(archiveBucket: string, bucket: string, objects: map<Place, Bytes>, listing: seq<Item>)
    requires IsListing(objects, Resolve(archiveBucket, Loc(bucket, "")).s3Bucket,
                       WalkPrefix(archiveBucket, bucket), listing)
    ensures forall it: Item ::
              it in Walked(listing, WalkPrefix(archiveBucket, bucket)) <==>
                && it.key != ""
                && Resolve(archiveBucket, Loc(bucket, it.key)) in objects
                && it.size == |objects[Resolve(archiveBucket, Loc(bucket, it.key))]|
    ensures DistinctItems(Walked(listing, WalkPrefix(archiveBucket, bucket)))
  {
    var prefix := WalkPrefix(archiveBucket, bucket);
    var s3Bucket := Resolve(archiveBucket, Loc(bucket, "")).s3Bucket;
    WalkedItems(listing, prefix);
    forall it: Item
      ensures it in Walked(listing, prefix) <==>
                && it.key != ""
                && Resolve(archiveBucket, Loc(bucket, it.key)) in objects
                && it.size == |objects[Resolve(archiveBucket, Loc(bucket, it.key))]|
    {
      assert Resolve(archiveBucket, Loc(bucket, it.key)) == Place(s3Bucket, prefix + it.key);
      ListedIffStored(objects, s3Bucket, prefix, listing, Item(prefix + it.key, it.size));
    }
  }

  /** No other bucket's object is listed, even when one name extends the other. */
  lemma WalkStaysInBucket(archiveBucket: string, bucket: string, objects: map<Place, Bytes>, listing: seq<Item>,
                          other: Loc)
    requires IsListing(objects, Resolve(archiveBucket, Loc(bucket, "")).s3Bucket,
                       WalkPrefix(archiveBucket, bucket), listing)
    requires NoSlash(bucket) && NoSlash(other.bucket) && other.bucket != bucket
    ensures forall it: Item :: it in listing ==>
              Place(Resolve(archiveBucket, Loc(bucket, "")).s3Bucket, it.key) != Resolve(archiveBucket, other)
  {
    forall it: Item | it in listing
      ensures Place(Resolve(archiveBucket, Loc(bucket, "")).s3Bucket, it.key) != Resolve(archiveBucket, other)
    {
      var i :| 0 <= i < |listing| && listing[i] == it;
      var prefix := WalkPrefix(archiveBucket, bucket);
      var key := it.key[|prefix|..];
      assert it.key == prefix + key;
      if Resolve(archiveBucket, Loc(bucket, key)) == Resolve(archiveBucket, other) {
        ResolveInjective(archiveBucket, Loc(bucket, key), other);
      }
    }
  }
}
