/** The sequential code of service/tiering.go and of the upload and read paths of
    handler/image.go, each method proved to be its actor run alone. */
module Tiering {
  import opened Options
  import opened KeyMapping
  import opened Tiers

  /** MinIO, as far as the tiering code uses it. */
  class ObjectStore {
    var objects: map<Loc, Bytes>

    constructor ()
      ensures objects == map[]
    {
      objects := map[];
    }

    method StatObject(loc: Loc, call: Call) returns (size: Option<nat>)
      ensures size == if call.ok && loc in objects then Some(|objects[loc]|) else None
    {
      if call.ok && loc in objects {
        size := Some(|objects[loc]|);
      } else {
        size := None;
      }
    }

    method OpenObject(loc: Loc, call: Call) returns (body: Option<Bytes>)
      ensures body == if call.ok && loc in objects then Some(objects[loc]) else None
    {
      if call.ok && loc in objects {
        body := Some(objects[loc]);
      } else {
        body := None;
      }
    }

    method PutObject(loc: Loc, body: Bytes, size: nat, call: Call) returns (ok: bool)
      modifies this
      ensures ok == call.ok
      ensures objects == if call.done.Whole? then old(objects)[loc := body[..Min(size, |body|)]] else old(objects)
    {
      if call.done.Whole? {
        objects := objects[loc := body[..Min(size, |body|)]];
      }
      ok := call.ok;
    }

    method RemoveObject(loc: Loc, call: Call) returns (ok: bool)
      modifies this
      ensures ok == call.ok
      ensures objects == if call.done.Nothing? then old(objects) else old(objects) - {loc}
    {
      if !call.done.Nothing? {
        objects := objects - {loc};
      }
      ok := call.ok;
    }
  }

  datatype OpenAnswer = Opened(body: Bytes, length: nat) | OpenAbsent | OpenFailed

  /** The archive of service/archive.go over the S3 objects it addresses. */
  class Archive {
    const cfg: Config
    var objects: map<Place, Bytes>
    var puts: seq<Place>

    constructor (cfg: Config)
      ensures this.cfg == cfg && objects == map[] && puts == []
    {
      this.cfg := cfg;
      objects := map[];
      puts := [];
    }

    method Stat(loc: Loc, call: Call) returns (answer: StatAnswer)
      ensures forall local :: answer == ArchiveStat(cfg, World(local, objects, puts), loc, call)
    {
      if !cfg.enabled || !call.ok {
        return Unreachable;
      }
      var place := Resolve(cfg.archiveBucket, loc);
      if place !in objects {
        return Absent;
      }
      if !call.sized {
        return Unreachable;
      }
      return Size(|objects[place]|);
    }

    method Open(loc: Loc, call: Call) returns (answer: OpenAnswer)
      ensures answer == if !cfg.enabled || !call.ok then OpenFailed
                        else if cfg.PlaceOf(loc) !in objects then OpenAbsent
                        else Opened(objects[cfg.PlaceOf(loc)], Reported(objects[cfg.PlaceOf(loc)], call))
    {
      if !cfg.enabled || !call.ok {
        return OpenFailed;
      }
      var place := Resolve(cfg.archiveBucket, loc);
      if place !in objects {
        return OpenAbsent;
      }
      var length := 0;
      if call.sized {
        length := |objects[place]|;
      }
      return Opened(objects[place], length);
    }

    /** False when the archive is off, the bucket is out of scope, or the write failed. */
    method Put(loc: Loc, body: Bytes, call: Call) returns (ok: bool)
      modifies this
      ensures ok <==> cfg.enabled && (cfg.scope.EveryBucket? || loc.bucket in cfg.scope.buckets) && call.ok
      ensures forall local :: World(local, objects, puts) ==
                if cfg.enabled &&
                  (cfg.scope.EveryBucket? ||
                    loc.bucket in cfg.scope.buckets) then ArchivePut(cfg, World(local, old(objects), old(puts)), loc,
                      body, call)
                else World(local, old(objects), old(puts))
    {
      if !cfg.enabled || !cfg.InScope(loc.bucket) {
        return false;
      }
      var place := Resolve(cfg.archiveBucket, loc);
      match call.done {
        case Whole =>
          objects := objects[place := body];
          puts := puts + [place];
        case Nothing =>
        case Part(n) =>
          objects := objects[place := body[..Min(n, |body|)]];
          puts := puts + [place];
      }
      ok := call.ok;
    }
  }

  /** The copy between the two verifications. */
  lemma SoloCopy(cfg: Config, loc: Loc, size: nat, evict: bool, w: World, calls: nat -> Call, i: nat)
    ensures Solo(cfg, KnownOpen(loc, size, evict), w, calls, i) ==
              if !(calls(i).ok && loc in w.local) then (TierResult(Failed, size), w)
              else
                var w' := ArchivePut(cfg, w, loc, w.local[loc], calls(i + 1));
                if !calls(i + 1).ok then (TierResult(Failed, size), w')
                else Solo(cfg, KnownReverify(loc, size, evict), w', calls, i + 2)
  {
    if calls(i).ok && loc in w.local {
      var put := KnownPut(loc, size, evict, w.local[loc]);
      assert Solo(cfg, KnownOpen(loc, size, evict), w, calls, i) == Solo(cfg, put, w, calls, i + 1);
      if !calls(i + 1).ok {
        SoloLast(cfg, put, w, calls, i + 1);
      }
    } else {
      SoloLast(cfg, KnownOpen(loc, size, evict), w, calls, i);
    }
  }

  class Service {
    const store: ObjectStore
    const archive: Archive

    constructor (store: ObjectStore, archive: Archive)
      ensures this.store == store && this.archive == archive
    {
      this.store := store;
      this.archive := archive;
    }

    function Cfg(): Config { archive.cfg }

    function State(): World
      reads store, archive
    {
      World(store.objects, archive.objects, archive.puts)
    }

    method VerifyArchived(loc: Loc, localSize: nat, call: Call) returns (verified: bool, reason: VerifyReason)
      ensures reason == Verify(Cfg(), State(), loc, localSize, call)
      ensures verified <==> reason == VerifyOK
      ensures reason == VerifyNotArchived <==> Cfg().enabled && call.ok && Cfg().PlaceOf(loc) !in archive.objects
      ensures reason == VerifyError <==>
                !Cfg().enabled || !call.ok || (Cfg().PlaceOf(loc) in archive.objects && !call.sized)
      ensures verified ==> Cfg().PlaceOf(loc) in archive.objects && |archive.objects[Cfg().PlaceOf(loc)]| == localSize
    {
      var answer := archive.Stat(loc, call);
      assert answer == ArchiveStat(Cfg(), State(), loc, call);
      match answer {
        case Absent => return false, VerifyNotArchived;
        case Unreachable => return false, VerifyError;
        case Size(archivedSize) =>
          if archivedSize != localSize {
            return false, VerifySizeMismatch;
          }
          return true, VerifyOK;
      }
    }

    method CopyToArchive(loc: Loc, open: Call, put: Call) returns (ok: bool, readable: bool)
      modifies archive
      ensures readable == (open.ok && loc in store.objects)
      ensures ok == (readable && Cfg().InScope(loc.bucket) && put.ok)
      ensures State() ==
                if readable && Cfg().InScope(loc.bucket)
                then ArchivePut(Cfg(), old(State()), loc, store.objects[loc], put)
                else old(State())
    {
      var body := store.OpenObject(loc, open);
      if body.None? {
        return false, false;
      }
      ok := archive.Put(loc, body.value, put);
      readable := true;
    }

    method ArchiveKnownObject(loc: Loc, localSize: nat, evict: bool, calls: nat -> Call, i: nat)
      returns (res: TierResult)
      modifies store, archive
      ensures (res, State()) == Solo(Cfg(), ArchiveKnownEntry(Cfg(), loc, localSize, evict), old(State()), calls, i)
    {
      if !Cfg().enabled {
        return TierResult(Failed, localSize);
      }
      if !Cfg().InScope(loc.bucket) {
        return TierResult(NotInScope, localSize);
      }
      ghost var w := State();
      ghost var start := KnownVerify(loc, localSize, evict);

      var verified, reason := VerifyArchived(loc, localSize, calls(i));
      if reason == VerifyError {
        return TierResult(Failed, localSize);
      }
      var next := i + 1;
      if !verified {
        assert Solo(Cfg(), start, w, calls, i) == Solo(Cfg(), KnownOpen(loc, localSize, evict), w, calls, next);
        SoloCopy(Cfg(), loc, localSize, evict, w, calls, next);
        var copied, readable := CopyToArchive(loc, calls(next), calls(next + 1));
        if !copied {
          return TierResult(Failed, localSize);
        }
        next := next + 2;
        verified, reason := VerifyArchived(loc, localSize, calls(next));
        assert Solo(Cfg(), start, w, calls, i) ==
               Solo(Cfg(), KnownReverify(loc, localSize, evict), State(), calls, next);
        if !verified {
          SoloLast(Cfg(), KnownReverify(loc, localSize, evict), State(), calls, next);
        }
        if reason == VerifyError {
          return TierResult(Failed, localSize);
        }
        if !verified {
          return TierResult(Failed, localSize);
        }
        next := next + 1;
      }
      assert Solo(Cfg(), start, w, calls, i) == Solo(Cfg(), AfterVerified(loc, localSize, evict), State(), calls, next);

      if !evict {
        return TierResult(ArchivedKept, localSize);
      }
      SoloLast(Cfg(), KnownEvict(loc, localSize), State(), calls, next);
      var removed := store.RemoveObject(loc, calls(next));
      if !removed {
        return TierResult(Failed, localSize);
      }
      return TierResult(Archived, localSize);
    }

    method ArchiveObject(loc: Loc, evict: bool, calls: nat -> Call) returns (res: TierResult)
      modifies store, archive
      ensures (res, State()) == Solo(Cfg(), ArchiveObjectEntry(Cfg(), loc, evict), old(State()), calls, 0)
    {
      if !Cfg().enabled {
        return TierResult(Failed, 0);
      }
      ghost var w := State();
      var size := store.StatObject(loc, calls(0));
      if size.None? {
        assert Solo(Cfg(), ArchiveStatLocal(loc, evict), w, calls, 0) == Solo(Cfg(), ArchiveConfirm(loc), w, calls, 1);
        var answer := archive.Stat(loc, calls(1));
        assert answer == ArchiveStat(Cfg(), w, loc, calls(1));
        SoloLast(Cfg(), ArchiveConfirm(loc), w, calls, 1);
        if answer.Size? {
          return TierResult(AlreadyArchived, 0);
        }
        return TierResult(NotFound, 0);
      }
      res := ArchiveKnownObject(loc, size.value, evict, calls, 1);
    }

    method RestoreObject(loc: Loc, archivedSize: nat, calls: nat -> Call) returns (res: TierResult)
      modifies store
      ensures (res, State()) == Solo(Cfg(), RestoreEntry(Cfg(), loc, archivedSize), old(State()), calls, 0)
    {
      if !Cfg().enabled {
        return TierResult(Failed, archivedSize);
      }
      ghost var w := State();
      var size := store.StatObject(loc, calls(0));
      if size.Some? && size.value == archivedSize {
        return TierResult(AlreadyLocal, archivedSize);
      }
      assert Solo(Cfg(), RestoreStat(loc, archivedSize), w, calls, 0) ==
             Solo(Cfg(), RestoreOpen(loc, archivedSize), w, calls, 1);
      var answer := archive.Open(loc, calls(1));
      match answer {
        case OpenAbsent =>
          SoloLast(Cfg(), RestoreOpen(loc, archivedSize), w, calls, 1);
          return TierResult(NotFound, archivedSize);
        case OpenFailed =>
          SoloLast(Cfg(), RestoreOpen(loc, archivedSize), w, calls, 1);
          return TierResult(Failed, archivedSize);
        case Opened(body, length) =>
          assert Solo(Cfg(), RestoreOpen(loc, archivedSize), w, calls, 1) ==
                 Solo(Cfg(), RestorePut(loc, archivedSize, body, length), w, calls, 2);
          SoloLast(Cfg(), RestorePut(loc, archivedSize, body, length), w, calls, 2);
          var stored := store.PutObject(loc, body, length, calls(2));
          if !stored {
            return TierResult(Failed, archivedSize);
          }
          return TierResult(Restored, length);
      }
    }

    /** The storage part of an upload: MinIO first, then the rewound reader into
        the archive. A failed archive write does not fail the upload. */
    method Upload(loc: Loc, content: Bytes, calls: nat -> Call) returns (res: TierResult)
      modifies store, archive
      ensures (res, State()) == Solo(Cfg(), UploadLocal(loc, content), old(State()), calls, 0)
    {
      ghost var w := State();
      var stored := store.PutObject(loc, content, |content|, calls(0));
      assert content[..Min(|content|, |content|)] == content;
      if !stored {
        return TierResult(Failed, 0);
      }
      if !Cfg().InScope(loc.bucket) {
        return TierResult(Uploaded, |content|);
      }
      assert Solo(Cfg(), UploadLocal(loc, content), w, calls, 0) ==
             Solo(Cfg(), UploadArchive(loc, content), State(), calls, 1);
      SoloLast(Cfg(), UploadArchive(loc, content), State(), calls, 1);
      var archived := archive.Put(loc, content, calls(1));
      return TierResult(if archived then Uploaded else UploadedNotArchived, |content|);
    }

    /** `openObject`, and the stream it hands to the response. */
    method Read(loc: Loc, calls: nat -> Call) returns (res: TierResult)
      ensures (res, State()) == Solo(Cfg(), ReadStat(loc), State(), calls, 0)
    {
      var size := store.StatObject(loc, calls(0));
      if size.Some? && size.value > 0 {
        assert Solo(Cfg(), ReadStat(loc), State(), calls, 0) == Solo(Cfg(), ReadLocal(loc), State(), calls, 1);
        SoloLast(Cfg(), ReadLocal(loc), State(), calls, 1);
        var body := store.OpenObject(loc, calls(1));
        if body.None? {
          return TierResult(Interrupted, 0);
        }
        return TierResult(Served(body.value), |body.value|);
      }
      if !Cfg().enabled {
        return TierResult(Unavailable, 0);
      }
      assert Solo(Cfg(), ReadStat(loc), State(), calls, 0) == Solo(Cfg(), ReadArchive(loc), State(), calls, 1);
      SoloLast(Cfg(), ReadArchive(loc), State(), calls, 1);
      var answer := archive.Open(loc, calls(1));
      match answer {
        case Opened(body, length) => return TierResult(Served(body[..length]), length);
        case _ => return TierResult(Unavailable, 0);
      }
    }
  }
}
