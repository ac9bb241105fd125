/** What the answers mean: for every tier contents and every behaviour of the calls,
    when an operation gives which answer, and what it has then done. */
module Answers {
  import opened KeyMapping
  import opened Tiers

  /** What ARCHIVE_ENABLED and ARCHIVE_ONLY_BUCKETS select. */
  predicate Selected(cfg: Config, bucket: string) {
    cfg.enabled && match cfg.scope case EveryBucket => true case Only(buckets) => bucket in buckets
  }

  predicate Stored(cfg: Config, w: World, loc: Loc, content: Bytes) {
    cfg.PlaceOf(loc) in w.archive && w.archive[cfg.PlaceOf(loc)] == content
  }

  predicate StoredSize(cfg: Config, w: World, loc: Loc, size: nat) {
    cfg.PlaceOf(loc) in w.archive && |w.archive[cfg.PlaceOf(loc)]| == size
  }

  // ----- Verification -----------------------------------------------------------------

  /** Each reason, exactly. */
  lemma VerifyAnswers(cfg: Config, w: World, loc: Loc, size: nat, call: Call)
    ensures var reason, heard := Verify(cfg, w, loc, size, call), cfg.enabled && call.ok;
            var there := cfg.PlaceOf(loc) in w.archive;
            && (reason == VerifyOK <==> heard && call.sized && StoredSize(cfg, w, loc, size))
            && (reason == VerifyNotArchived <==> heard && !there)
            && (reason == VerifySizeMismatch <==> heard && there && call.sized && !StoredSize(cfg, w, loc, size))
            && (reason == VerifyError <==> !heard || (there && !call.sized))
  {
  }

  // ----- Upload -------------------------------------------------------------------------

  /** An upload, whatever its calls do. */
  lemma UploadAnswers(cfg: Config, w: World, loc: Loc, content: Bytes, calls: nat -> Call)
    ensures var (res, w') := Solo(cfg, UploadLocal(loc, content), w, calls, 0);
            && (res.outcome == Failed <==> !calls(0).ok)
            && (res.outcome == Uploaded <==> calls(0).ok && (Selected(cfg, loc.bucket) ==> calls(1).ok))
            && (res.outcome == UploadedNotArchived <==> calls(0).ok && Selected(cfg, loc.bucket) && !calls(1).ok)
            && (calls(0).ok ==> res.size == |content|)
            && w'.local == (if calls(0).done.Whole? then w.local[loc := content] else w.local)
            && (calls(0).ok && Selected(cfg, loc.bucket) && calls(1).done.Whole? ==>
                  w'.archive == w.archive[cfg.PlaceOf(loc) := content] && w'.puts == w.puts + [cfg.PlaceOf(loc)])
            && (!calls(0).ok || !Selected(cfg, loc.bucket) || calls(1).done.Nothing? ==>
                  w'.archive == w.archive && w'.puts == w.puts)
  {
    var (p', w1) := Step(cfg, UploadLocal(loc, content), w, calls(0));
    if p'.Finished? {
      SoloLast(cfg, UploadLocal(loc, content), w, calls, 0);
    } else {
      assert Solo(cfg, UploadLocal(loc, content), w, calls, 0) == Solo(cfg, p', w1, calls, 1);
      SoloLast(cfg, p', w1, calls, 1);
    }
  }

  /** A fault-free upload ends in local storage and, when the bucket is selected, in
      the archive, each written exactly once. */
  lemma UploadArchives(cfg: Config, w: World, loc: Loc, content: Bytes)
    ensures var (res, w') := Solo(cfg, UploadLocal(loc, content), w, AllFine, 0);
            && res == TierResult(Uploaded, |content|) && w'.local == w.local[loc := content]
            && (if Selected(cfg, loc.bucket)
                then w'.archive == w.archive[cfg.PlaceOf(loc) := content] && w'.puts == w.puts + [cfg.PlaceOf(loc)]
                else w'.archive == w.archive && w'.puts == w.puts)
  {
    UploadAnswers(cfg, w, loc, content, AllFine);
  }

  // ----- Archive ---------------------------------------------------------------------------

  /** All four calls of a copy report well: the local copy is read, the write
      acknowledged, and the archive, asked again, has the size. */
  predicate CopyConfirmed(cfg: Config, w: World, loc: Loc, size: nat, calls: nat -> Call, i: nat, w': World) {
    calls(i).ok && loc in w.local && calls(i + 1).ok && Verify(cfg, w', loc, size, calls(i + 2)) == VerifyOK
  }

  /** The archive's word that lets a request go on: at once, or after a copy. */
  predicate Confirmed(cfg: Config, w: World, loc: Loc, size: nat, calls: nat -> Call, i: nat, w': World) {
    || Verify(cfg, w, loc, size, calls(i)) == VerifyOK
    || (Verify(cfg, w, loc, size, calls(i)) != VerifyError && CopyConfirmed(cfg, w, loc, size, calls, i + 1, w'))
  }

  /** Which call would be the removal. */
  function RemovalCall(cfg: Config, w: World, loc: Loc, size: nat, calls: nat -> Call, i: nat): nat {
    if Verify(cfg, w, loc, size, calls(i)) == VerifyOK then i + 1 else i + 4
  }

  predicate Succeeded(res: TierResult) { res.outcome == Archived || res.outcome == ArchivedKept }

  /** What a run of `ArchiveKnownObject` from `w` to `w'` that answers `res` means. */
  ghost predicate KnownAnswer(cfg: Config, loc: Loc, size: nat, evict: bool, w: World, calls: nat -> Call, i: nat,
                              res: TierResult, w': World) {
    var removal := calls(RemovalCall(cfg, w, loc, size, calls, i));
    var confirmed := Selected(cfg, loc.bucket) && Confirmed(cfg, w, loc, size, calls, i, w');
    && res.size == size
    && (res.outcome == Archived <==> confirmed && evict && removal.ok)
    && (res.outcome == ArchivedKept <==> confirmed && !evict)
    && (res.outcome == NotInScope <==> cfg.enabled && !Selected(cfg, loc.bucket))
    && (Succeeded(res) || res.outcome == NotInScope || res.outcome == Failed)
    && w'.local == (if confirmed && evict && !removal.done.Nothing? then w.local - {loc} else w.local)
    && (confirmed ==> StoredSize(cfg, w', loc, size))
    && (w'.archive != w.archive || w'.puts != w.puts ==>
          && Selected(cfg, loc.bucket) && calls(i + 1).ok && loc in w.local
          && Verify(cfg, w, loc, size, calls(i)) in {VerifyNotArchived, VerifySizeMismatch}
          && var copy := ArchivePut(cfg, w, loc, w.local[loc], calls(i + 2));
             w'.archive == copy.archive && w'.puts == copy.puts)
  }

  lemma EvictAnswers(cfg: Config, loc: Loc, size: nat, evict: bool, w: World, calls: nat -> Call, j: nat)
    ensures Solo(cfg, AfterVerified(loc, size, evict), w, calls, j) ==
              if !evict then (TierResult(ArchivedKept, size), w)
              else (TierResult(if calls(j).ok then Archived else Failed, size), LocalRemove(w, loc, calls(j)))
  {
    if evict {
      SoloLast(cfg, KnownEvict(loc, size), w, calls, j);
    }
  }

  /** From the first failed verification on. */
  lemma CopyAnswers(cfg: Config, loc: Loc, size: nat, evict: bool, w: World, calls: nat -> Call, i: nat)
    ensures var (res, w') := Solo(cfg, KnownOpen(loc, size, evict), w, calls, i);
            var confirmed := CopyConfirmed(cfg, w, loc, size, calls, i, w');
            && res.size == size
            && res.outcome == (if !confirmed then Failed
                               else if !evict then ArchivedKept
                               else if calls(i + 3).ok then Archived else Failed)
            && w'.local == (if confirmed && evict && !calls(i + 3).done.Nothing? then w.local - {loc} else w.local)
            && (if calls(i).ok && loc in w.local
                then var copy := ArchivePut(cfg, w, loc, w.local[loc], calls(i + 1));
                     w'.archive == copy.archive && w'.puts == copy.puts
                else w' == w)
  {
    if calls(i).ok && loc in w.local {
      var put := KnownPut(loc, size, evict, w.local[loc]);
      var w1 := ArchivePut(cfg, w, loc, w.local[loc], calls(i + 1));
      assert Solo(cfg, KnownOpen(loc, size, evict), w, calls, i) == Solo(cfg, put, w, calls, i + 1);
      if !calls(i + 1).ok {
        SoloLast(cfg, put, w, calls, i + 1);
      } else {
        var again := KnownReverify(loc, size, evict);
        assert Solo(cfg, put, w, calls, i + 1) == Solo(cfg, again, w1, calls, i + 2);
        ReverifyAnswers(cfg, loc, size, evict, w1, calls, i + 2);
      }
    } else {
      SoloLast(cfg, KnownOpen(loc, size, evict), w, calls, i);
    }
  }

  lemma ReverifyAnswers(cfg: Config, loc: Loc, size: nat, evict: bool, w: World, calls: nat -> Call, i: nat)
    ensures var (res, w') := Solo(cfg, KnownReverify(loc, size, evict), w, calls, i);
            var confirmed := Verify(cfg, w', loc, size, calls(i)) == VerifyOK;
            && res.size == size && w'.archive == w.archive && w'.puts == w.puts
            && res.outcome == (if !confirmed then Failed
                               else if !evict then ArchivedKept
                               else if calls(i + 1).ok then Archived else Failed)
            && w'.local == (if confirmed && evict && !calls(i + 1).done.Nothing? then w.local - {loc} else w.local)
  {
    var again := KnownReverify(loc, size, evict);
    if Verify(cfg, w, loc, size, calls(i)) == VerifyOK {
      assert Solo(cfg, again, w, calls, i) == Solo(cfg, AfterVerified(loc, size, evict), w, calls, i + 1);
      EvictAnswers(cfg, loc, size, evict, w, calls, i + 1);
    } else {
      SoloLast(cfg, again, w, calls, i);
    }
  }

  /** `ArchiveKnownObject`, whatever its calls do and report. */
  lemma ArchiveKnownAnswers(cfg: Config, loc: Loc, size: nat, evict: bool, w: World, calls: nat -> Call, i: nat)
    ensures var (res, w') := Solo(cfg, ArchiveKnownEntry(cfg, loc, size, evict), w, calls, i);
            KnownAnswer(cfg, loc, size, evict, w, calls, i, res, w')
  {
    if Selected(cfg, loc.bucket) {
      var start := KnownVerify(loc, size, evict);
      match Verify(cfg, w, loc, size, calls(i))
      case VerifyOK =>
        assert Solo(cfg, start, w, calls, i) == Solo(cfg, AfterVerified(loc, size, evict), w, calls, i + 1);
        EvictAnswers(cfg, loc, size, evict, w, calls, i + 1);
      case VerifyError =>
        SoloLast(cfg, start, w, calls, i);
      case VerifyNotArchived =>
        assert Solo(cfg, start, w, calls, i) == Solo(cfg, KnownOpen(loc, size, evict), w, calls, i + 1);
        CopyAnswers(cfg, loc, size, evict, w, calls, i + 1);
      case VerifySizeMismatch =>
        assert Solo(cfg, start, w, calls, i) == Solo(cfg, KnownOpen(loc, size, evict), w, calls, i + 1);
        CopyAnswers(cfg, loc, size, evict, w, calls, i + 1);
    }
  }

  /** A success answer is true: the archive holds the object at its size, it was
      asked to evict or not, and a local copy goes only with such an archive copy. */
  lemma SuccessIsTrue(cfg: Config, loc: Loc, size: nat, evict: bool, w: World, calls: nat -> Call, i: nat)
    ensures var (res, w') := Solo(cfg, ArchiveKnownEntry(cfg, loc, size, evict), w, calls, i);
            && (Succeeded(res) ==> StoredSize(cfg, w', loc, size))
            && (res.outcome == Archived ==> evict) && (res.outcome == ArchivedKept ==> !evict)
            && (loc in w.local && loc !in w'.local ==> evict && StoredSize(cfg, w', loc, size))
            && (Selected(cfg, loc.bucket) && !StoredSize(cfg, w', loc, size) ==> res.outcome == Failed)
  {
    ArchiveKnownAnswers(cfg, loc, size, evict, w, calls, i);
  }

  /** `ArchiveObject`: a local object is archived as one of known size; otherwise
      nothing changes and the answer is the archive's word. */
  lemma ArchiveObjectAnswers(cfg: Config, loc: Loc, evict: bool, w: World, calls: nat -> Call)
    ensures var (res, w') := Solo(cfg, ArchiveObjectEntry(cfg, loc, evict), w, calls, 0);
            if cfg.enabled && calls(0).ok && loc in w.local
            then KnownAnswer(cfg, loc, |w.local[loc]|, evict, w, calls, 1, res, w')
            else
              && w' == w && res.size == 0
              && (res.outcome == Failed <==> !cfg.enabled)
              && (res.outcome == AlreadyArchived <==>
                    cfg.enabled && calls(1).ok && calls(1).sized && cfg.PlaceOf(loc) in w.archive)
              && (res.outcome in {Failed, AlreadyArchived, NotFound})
  {
    if cfg.enabled {
      var start := ArchiveStatLocal(loc, evict);
      if calls(0).ok && loc in w.local {
        var size := |w.local[loc]|;
        assert Solo(cfg, start, w, calls, 0) == Solo(cfg, ArchiveKnownEntry(cfg, loc, size, evict), w, calls, 1);
        ArchiveKnownAnswers(cfg, loc, size, evict, w, calls, 1);
      } else {
        assert Solo(cfg, start, w, calls, 0) == Solo(cfg, ArchiveConfirm(loc), w, calls, 1);
        SoloLast(cfg, ArchiveConfirm(loc), w, calls, 1);
      }
    }
  }

  // ----- Restore -----------------------------------------------------------------------------

  /** `RestoreObject`, whatever its calls do. It never writes to the archive. */
  lemma RestoreAnswers(cfg: Config, loc: Loc, size: nat, w: World, calls: nat -> Call)
    ensures var (res, w') := Solo(cfg, RestoreEntry(cfg, loc, size), w, calls, 0);
            var there := cfg.PlaceOf(loc) in w.archive;
            var kept := cfg.enabled && calls(0).ok && loc in w.local && |w.local[loc]| == size;
            var found := cfg.enabled && !kept && calls(1).ok && there;
            && w'.archive == w.archive && w'.puts == w.puts
            && (res.outcome == AlreadyLocal <==> kept)
            && (res.outcome == NotFound <==> cfg.enabled && !kept && calls(1).ok && !there)
            && (res.outcome == Restored <==> found && calls(2).ok)
            && (res.outcome in {AlreadyLocal, NotFound, Restored, Failed})
            && (if found && calls(2).done.Whole?
                then w'.local == w.local[loc := if calls(1).sized then w.archive[cfg.PlaceOf(loc)] else []]
                else w'.local == w.local)
            && (res.outcome == Restored ==>
                  res.size == if calls(1).sized then |w.archive[cfg.PlaceOf(loc)]| else 0)
            && (res.outcome != Restored ==> res.size == size)
  {
    if cfg.enabled {
      if calls(0).ok && loc in w.local && |w.local[loc]| == size {
        SoloLast(cfg, RestoreStat(loc, size), w, calls, 0);
      } else {
        assert Solo(cfg, RestoreStat(loc, size), w, calls, 0) == Solo(cfg, RestoreOpen(loc, size), w, calls, 1);
        if calls(1).ok && cfg.PlaceOf(loc) in w.archive {
          var body := w.archive[cfg.PlaceOf(loc)];
          var put := RestorePut(loc, size, body, Reported(body, calls(1)));
          assert body[..|body|] == body && body[..0] == [];
          assert Solo(cfg, RestoreOpen(loc, size), w, calls, 1) == Solo(cfg, put, w, calls, 2);
          SoloLast(cfg, put, w, calls, 2);
        } else {
          SoloLast(cfg, RestoreOpen(loc, size), w, calls, 1);
        }
      }
    }
  }

  // ----- The sweep's worker -----------------------------------------------------------------------

  /** `process`, whatever its calls do: removed only when live and verified, and
      counted so only when the removal reported success. */
  lemma SweepAnswers(cfg: Config, loc: Loc, size: nat, dryRun: bool, w: World, calls: nat -> Call)
    ensures var (res, w') := Solo(cfg, SweepVerify(loc, size, dryRun), w, calls, 0);
            var verified := cfg.enabled && calls(0).ok && calls(0).sized && StoredSize(cfg, w, loc, size);
            && w'.archive == w.archive && w'.puts == w.puts && res.size == size
            && (res.outcome == WouldSweep <==> verified && dryRun)
            && (res.outcome == SweptAway <==> verified && !dryRun && calls(1).ok)
            && (res.outcome == Failed <==> verified && !dryRun && !calls(1).ok)
            && (!verified ==> res.outcome == SweepKept(Verify(cfg, w, loc, size, calls(0))))
            && w'.local == if verified && !dryRun && !calls(1).done.Nothing? then w.local - {loc} else w.local
  {
    VerifyAnswers(cfg, w, loc, size, calls(0));
    var start := SweepVerify(loc, size, dryRun);
    if Verify(cfg, w, loc, size, calls(0)) == VerifyOK && !dryRun {
      assert Solo(cfg, start, w, calls, 0) == Solo(cfg, SweepRemove(loc, size), w, calls, 1);
      SoloLast(cfg, SweepRemove(loc, size), w, calls, 1);
    } else {
      SoloLast(cfg, start, w, calls, 0);
    }
  }

  // ----- Read ---------------------------------------------------------------------------------------

  /** A read, whatever its calls do: the local copy if its stat finds one that is
      not empty, else the archive's, cut to the length its reply carries. */
  lemma ReadAnswers(cfg: Config, loc: Loc, w: World, calls: nat -> Call)
    ensures var (res, w') := Solo(cfg, ReadStat(loc), w, calls, 0);
            var local := calls(0).ok && loc in w.local && w.local[loc] != [];
            var fallsThrough := !local && cfg.enabled && calls(1).ok && cfg.PlaceOf(loc) in w.archive;
            && w' == w
            && (local && calls(1).ok ==> res == TierResult(Served(w.local[loc]), |w.local[loc]|))
            && (res.outcome == Interrupted <==> local && !calls(1).ok)
            && (fallsThrough && calls(1).sized ==>
                  res == TierResult(Served(w.archive[cfg.PlaceOf(loc)]), |w.archive[cfg.PlaceOf(loc)]|))
            && (fallsThrough && !calls(1).sized ==> res == TierResult(Served([]), 0))
            && (res.outcome == Unavailable <==> !local && !fallsThrough)
  {
    var (p', _) := Step(cfg, ReadStat(loc), w, calls(0));
    if p'.Finished? {
      SoloLast(cfg, ReadStat(loc), w, calls, 0);
    } else {
      assert Solo(cfg, ReadStat(loc), w, calls, 0) == Solo(cfg, p', w, calls, 1);
      SoloLast(cfg, p', w, calls, 1);
      if cfg.PlaceOf(loc) in w.archive {
        var body := w.archive[cfg.PlaceOf(loc)];
        assert body[..|body|] == body;
      }
    }
  }

  // ----- Scope ----------------------------------------------------------------------------------------

  /** In the archive, the entries of the bucket are as they were. */
  ghost predicate SameBucketArchive(cfg: Config, bucket: string, w: World, w': World) {
    forall key: string ::
      var q := cfg.PlaceOf(Loc(bucket, key));
      && (q in w'.archive <==> q in w.archive) && (q in w.archive ==> w'.archive[q] == w.archive[q])
      && multiset(w'.puts)[q] == multiset(w.puts)[q]
  }

  ghost predicate KeepsBucketLocal(bucket: string, w: World, w': World) {
    forall key: string :: Loc(bucket, key) in w.local ==> Loc(bucket, key) in w'.local
  }

  /** No actor of the bucket is at a point where it archives, evicts or sweeps. */
  predicate Outside(bucket: string, p: Proc) {
    p.Finished? ||
    ( && NoSlash(p.loc.bucket)
      && (p.loc.bucket == bucket ==>
            || p.UploadLocal? || p.ArchiveStatLocal? || p.ArchiveConfirm? || p.BackfillList?
            || p.RestoreList? || p.RestoreStat? || p.RestoreOpen? || p.RestorePut?
            || p.ReadStat? || p.ReadLocal? || p.ReadArchive?) )
  }

  /** A call touches no object but its actor's. */
  lemma StepTouchesItsObject(cfg: Config, p: Proc, w: World, call: Call)
    requires !p.Finished?
    ensures var w' := Step(cfg, p, w, call).1;
            && (forall l :: l in w.local && l != p.loc ==> l in w'.local && w'.local[l] == w.local[l])
            && (forall q :: q != cfg.PlaceOf(p.loc) ==>
                  (q in w'.archive <==> q in w.archive) && (q in w.archive ==> w'.archive[q] == w.archive[q]))
            && (w'.puts == w.puts || w'.puts == w.puts + [cfg.PlaceOf(p.loc)])
  {
  }

  lemma OtherBucketStep(cfg: Config, bucket: string, p: Proc, w: World, call: Call)
    requires NoSlash(bucket) && !p.Finished? && NoSlash(p.loc.bucket) && p.loc.bucket != bucket
    ensures SameBucketArchive(cfg, bucket, w, Step(cfg, p, w, call).1)
    ensures KeepsBucketLocal(bucket, w, Step(cfg, p, w, call).1)
  {
    StepTouchesItsObject(cfg, p, w, call);
    forall key: string ensures cfg.PlaceOf(Loc(bucket, key)) != cfg.PlaceOf(p.loc) {
      if cfg.PlaceOf(Loc(bucket, key)) == cfg.PlaceOf(p.loc) {
        ResolveInjective(cfg.archiveBucket, Loc(bucket, key), p.loc);
      }
    }
  }

  lemma OutsideStep(cfg: Config, bucket: string, p: Proc, w: World, call: Call)
    requires !Selected(cfg, bucket) && NoSlash(bucket) && Outside(bucket, p)
    ensures Outside(bucket, Step(cfg, p, w, call).0)
    ensures SameBucketArchive(cfg, bucket, w, Step(cfg, p, w, call).1)
    ensures KeepsBucketLocal(bucket, w, Step(cfg, p, w, call).1)
  {
    if !p.Finished? && p.loc.bucket != bucket {
      OtherBucketStep(cfg, bucket, p, w, call);
    }
  }

  /** A bucket that ARCHIVE_ONLY_BUCKETS does not name, or any bucket while the
      archive is disabled: over every run of every system, whatever fails, nothing of
      it is written to the archive and no local copy of it is removed. */
  lemma {:induction false} UnselectedIsUntouched(cfg: Config, bucket: string, s: System, ls: seq<Label>)
    requires NoSlash(bucket)
    requires !cfg.enabled || (cfg.scope.Only? && bucket !in cfg.scope.buckets)
    requires forall i :: 0 <= i < |s.procs| ==> Outside(bucket, s.procs[i])
    ensures SameBucketArchive(cfg, bucket, s.world, Run(cfg, s, ls).world)
    ensures KeepsBucketLocal(bucket, s.world, Run(cfg, s, ls).world)
    decreases |ls|
  {
    if ls != [] {
      var l := ls[0];
      var s' := Next(cfg, s, l);
      if l.Act? && l.i < |s.procs| {
        OutsideStep(cfg, bucket, s.procs[l.i], s.world, l.call);
      }
      assert forall i :: 0 <= i < |s'.procs| ==> Outside(bucket, s'.procs[i]);
      UnselectedIsUntouched(cfg, bucket, s', ls[1..]);
    }
  }

  /** A bucket that is named, or any bucket when none is: a fault-free archive
      request for a local object ends with it archived, and evicted when asked. */
  lemma SelectedIsArchived(cfg: Config, loc: Loc, evict: bool, w: World)
    requires cfg.enabled && (cfg.scope.EveryBucket? || loc.bucket in cfg.scope.buckets) && loc in w.local
    ensures var (res, w') := Solo(cfg, ArchiveObjectEntry(cfg, loc, evict), w, AllFine, 0);
            && res == TierResult(if evict then Archived else ArchivedKept, |w.local[loc]|)
            && StoredSize(cfg, w', loc, |w.local[loc]|)
            && (!StoredSize(cfg, w, loc, |w.local[loc]|) ==> Stored(cfg, w', loc, w.local[loc]))
            && w'.local == if evict then w.local - {loc} else w.local
  {
    var size := |w.local[loc]|;
    assert Solo(cfg, ArchiveStatLocal(loc, evict), w, AllFine, 0) ==
           Solo(cfg, ArchiveKnownEntry(cfg, loc, size, evict), w, AllFine, 1);
    ArchiveUndisturbed(cfg, w, loc, evict, 1);
  }
}
