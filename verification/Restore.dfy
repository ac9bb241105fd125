/** The `restore` command, over every schedule of its workers, and run again after
    an interruption. */
module RestoreCommand {
  import opened KeyMapping
  import opened Tiers
  import opened Schedules
  import opened Commands
  import opened Sums

  /** `ls` starts only restore workers. */
  predicate OnlyRestore(ls: seq<Label>) { forall l :: l in ls && l.Spawn? ==> l.p.RestoreList? }

  predicate Among(l: Loc, bucket: string, keys: set<string>) { l.bucket == bucket && l.key in keys }

  /** The archive holds every key, as it does what `Walk` yields. */
  ghost predicate InArchive(cfg: Config, w: World, bucket: string, keys: set<string>) {
    forall l: Loc :: Among(l, bucket, keys) ==> cfg.PlaceOf(l) in w.archive
  }

  predicate EqualSized(cfg: Config, w: World, l: Loc)
    requires cfg.PlaceOf(l) in w.archive
  {
    l in w.local && |w.local[l]| == |w.archive[cfg.PlaceOf(l)]|
  }

  /** What restoring makes of an object: an equal-sized copy is kept, anything else
      becomes the archived bytes. */
  function RestoredCopy(cfg: Config, w: World, l: Loc): Bytes
    requires cfg.PlaceOf(l) in w.archive
  {
    if EqualSized(cfg, w, l) then w.local[l] else w.archive[cfg.PlaceOf(l)]
  }

  /** `local` is the local tier of `w` with every key restored. */
  ghost predicate RestoredTier(cfg: Config, w: World, bucket: string, keys: set<string>, local: map<Loc, Bytes>)
    requires InArchive(cfg, w, bucket, keys)
  {
    && (forall l: Loc :: Among(l, bucket, keys) ==> l in local && local[l] == RestoredCopy(cfg, w, l))
    && (forall l: Loc :: !Among(l, bucket, keys) ==> SameLocal(w.local, local, l))
  }

  predicate SameLocal(local: map<Loc, Bytes>, local': map<Loc, Bytes>, l: Loc) {
    (l in local' <==> l in local) && (l in local ==> local'[l] == local[l])
  }

  lemma OneRestoredTier(cfg: Config, w: World, bucket: string, keys: set<string>,
                        a: map<Loc, Bytes>, b: map<Loc, Bytes>)
    requires InArchive(cfg, w, bucket, keys)
    requires RestoredTier(cfg, w, bucket, keys, a) && RestoredTier(cfg, w, bucket, keys, b)
    ensures a == b
  {
    forall l: Loc ensures (l in a <==> l in b) && (l in a ==> a[l] == b[l]) {
      if !Among(l, bucket, keys) {
        assert SameLocal(w.local, a, l) && SameLocal(w.local, b, l);
      }
    }
  }

  // ----- Calls that do not fail, workers that may be killed -------------------------------

  /** Some stage of restoring `keys`. */
  ghost predicate Restoring(cfg: Config, w0: World, bucket: string, keys: set<string>, w: World)
    requires InArchive(cfg, w0, bucket, keys)
  {
    && w.archive == w0.archive
    && (forall l: Loc :: !Among(l, bucket, keys) ==> SameLocal(w0.local, w.local, l))
    && (forall l: Loc :: Among(l, bucket, keys) ==>
          SameLocal(w0.local, w.local, l) || (l in w.local && w.local[l] == RestoredCopy(cfg, w0, l)))
  }

  predicate RestorePoint(cfg: Config, w0: World, w: World, p: Proc, loc: Loc)
    requires cfg.PlaceOf(loc) in w0.archive
  {
    var body := w0.archive[cfg.PlaceOf(loc)];
    match p
    case RestoreList(l) => l == loc
    case RestoreStat(l, n) => l == loc && n == |body|
    case RestoreOpen(l, n) => l == loc && n == |body| && !EqualSized(cfg, w0, loc)
    case RestorePut(l, n, content, length) =>
      l == loc && n == |body| && content == body && length == |body| && !EqualSized(cfg, w0, loc)
    case Finished(res) =>
      || res.outcome == Crashed
      || ( && loc in w.local && w.local[loc] == RestoredCopy(cfg, w0, loc)
           && (res == TierResult(AlreadyLocal, |body|) ||
                (res == TierResult(Restored, |body|) && !EqualSized(cfg, w0, loc))) )
    case _ => false
  }

  /** Actor i works on `locs[i]`. */
  ghost predicate RestoreState(cfg: Config, w0: World, bucket: string, keys: set<string>, s: System, locs: seq<Loc>)
    requires InArchive(cfg, w0, bucket, keys)
  {
    && |locs| == |s.procs| && Restoring(cfg, w0, bucket, keys, s.world)
    && forall i :: 0 <= i < |locs| ==>
         Among(locs[i], bucket, keys) && RestorePoint(cfg, w0, s.world, s.procs[i], locs[i])
  }

  lemma RestoreStep(cfg: Config, w0: World, bucket: string, keys: set<string>, w: World, p: Proc, loc: Loc)
    requires cfg.enabled && InArchive(cfg, w0, bucket, keys) && Among(loc, bucket, keys)
    requires Restoring(cfg, w0, bucket, keys, w) && RestorePoint(cfg, w0, w, p, loc)
    ensures var (p', w') := Step(cfg, p, w, Fine);
            && Restoring(cfg, w0, bucket, keys, w') && RestorePoint(cfg, w0, w', p', loc)
            && (p'.Finished? && p'.res.outcome == Crashed ==> p == p')
  {
    var body := w0.archive[cfg.PlaceOf(loc)];
    assert body[..Min(|body|, |body|)] == body;
  }

  /** A restored object stays restored. */
  lemma OthersStayRestored(cfg: Config, w0: World, bucket: string, keys: set<string>, w: World, p: Proc, loc: Loc,
                           q: Proc, other: Loc)
    requires cfg.enabled && InArchive(cfg, w0, bucket, keys) && Among(loc, bucket, keys) && Among(other, bucket, keys)
    requires Restoring(cfg, w0, bucket, keys, w)
    requires RestorePoint(cfg, w0, w, p, loc) && RestorePoint(cfg, w0, w, q, other)
    ensures RestorePoint(cfg, w0, Step(cfg, p, w, Fine).1, q, other)
  {
    var body := w0.archive[cfg.PlaceOf(loc)];
    assert body[..Min(|body|, |body|)] == body;
  }

  lemma RestoreAct(cfg: Config, w0: World, bucket: string, keys: set<string>, s: System, locs: seq<Loc>, i: nat)
    requires cfg.enabled && InArchive(cfg, w0, bucket, keys)
    requires RestoreState(cfg, w0, bucket, keys, s, locs) && i < |locs|
    ensures RestoreState(cfg, w0, bucket, keys, Next(cfg, s, Act(i, Fine)), locs)
  {
    var s' := Next(cfg, s, Act(i, Fine));
    RestoreStep(cfg, w0, bucket, keys, s.world, s.procs[i], locs[i]);
    forall j | 0 <= j < |locs| && j != i ensures RestorePoint(cfg, w0, s'.world, s.procs[j], locs[j]) {
      OthersStayRestored(cfg, w0, bucket, keys, s.world, s.procs[i], locs[i], s.procs[j], locs[j]);
    }
  }

  lemma RestoreSpawn(cfg: Config, w0: World, bucket: string, keys: set<string>, s: System, locs: seq<Loc>, p: Proc)
    requires cfg.enabled && NoSlash(bucket) && InArchive(cfg, w0, bucket, keys)
    requires RestoreState(cfg, w0, bucket, keys, s, locs) && p.RestoreList? && Among(p.loc, bucket, keys)
    ensures RestoreState(cfg, w0, bucket, keys, Next(cfg, s, Spawn(p)), locs + [p.loc])
  {
    assert Next(cfg, s, Spawn(p)).procs == s.procs + [p];
  }

  lemma RestoreNext(cfg: Config, w0: World, bucket: string, keys: set<string>, s: System, locs: seq<Loc>, l: Label)
    requires cfg.enabled && NoSlash(bucket) && InArchive(cfg, w0, bucket, keys)
    requires RestoreState(cfg, w0, bucket, keys, s, locs)
    requires l.Spawn? ==> l.p.RestoreList? && Among(l.p.loc, bucket, keys)
    requires l.Act? ==> l.call == Fine
    ensures RestoreState(cfg, w0, bucket, keys, Next(cfg, s, l), Extended(locs, l))
  {
    if l.Spawn? {
      RestoreSpawn(cfg, w0, bucket, keys, s, locs, l.p);
    } else if l.Act? && l.i < |s.procs| {
      RestoreAct(cfg, w0, bucket, keys, s, locs, l.i);
    }
  }

  lemma {:induction false} RestoreStages(cfg: Config, w0: World, bucket: string, keys: set<string>, s: System,
                                         locs: seq<Loc>, ls: seq<Label>)
    requires cfg.enabled && NoSlash(bucket) && InArchive(cfg, w0, bucket, keys)
    requires RestoreState(cfg, w0, bucket, keys, s, locs)
    requires OnlyRestore(ls) && FaultFree(ls) && forall l :: l in Started(ls) ==> Among(l, bucket, keys)
    ensures RestoreState(cfg, w0, bucket, keys, Run(cfg, s, ls), locs + Started(ls))
    decreases |ls|
  {
    if ls == [] {
      assert locs + Started(ls) == locs;
    } else {
      var l := ls[0];
      assert l in ls && (l.Spawn? ==> l.p.loc in Started(ls));
      StartedStep(locs, ls);
      RestoreNext(cfg, w0, bucket, keys, s, locs, l);
      RestoreStages(cfg, w0, bucket, keys, Next(cfg, s, l), Extended(locs, l), ls[1..]);
    }
  }

  predicate NoneKilled(s: System) {
    forall i :: 0 <= i < |s.procs| ==> !(s.procs[i].Finished? && s.procs[i].res.outcome == Crashed)
  }

  lemma NobodyDiesAlone(cfg: Config, p: Proc, w: World, call: Call)
    requires !(p.Finished? && p.res.outcome == Crashed)
    ensures var p' := Step(cfg, p, w, call).0;
            !(p'.Finished? && p'.res.outcome == Crashed)
  {
  }

  lemma {:induction false} UnkilledStays(cfg: Config, s: System, ls: seq<Label>)
    requires NoneKilled(s) && OnlyRestore(ls) && Unkilled(ls)
    ensures NoneKilled(Run(cfg, s, ls))
    decreases |ls|
  {
    if ls != [] {
      assert ls[0] in ls;
      if ls[0].Act? && ls[0].i < |s.procs| {
        NobodyDiesAlone(cfg, s.procs[ls[0].i], s.world, ls[0].call);
      }
      UnkilledStays(cfg, Next(cfg, s, ls[0]), ls[1..]);
    }
  }

  // ----- A whole run ------------------------------------------------------------------------

  /** Every key is given a worker, no call fails, and every worker gets to its end. */
  ghost predicate RestoresAll(cfg: Config, w: World, bucket: string, keys: set<string>, ls: seq<Label>) {
    OnlyRestore(ls) && Covers(bucket, keys, ls) && Complete(cfg, Fresh(w), ls)
  }

  /** The command over any schedule, whatever is local already: afterwards every
      equal-sized copy is as it was and counted as already local, every other key
      has exactly its archived bytes, and nothing else has changed. */
  lemma WholeRestore(cfg: Config, w0: World, bucket: string, keys: set<string>, ls: seq<Label>)
    requires cfg.enabled && NoSlash(bucket) && InArchive(cfg, w0, bucket, keys)
    requires RestoresAll(cfg, w0, bucket, keys, ls)
    ensures var s, locs := Run(cfg, Fresh(w0), ls), Started(ls);
            && s.world.archive == w0.archive && RestoredTier(cfg, w0, bucket, keys, s.world.local)
            && |s.procs| == |locs|
            && forall i :: 0 <= i < |locs| ==>
                 && Among(locs[i], bucket, keys)
                 && var size := |w0.archive[cfg.PlaceOf(locs[i])]|;
                    || s.procs[i] == Finish(AlreadyLocal, size)
                    || (s.procs[i] == Finish(Restored, size) && !EqualSized(cfg, w0, locs[i]))
  {
    var locs := Started(ls);
    forall l | l in locs ensures Among(l, bucket, keys) {
      assert l == Loc(bucket, l.key);
    }
    assert [] + locs == locs;
    RestoreStages(cfg, w0, bucket, keys, Fresh(w0), [], ls);
    UnkilledStays(cfg, Fresh(w0), ls);
    var s := Run(cfg, Fresh(w0), ls);
    forall l: Loc | Among(l, bucket, keys) ensures l in s.world.local && s.world.local[l] == RestoredCopy(cfg, w0, l) {
      assert l == Loc(bucket, l.key);
      var i :| 0 <= i < |locs| && locs[i] == l;
      assert s.procs[i].Finished?;
    }
    forall i | 0 <= i < |locs| ensures s.procs[i].Finished? && RestorePoint(cfg, w0, s.world, s.procs[i], locs[i]) {}
  }

  // ----- What a run reports -----------------------------------------------------------------

  /** With one worker per key, as the walk yields each key once, nobody else touches
      a worker's object before it is done. */
  ghost predicate Exclusive(cfg: Config, w0: World, s: System, locs: seq<Loc>) {
    && |locs| == |s.procs| && Distinct(locs)
    && (forall l: Loc :: l !in locs ==> SameLocal(w0.local, s.world.local, l))
    && (forall i :: 0 <= i < |locs| ==>
          && cfg.PlaceOf(locs[i]) in w0.archive
          && (!s.procs[i].Finished? ==> SameLocal(w0.local, s.world.local, locs[i]))
          && (s.procs[i].Finished? && s.procs[i].res.outcome == AlreadyLocal ==> EqualSized(cfg, w0, locs[i])))
  }

  lemma ExclusiveAct(cfg: Config, w0: World, bucket: string, keys: set<string>, s: System, locs: seq<Loc>, i: nat)
    requires cfg.enabled && InArchive(cfg, w0, bucket, keys) && i < |locs|
    requires RestoreState(cfg, w0, bucket, keys, s, locs) && Exclusive(cfg, w0, s, locs)
    ensures Exclusive(cfg, w0, Next(cfg, s, Act(i, Fine)), locs)
  {
    var p, loc := s.procs[i], locs[i];
    var (p', w') := Step(cfg, p, s.world, Fine);
    assert RestorePoint(cfg, w0, s.world, p, loc);
    assert forall l: Loc :: l != loc ==> SameLocal(s.world.local, w'.local, l);
    assert !p'.Finished? ==> w' == s.world;
    assert !p.Finished? && p'.Finished? && p'.res.outcome == AlreadyLocal ==> EqualSized(cfg, w0, loc);
    forall l: Loc | l !in locs ensures SameLocal(w0.local, w'.local, l) {
      assert SameLocal(w0.local, s.world.local, l) && SameLocal(s.world.local, w'.local, l);
    }
  }

  lemma ExclusiveSpawn(cfg: Config, w0: World, s: System, locs: seq<Loc>, p: Proc)
    requires Exclusive(cfg, w0, s, locs) && p.RestoreList? && Entry(cfg, p)
    requires cfg.PlaceOf(p.loc) in w0.archive && p.loc !in locs
    ensures Exclusive(cfg, w0, Next(cfg, s, Spawn(p)), locs + [p.loc])
  {
    assert Next(cfg, s, Spawn(p)).procs == s.procs + [p];
  }

  lemma ExclusiveNext(cfg: Config, w0: World, bucket: string, keys: set<string>, s: System, locs: seq<Loc>, l: Label)
    requires cfg.enabled && NoSlash(bucket) && InArchive(cfg, w0, bucket, keys) && !l.Crash?
    requires RestoreState(cfg, w0, bucket, keys, s, locs) && Exclusive(cfg, w0, s, locs)
    requires l.Spawn? ==> l.p.RestoreList? && Among(l.p.loc, bucket, keys) && l.p.loc !in locs
    requires l.Act? ==> l.call == Fine
    ensures Exclusive(cfg, w0, Next(cfg, s, l), Extended(locs, l))
  {
    if l.Spawn? {
      ExclusiveSpawn(cfg, w0, s, locs, l.p);
    } else if l.i < |s.procs| {
      ExclusiveAct(cfg, w0, bucket, keys, s, locs, l.i);
    }
  }

  lemma {:induction false} ExclusiveStages(cfg: Config, w0: World, bucket: string, keys: set<string>, s: System,
                                           locs: seq<Loc>, ls: seq<Label>)
    requires cfg.enabled && NoSlash(bucket) && InArchive(cfg, w0, bucket, keys)
    requires RestoreState(cfg, w0, bucket, keys, s, locs) && Exclusive(cfg, w0, s, locs)
    requires OnlyRestore(ls) && FaultFree(ls) && Unkilled(ls) && Distinct(locs + Started(ls))
    requires forall l :: l in Started(ls) ==> Among(l, bucket, keys)
    ensures Exclusive(cfg, w0, Run(cfg, s, ls), locs + Started(ls))
    decreases |ls|
  {
    if ls == [] {
      assert locs + Started(ls) == locs;
    } else {
      var l := ls[0];
      assert l in ls && (l.Spawn? ==> l.p.loc in Started(ls));
      StartedStep(locs, ls);
      if l.Spawn? {
        assert (locs + Started(ls))[|locs|] == l.p.loc;
        assert forall j :: 0 <= j < |locs| ==> (locs + Started(ls))[j] == locs[j];
      }
      RestoreNext(cfg, w0, bucket, keys, s, locs, l);
      ExclusiveNext(cfg, w0, bucket, keys, s, locs, l);
      ExclusiveStages(cfg, w0, bucket, keys, Next(cfg, s, l), Extended(locs, l), ls[1..]);
    }
  }

  /** 1, or the size, for a key that has to be copied. */
  function ToCopy(cfg: Config, w: World, bytes: bool): Loc -> nat {
    l => if cfg.PlaceOf(l) !in w.archive || EqualSized(cfg, w, l) then 0
         else if bytes then |w.archive[cfg.PlaceOf(l)]| else 1
  }

  ghost predicate EachRestored(cfg: Config, w: World, procs: seq<Proc>, locs: seq<Loc>) {
    && |procs| == |locs|
    && forall i :: 0 <= i < |locs| ==>
         cfg.PlaceOf(locs[i]) in w.archive && procs[i] == RestoredProc(cfg, w, locs[i])
  }

  function RestoredProc(cfg: Config, w: World, l: Loc): Proc
    requires cfg.PlaceOf(l) in w.archive
  {
    Finish(if EqualSized(cfg, w, l) then AlreadyLocal else Restored, |w.archive[cfg.PlaceOf(l)]|)
  }

  lemma TallyLast(cfg: Config, w: World, procs: seq<Proc>, l: Loc)
    requires cfg.PlaceOf(l) in w.archive
    requires procs != [] && procs[|procs| - 1] == RestoredProc(cfg, w, l)
    ensures var st, st' := TallyRestore(procs[..|procs| - 1]), TallyRestore(procs);
            && st'.scanned == st.scanned + 1 && st'.failed == st.failed
            && st'.moved == st.moved + ToCopy(cfg, w, false)(l)
            && st'.moved + st'.skipped == st.moved + st.skipped + 1
            && st'.bytes == st.bytes + ToCopy(cfg, w, true)(l)
  {
  }

  lemma {:induction false} TallyOfRestored(cfg: Config, w: World, procs: seq<Proc>, locs: seq<Loc>)
    requires EachRestored(cfg, w, procs, locs)
    ensures var st := TallyRestore(procs);
            && st.scanned == |locs| && st.failed == 0 && st.moved + st.skipped == |locs|
            && st.moved == Sum(locs, ToCopy(cfg, w, false)) && st.bytes == Sum(locs, ToCopy(cfg, w, true))
    decreases |procs|
  {
    if procs != [] {
      var n := |procs| - 1;
      TallyLast(cfg, w, procs, locs[n]);
      TallyOfRestored(cfg, w, procs[..n], locs[..n]);
      SumLast(locs, ToCopy(cfg, w, false));
      SumLast(locs, ToCopy(cfg, w, true));
    }
  }

  /** What a whole run reports: nothing failed, every key is counted as restored or
      as already local, restored are exactly those without an equal-sized copy at
      the start, and the bytes are theirs. */
  lemma RestoreCounts(cfg: Config, w0: World, bucket: string, keys: set<string>, ls: seq<Label>)
    requires cfg.enabled && NoSlash(bucket) && InArchive(cfg, w0, bucket, keys)
    requires RestoresAll(cfg, w0, bucket, keys, ls) && Distinct(Started(ls))
    ensures var st, locs := TallyRestore(Run(cfg, Fresh(w0), ls).procs), Started(ls);
            && st.scanned == |locs| && st.failed == 0 && st.moved + st.skipped == |locs|
            && st.moved == Sum(locs, ToCopy(cfg, w0, false)) && st.bytes == Sum(locs, ToCopy(cfg, w0, true))
  {
    var s, locs := Run(cfg, Fresh(w0), ls), Started(ls);
    WholeRestore(cfg, w0, bucket, keys, ls);
    assert [] + locs == locs;
    ExclusiveStages(cfg, w0, bucket, keys, Fresh(w0), [], ls);
    forall i | 0 <= i < |locs| ensures s.procs[i] == RestoredProc(cfg, w0, locs[i]) {
      assert s.procs[i].Finished?;
    }
    TallyOfRestored(cfg, w0, s.procs, locs);
  }

  // ----- Run again after a kill ---------------------------------------------------------------

  /** A restore killed anywhere, on any schedule, and run again as a whole leaves
      what one uninterrupted restore leaves, whatever was local at the start. */
  lemma KilledRestoreResumes(cfg: Config, w0: World, bucket: string, keys: set<string>,
                             first: seq<Label>, again: seq<Label>, once: seq<Label>)
    requires cfg.enabled && NoSlash(bucket) && InArchive(cfg, w0, bucket, keys)
    requires OnlyRestore(first) && FaultFree(first) && forall l :: l in Started(first) ==> Among(l, bucket, keys)
    requires RestoresAll(cfg, Run(cfg, Fresh(w0), first).world, bucket, keys, again)
    requires RestoresAll(cfg, w0, bucket, keys, once)
    ensures var resumed := Run(cfg, Fresh(Run(cfg, Fresh(w0), first).world), again).world;
            var uninterrupted := Run(cfg, Fresh(w0), once).world;
            resumed.local == uninterrupted.local && resumed.archive == uninterrupted.archive == w0.archive
  {
    assert [] + Started(first) == Started(first);
    RestoreStages(cfg, w0, bucket, keys, Fresh(w0), [], first);
    var w1 := Run(cfg, Fresh(w0), first).world;
    WholeRestore(cfg, w1, bucket, keys, again);
    WholeRestore(cfg, w0, bucket, keys, once);
    var resumed := Run(cfg, Fresh(w1), again).world.local;
    forall l: Loc ensures Among(l, bucket, keys) ==> RestoredCopy(cfg, w1, l) == RestoredCopy(cfg, w0, l)
                  ensures !Among(l, bucket, keys) ==> SameLocal(w0.local, resumed, l)
    {
      if !Among(l, bucket, keys) {
        assert SameLocal(w0.local, w1.local, l) && SameLocal(w1.local, resumed, l);
      }
    }
    OneRestoredTier(cfg, w0, bucket, keys, resumed, Run(cfg, Fresh(w0), once).world.local);
  }

  // ----- Run again after any failures ------------------------------------------------------------

  /** Some stage of restoring `keys` with calls that may fail and replies that may
      carry no length: a key is as it was, or has its archived bytes, or is empty. */
  ghost predicate RoughlyRestoring(cfg: Config, w0: World, bucket: string, keys: set<string>, w: World)
    requires InArchive(cfg, w0, bucket, keys)
  {
    && w.archive == w0.archive
    && (forall l: Loc :: !Among(l, bucket, keys) ==> SameLocal(w0.local, w.local, l))
    && (forall l: Loc :: Among(l, bucket, keys) ==>
          || SameLocal(w0.local, w.local, l)
          || (l in w.local && (w.local[l] == w0.archive[cfg.PlaceOf(l)] || w.local[l] == [])))
  }

  predicate RoughPoint(cfg: Config, w0: World, bucket: string, keys: set<string>, p: Proc) {
    match p
    case Finished(_) => true
    case RestoreList(l) => Among(l, bucket, keys)
    case RestoreStat(l, _) => Among(l, bucket, keys)
    case RestoreOpen(l, _) => Among(l, bucket, keys)
    case RestorePut(l, _, content, length) =>
      && Among(l, bucket, keys) && cfg.PlaceOf(l) in w0.archive && content == w0.archive[cfg.PlaceOf(l)]
      && (length == |content| || length == 0)
    case _ => false
  }

  ghost predicate RoughState(cfg: Config, w0: World, bucket: string, keys: set<string>, s: System)
    requires InArchive(cfg, w0, bucket, keys)
  {
    && RoughlyRestoring(cfg, w0, bucket, keys, s.world)
    && forall i :: 0 <= i < |s.procs| ==> RoughPoint(cfg, w0, bucket, keys, s.procs[i])
  }

  lemma RoughStep(cfg: Config, w0: World, bucket: string, keys: set<string>, w: World, p: Proc, call: Call)
    requires cfg.enabled && InArchive(cfg, w0, bucket, keys)
    requires RoughlyRestoring(cfg, w0, bucket, keys, w) && RoughPoint(cfg, w0, bucket, keys, p)
    ensures RoughlyRestoring(cfg, w0, bucket, keys, Step(cfg, p, w, call).1)
    ensures RoughPoint(cfg, w0, bucket, keys, Step(cfg, p, w, call).0)
  {
    if p.RestorePut? {
      assert p.content[..|p.content|] == p.content;
    }
  }

  lemma {:induction false} RoughStages(cfg: Config, w0: World, bucket: string, keys: set<string>, s: System,
                                       ls: seq<Label>)
    requires cfg.enabled && InArchive(cfg, w0, bucket, keys) && RoughState(cfg, w0, bucket, keys, s)
    requires OnlyRestore(ls) && forall l :: l in Started(ls) ==> Among(l, bucket, keys)
    ensures RoughState(cfg, w0, bucket, keys, Run(cfg, s, ls))
    decreases |ls|
  {
    if ls != [] {
      var l := ls[0];
      assert l in ls;
      if l.Spawn? {
        assert l.p.loc in Started(ls);
      } else if l.Act? && l.i < |s.procs| {
        RoughStep(cfg, w0, bucket, keys, s.world, s.procs[l.i], l.call);
      }
      RoughStages(cfg, w0, bucket, keys, Next(cfg, s, l), ls[1..]);
    }
  }

  /** Equal-sized copies of the keys are equal, as in every state `NoLoss` reaches. */
  ghost predicate Consistent(cfg: Config, w: World, bucket: string, keys: set<string>)
    requires InArchive(cfg, w, bucket, keys)
  {
    forall l: Loc :: Among(l, bucket, keys) && EqualSized(cfg, w, l) ==> w.local[l] == w.archive[cfg.PlaceOf(l)]
  }

  /** A first run on any schedule, with any failures and kills; a whole second run;
      and a whole run that nothing preceded. */
  ghost predicate Resumption(cfg: Config, w0: World, bucket: string, keys: set<string>,
                             first: seq<Label>, again: seq<Label>, once: seq<Label>) {
    && OnlyRestore(first) && (forall l :: l in Started(first) ==> Among(l, bucket, keys))
    && RestoresAll(cfg, Run(cfg, Fresh(w0), first).world, bucket, keys, again)
    && RestoresAll(cfg, w0, bucket, keys, once)
  }

  lemma FaultyRestoreResumes(cfg: Config, w0: World, bucket: string, keys: set<string>,
                             first: seq<Label>, again: seq<Label>, once: seq<Label>)
    requires cfg.enabled && NoSlash(bucket) && InArchive(cfg, w0, bucket, keys) && Consistent(cfg, w0, bucket, keys)
    requires Resumption(cfg, w0, bucket, keys, first, again, once)
    ensures Run(cfg, Fresh(Run(cfg, Fresh(w0), first).world), again).world.local ==
              Run(cfg, Fresh(w0), once).world.local
  {
    RoughStages(cfg, w0, bucket, keys, Fresh(w0), first);
    var w1 := Run(cfg, Fresh(w0), first).world;
    WholeRestore(cfg, w1, bucket, keys, again);
    WholeRestore(cfg, w0, bucket, keys, once);
    var resumed := Run(cfg, Fresh(w1), again).world.local;
    forall l: Loc ensures Among(l, bucket, keys) ==> RestoredCopy(cfg, w1, l) == RestoredCopy(cfg, w0, l)
                  ensures !Among(l, bucket, keys) ==> SameLocal(w0.local, resumed, l)
    {
      if Among(l, bucket, keys) {
        assert RestoredCopy(cfg, w1, l) == w0.archive[cfg.PlaceOf(l)];
      } else {
        assert SameLocal(w0.local, w1.local, l) && SameLocal(w1.local, resumed, l);
      }
    }
    OneRestoredTier(cfg, w0, bucket, keys, resumed, Run(cfg, Fresh(w0), once).world.local);
  }

  lemma {:induction false} InOrder(keys: set<string>) returns (ks: seq<string>)
    ensures forall k :: k in ks <==> k in keys
    decreases keys
  {
    if k :| k in keys {
      var rest := InOrder(keys - {k});
      ks := [k] + rest;
    } else {
      ks := [];
    }
  }

  lemma SomeRestore(cfg: Config, w: World, bucket: string, keys: set<string>) returns (ls: seq<Label>)
    requires cfg.enabled && NoSlash(bucket)
    ensures RestoresAll(cfg, w, bucket, keys, ls)
  {
    var ks := InOrder(keys);
    var entries := seq(|ks|, i requires 0 <= i < |ks| => RestoreList(Loc(bucket, ks[i])));
    ls := OneByOne(cfg, Fresh(w), entries);
    forall l | l in Started(ls) ensures l.bucket == bucket && l.key in keys {
      var i :| 0 <= i < |entries| && Started(ls)[i] == l;
      assert ks[i] in ks;
    }
    forall k | k in keys ensures Loc(bucket, k) in Started(ls) {
      var i :| 0 <= i < |ks| && ks[i] == k;
      assert Started(ls)[i] == Loc(bucket, k);
    }
  }

  const StatFails: nat -> Call := i => if i == 1 then Call(Nothing, false, true) else Fine

  /** A worker whose stat fails overwrites even an equal-sized copy. */
  lemma FailedStatOverwrites(cfg: Config, w: World, l: Loc) returns (ls: seq<Label>)
    requires cfg.enabled && NoSlash(l.bucket) && cfg.PlaceOf(l) in w.archive
    ensures OnlyRestore(ls) && Started(ls) == [l]
    ensures Run(cfg, Fresh(w), ls).world == w.(local := w.local[l := w.archive[cfg.PlaceOf(l)]])
  {
    var body := w.archive[cfg.PlaceOf(l)];
    var n := |body|;
    assert body[..Min(n, n)] == body;
    assert Solo(cfg, RestoreList(l), w, StatFails, 0) == Solo(cfg, RestoreStat(l, n), w, StatFails, 1);
    assert Solo(cfg, RestoreStat(l, n), w, StatFails, 1) == Solo(cfg, RestoreOpen(l, n), w, StatFails, 2);
    assert Solo(cfg, RestoreOpen(l, n), w, StatFails, 2) == Solo(cfg, RestorePut(l, n, body, n), w, StatFails, 3);
    SoloLast(cfg, RestorePut(l, n, body, n), w, StatFails, 3);
    var s1 := Next(cfg, Fresh(w), Spawn(RestoreList(l)));
    assert s1.procs == [RestoreList(l)];
    var acts := SoloIsARun(cfg, s1, 0, StatFails, 0);
    ActsStartNothing(acts);
    ls := [Spawn(RestoreList(l))] + acts;
    assert ls[1..] == acts;
  }

  /** When a restore can be run again after any failures at all: exactly when
      equal-sized copies of the walked keys are equal. Otherwise a failed stat in
      the first run replaces a copy that an uninterrupted run would have kept. */
  lemma RestoreResumesIff(cfg: Config, w0: World, bucket: string, keys: set<string>)
    requires cfg.enabled && NoSlash(bucket) && InArchive(cfg, w0, bucket, keys)
    ensures (forall first, again, once :: Resumption(cfg, w0, bucket, keys, first, again, once) ==>
               Run(cfg, Fresh(Run(cfg, Fresh(w0), first).world), again).world.local ==
               Run(cfg, Fresh(w0), once).world.local) <==>
              Consistent(cfg, w0, bucket, keys)
  {
    if Consistent(cfg, w0, bucket, keys) {
      forall first, again, once | Resumption(cfg, w0, bucket, keys, first, again, once)
        ensures Run(cfg, Fresh(Run(cfg, Fresh(w0), first).world), again).world.local ==
                Run(cfg, Fresh(w0), once).world.local
      {
        FaultyRestoreResumes(cfg, w0, bucket, keys, first, again, once);
      }
    } else {
      var l: Loc :| Among(l, bucket, keys) && EqualSized(cfg, w0, l) && w0.local[l] != w0.archive[cfg.PlaceOf(l)];
      var first := FailedStatOverwrites(cfg, w0, l);
      var w1 := Run(cfg, Fresh(w0), first).world;
      var again := SomeRestore(cfg, w1, bucket, keys);
      var once := SomeRestore(cfg, w0, bucket, keys);
      WholeRestore(cfg, w1, bucket, keys, again);
      WholeRestore(cfg, w0, bucket, keys, once);
      assert RestoredCopy(cfg, w1, l) == w0.archive[cfg.PlaceOf(l)] && RestoredCopy(cfg, w0, l) == w0.local[l];
      assert Resumption(cfg, w0, bucket, keys, first, again, once);
    }
  }
}
