/** The retention sweep's decision on one object (service/retention.go). */
module Retention {
  import opened KeyMapping
  import opened Tiers
  import opened Tiering

  datatype Stats = Stats(scanned: nat, eligible: nat, deleted: nat, bytesFreed: nat,
                         notArchived: nat, sizeMismatch: nat, errors: nat)

  /** The counters after an object's verification answered anything but yes. */
  function CountKept(c: Stats, reason: VerifyReason): Stats {
    match reason
    case VerifyNotArchived => c.(notArchived := c.notArchived + 1)
    case VerifySizeMismatch => c.(sizeMismatch := c.sizeMismatch + 1)
    case _ => c.(errors := c.errors + 1)
  }

  function CountDeleted(c: Stats, size: nat): Stats {
    c.(deleted := c.deleted + 1, bytesFreed := c.bytesFreed + size)
  }

  function CountProcessed(c: Stats, res: TierResult): Stats {
    match res.outcome
    case SweepKept(reason) => CountKept(c, reason)
    case SweptAway => CountDeleted(c, res.size)
    case WouldSweep => CountDeleted(c, res.size)
    case _ => c.(errors := c.errors + 1)
  }

  /** The atomic counters of one pass. */
  class Counters {
    var scanned: nat
    var eligible: nat
    var deleted: nat
    var bytesFreed: nat
    var notArchived: nat
    var sizeMismatch: nat
    var errors: nat

    constructor ()
      ensures Snapshot() == Stats(0, 0, 0, 0, 0, 0, 0)
    {
      scanned, eligible, deleted, bytesFreed := 0, 0, 0, 0;
      notArchived, sizeMismatch, errors := 0, 0, 0;
    }

    function Snapshot(): Stats
      reads this
    {
      Stats(scanned, eligible, deleted, bytesFreed, notArchived, sizeMismatch, errors)
    }

    method VerifyArchived(svc: Service, loc: Loc, size: nat, call: Call) returns (ok: bool)
      modifies this
      ensures ok == (Verify(svc.Cfg(), svc.State(), loc, size, call) == VerifyOK)
      ensures Snapshot() ==
                if ok then old(Snapshot())
                else CountKept(old(Snapshot()), Verify(svc.Cfg(), svc.State(), loc, size, call))
    {
      var verified, reason := svc.VerifyArchived(loc, size, call);
      if verified {
        return true;
      }
      if reason == VerifyNotArchived {
        notArchived := notArchived + 1;
      } else if reason == VerifySizeMismatch {
        sizeMismatch := sizeMismatch + 1;
      } else {
        errors := errors + 1;
      }
      return false;
    }

    /** `process` is the sweep actor run alone, its outcome counted. */
    method Process(svc: Service, loc: Loc, size: nat, dryRun: bool, calls: nat -> Call)
      modifies this, svc.store
      ensures var (res, w') := Solo(svc.Cfg(), SweepVerify(loc, size, dryRun), old(svc.State()), calls, 0);
              svc.State() == w' && Snapshot() == CountProcessed(old(Snapshot()), res)
    {
      ghost var w := svc.State();
      var ok := VerifyArchived(svc, loc, size, calls(0));
      if !ok {
        SoloLast(svc.Cfg(), SweepVerify(loc, size, dryRun), w, calls, 0);
        return;
      }
      if dryRun {
        SoloLast(svc.Cfg(), SweepVerify(loc, size, dryRun), w, calls, 0);
        deleted := deleted + 1;
        bytesFreed := bytesFreed + size;
        return;
      }
      assert Solo(svc.Cfg(), SweepVerify(loc, size, dryRun), w, calls, 0) ==
             Solo(svc.Cfg(), SweepRemove(loc, size), w, calls, 1);
      SoloLast(svc.Cfg(), SweepRemove(loc, size), w, calls, 1);
      var removed := svc.store.RemoveObject(loc, calls(1));
      if !removed {
        errors := errors + 1;
        return;
      }
      deleted := deleted + 1;
      bytesFreed := bytesFreed + size;
    }
  }
}
