/** Schedules of the actors a pool runs: any interleaving of any number of workers. */
module Schedules {
  import opened KeyMapping
  import opened Tiers

  /** Nobody has been started yet. */
  function Fresh(w: World): System { System(w, map[], []) }

  /** What the actors started by `ls` work on, in the order they are started. */
  function Started(ls: seq<Label>): seq<Loc> {
    if ls == [] then []
    else (if ls[0].Spawn? && !ls[0].p.Finished? then [ls[0].p.loc] else []) + Started(ls[1..])
  }

  /** `locs` after one more label. */
  function Extended(locs: seq<Loc>, l: Label): seq<Loc> {
    if l.Spawn? && !l.p.Finished? then locs + [l.p.loc] else locs
  }

  lemma StartedStep(locs: seq<Loc>, ls: seq<Label>)
    requires ls != []
    ensures locs + Started(ls) == Extended(locs, ls[0]) + Started(ls[1..])
  {
  }

  predicate FaultFree(ls: seq<Label>) { forall l :: l in ls && l.Act? ==> l.call == Fine }

  predicate Unkilled(ls: seq<Label>) { forall l :: l in ls ==> !l.Crash? }

  predicate AllFinished(s: System) { forall i :: 0 <= i < |s.procs| ==> s.procs[i].Finished? }

  /** A run that meets no failure and ends when every actor is done. */
  ghost predicate Complete(cfg: Config, s: System, ls: seq<Label>) {
    FaultFree(ls) && Unkilled(ls) && AllFinished(Run(cfg, s, ls))
  }

  predicate Distinct<T(==)>(xs: seq<T>) {
    forall i, j :: 0 <= i < j < |xs| ==> xs[i] != xs[j]
  }

  /** Every object of `keys`, and nothing else, is given an actor. */
  ghost predicate Covers(bucket: string, keys: set<string>, ls: seq<Label>) {
    && (forall l :: l in Started(ls) ==> l.bucket == bucket && l.key in keys)
    && (forall k :: k in keys ==> Loc(bucket, k) in Started(ls))
  }

  lemma {:induction false} StartedAppend(a: seq<Label>, b: seq<Label>)
    ensures Started(a + b) == Started(a) + Started(b)
  {
    if a == [] {
      assert a + b == b;
    } else {
      assert (a + b)[0] == a[0] && (a + b)[1..] == a[1..] + b;
      StartedAppend(a[1..], b);
    }
  }

  lemma {:induction false} ActsStartNothing(ls: seq<Label>)
    requires forall k :: 0 <= k < |ls| ==> ls[k].Act?
    ensures Started(ls) == []
  {
    if ls != [] {
      ActsStartNothing(ls[1..]);
    }
  }

  function Locs(entries: seq<Proc>): seq<Loc>
    requires forall i :: 0 <= i < |entries| ==> !entries[i].Finished?
  {
    seq(|entries|, i requires 0 <= i < |entries| => entries[i].loc)
  }

  /** One actor after another is such a run: complete runs exist for any work. */
  lemma {:induction false} OneByOne(cfg: Config, s: System, entries: seq<Proc>) returns (ls: seq<Label>)
    requires AllFinished(s)
    requires forall i :: 0 <= i < |entries| ==> Entry(cfg, entries[i]) && !entries[i].Finished?
    ensures Complete(cfg, s, ls) && Started(ls) == Locs(entries)
    ensures forall l :: l in ls && l.Spawn? ==> l.p in entries
    decreases |entries|
  {
    if entries == [] {
      ls := [];
    } else {
      var p := entries[0];
      var s1 := Next(cfg, s, Spawn(p));
      var acts := SoloIsARun(cfg, s1, |s.procs|, AllFine, 0);
      var s2 := Run(cfg, s1, acts);
      var rest := OneByOne(cfg, s2, entries[1..]);
      RunAppend(cfg, s1, acts, rest);
      ls := [Spawn(p)] + (acts + rest);
      assert ls[1..] == acts + rest;
      ActsStartNothing(acts);
      StartedAppend(acts, rest);
      assert Locs(entries) == [p.loc] + Locs(entries[1..]);
      forall l | l in ls ensures l.Spawn? ==> l.p in entries {
        if l in acts {
          var k :| 0 <= k < |acts| && acts[k] == l;
        }
      }
      assert FaultFree(acts) && Unkilled(acts) by {
        forall l | l in acts ensures l.Act? && l.call == Fine {
          var k :| 0 <= k < |acts| && acts[k] == l;
          assert acts[k] == Act(|s.procs|, AllFine(0 + k));
        }
      }
    }
  }
}
