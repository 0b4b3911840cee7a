/**
 One pass of the poll loop in `main` (google-drive-sync.py:164-169): each
 `local,remote` pair given on the command line is split, then synced, in
 order. Nothing catches an exception, so the first pair whose split or sync
 raises ends the pass, and the process, without touching the pairs after it.
 */
module Cycle {
  import opened Wrappers
  import PairSpec
  import Sync

  datatype CycleError =
    | BadPair(spec: string, splitError: PairSpec.SplitError)  // the unpacking of `split(",")` raised
    | SyncFailed(spec: string, syncError: Sync.SyncError) // `sync()` raised

  /** The pairs synced in order from w, each download written at `now`;
      the first failure is the result of the pass. A pass that completes
      had exactly one comma in every pair. */
  function RunCycle(specs: seq<string>, w: Sync.World, now: real): (r: Result<Sync.World, CycleError>)
    ensures |specs| == 0 ==> r == Success(w)
    ensures r.Failure? ==> r.error.spec in specs
    ensures r.Success? ==> forall s :: s in specs ==> PairSpec.Count(s, ',') == 1
    decreases |specs|
  {
    if |specs| == 0 then Success(w)
    else
      match PairSpec.SplitPair(specs[0])
      case Failure(e) => Failure(BadPair(specs[0], e))
      case Success(pair) =>
        match Sync.SyncPair(w, pair.0, pair.1, now)
        case Failure(e) => Failure(SyncFailed(specs[0], e))
        case Success(step) =>
          var r := RunCycle(specs[1..], step.1, now);
          assert forall x :: x in specs[1..] ==> x in specs;
          assert forall x :: x in specs ==> x == specs[0] || x in specs[1..];
          r
  }

  /** A pass that fails on some prefix of the pairs fails in the same way
      whatever pairs follow: the pairs after a failing one are never
      synced. */
  lemma {:induction false} CycleStopsAtFailure(specs: seq<string>, later: seq<string>, w: Sync.World, now: real)
    requires RunCycle(specs, w, now).Failure?
    ensures RunCycle(specs + later, w, now) == RunCycle(specs, w, now)
    decreases |specs|
  {
    var all := specs + later;
    assert all[0] == specs[0];
    assert all[1..] == specs[1..] + later;
    match PairSpec.SplitPair(specs[0])
    case Failure(_) =>
    case Success(pair) =>
      match Sync.SyncPair(w, pair.0, pair.1, now)
      case Failure(_) =>
      case Success(step) =>
        CycleStopsAtFailure(specs[1..], later, step.1, now);
  }

  /** A pass over pairs that all succeed continues with the world they leave
      behind. */
  lemma {:induction false} CycleComposes(specs: seq<string>, later: seq<string>, w: Sync.World, now: real)
    requires RunCycle(specs, w, now).Success?
    ensures RunCycle(specs + later, w, now) == RunCycle(later, RunCycle(specs, w, now).value, now)
    decreases |specs|
  {
    if |specs| == 0 {
      assert specs + later == later;
    } else {
      var all := specs + later;
      assert all[0] == specs[0];
      assert all[1..] == specs[1..] + later;
      match PairSpec.SplitPair(specs[0])
      case Success(pair) =>
        match Sync.SyncPair(w, pair.0, pair.1, now)
        case Success(step) =>
          CycleComposes(specs[1..], later, step.1, now);
    }
  }

  /** A pass over one pair completes exactly when the pair splits into a
      local path and a document id and `sync` of those completes; it then
      leaves the world that `sync` leaves. A bad pair fails as a bad pair,
      and a failing `sync` with its own error. */
  lemma OnePair(spec: string, w: Sync.World, now: real)
    ensures RunCycle([spec], w, now).Success? <==>
              PairSpec.SplitPair(spec).Success?
              && Sync.SyncPair(w, PairSpec.SplitPair(spec).value.0, PairSpec.SplitPair(spec).value.1, now).Success?
    ensures RunCycle([spec], w, now).Success? ==>
              RunCycle([spec], w, now).value
              == Sync.SyncPair(w, PairSpec.SplitPair(spec).value.0, PairSpec.SplitPair(spec).value.1, now).value.1
    ensures PairSpec.SplitPair(spec).Failure? ==>
              RunCycle([spec], w, now) == Failure(BadPair(spec, PairSpec.SplitPair(spec).error))
    ensures PairSpec.SplitPair(spec).Success?
            && Sync.SyncPair(w, PairSpec.SplitPair(spec).value.0, PairSpec.SplitPair(spec).value.1, now).Failure? ==>
              RunCycle([spec], w, now)
              == Failure(SyncFailed(spec, Sync.SyncPair(w, PairSpec.SplitPair(spec).value.0,
                                                        PairSpec.SplitPair(spec).value.1, now).error))
  {
    assert [spec][1..] == [];
  }
}
