/**
 Tether bookkeeping of a subscribable (a publication or image that
 subscribers follow). Each subscriber has a tetherable position whose state
 is ACTIVE, LINGER or RESTING; the subscribable keeps a running count of the
 RESTING ones so that "are there working positions?" is a constant-time
 question.
 */
module Tether {
  import opened SeqUtil

  datatype TetherState = Active | Linger | Resting

  datatype TetherablePosition = TetherablePosition(
    isTether: bool,
    state: TetherState,
    counterId: int,
    subscriptionRegistrationId: int,
    timeOfLastUpdateNs: int)

  datatype Subscribable = Subscribable(positions: seq<TetherablePosition>, restingCount: int)

  function RestingWeight(p: TetherablePosition): nat {
    if p.state == Resting then 1 else 0
  }

  /** Number of positions in RESTING state. */
  function CountResting(ps: seq<TetherablePosition>): (r: nat)
    ensures r <= |ps|
  {
    if |ps| == 0 then 0 else CountResting(ps[..|ps| - 1]) + RestingWeight(ps[|ps| - 1])
  }

  /** Number of positions in any other state. */
  function CountWorking(ps: seq<TetherablePosition>): nat {
    if |ps| == 0 then 0
    else CountWorking(ps[..|ps| - 1]) + (if ps[|ps| - 1].state == Resting then 0 else 1)
  }

  /** The invariant the conductor keeps: the running count is the true count of RESTING positions. */
  predicate Valid(s: Subscribable) {
    s.restingCount == CountResting(s.positions)
  }

  lemma {:induction false} CountsPartition(ps: seq<TetherablePosition>)
    ensures CountResting(ps) + CountWorking(ps) == |ps|
    decreases |ps|
  {
    if |ps| > 0 {
      CountsPartition(ps[..|ps| - 1]);
    }
  }

  lemma CountRestingAppend(ps: seq<TetherablePosition>, p: TetherablePosition)
    ensures CountResting(ps + [p]) == CountResting(ps) + RestingWeight(p)
  {
    assert (ps + [p])[..|ps|] == ps;
  }

  lemma {:induction false} CountRestingUpdate(ps: seq<TetherablePosition>, i: nat, p: TetherablePosition)
    requires i < |ps|
    ensures CountResting(ps[i := p]) == CountResting(ps) - RestingWeight(ps[i]) + RestingWeight(p)
    decreases |ps|
  {
    var last := |ps| - 1;
    if i < last {
      assert ps[i := p][..last] == ps[..last][i := p];
      CountRestingUpdate(ps[..last], i, p);
    } else {
      assert ps[i := p][..last] == ps[..last];
    }
  }

  /** A new subscriber's position joins in ACTIVE state. */
  function AddPosition(
    s: Subscribable, isTether: bool, counterId: int, subscriptionRegistrationId: int, nowNs: int)
    : (r: Subscribable)
    ensures r.positions == s.positions + [TetherablePosition(isTether, Active, counterId, subscriptionRegistrationId, nowNs)]
    ensures r.restingCount == s.restingCount
    ensures Valid(s) ==> Valid(r)
  {
    var entry := TetherablePosition(isTether, Active, counterId, subscriptionRegistrationId, nowNs);
    CountRestingAppend(s.positions, entry);
    Subscribable(s.positions + [entry], s.restingCount)
  }

  /**
   Moves position `i` to `state` and stamps the time, adjusting the RESTING
   count only when the state really changes into or out of RESTING.
   */
  function SubscribableState(s: Subscribable, i: nat, state: TetherState, nowNs: int): (r: Subscribable)
    requires i < |s.positions|
    ensures |r.positions| == |s.positions|
    ensures r.positions[i] == s.positions[i].(state := state, timeOfLastUpdateNs := nowNs)
    ensures forall j :: 0 <= j < |s.positions| && j != i ==> r.positions[j] == s.positions[j]
    ensures Valid(s) ==> Valid(r)
  {
    var p := s.positions[i];
    var count :=
      if p.state != state then
        if Resting == state then s.restingCount + 1
        else if Resting == p.state then s.restingCount - 1
        else s.restingCount
      else s.restingCount;
    var updated := p.(state := state, timeOfLastUpdateNs := nowNs);
    CountRestingUpdate(s.positions, i, updated);
    Subscribable(s.positions[i := updated], count)
  }

  /** Index of the first position for `counterId`, or -1. */
  function FindPosition(ps: seq<TetherablePosition>, counterId: int): (r: int)
    ensures -1 <= r < |ps|
    ensures r == -1 <==> forall j :: 0 <= j < |ps| ==> ps[j].counterId != counterId
    ensures r >= 0 ==> ps[r].counterId == counterId && forall j :: 0 <= j < r ==> ps[j].counterId != counterId
  {
    if |ps| == 0 then -1
    else if ps[0].counterId == counterId then 0
    else
      var k := FindPosition(ps[1..], counterId);
      if k == -1 then -1 else k + 1
  }

  /**
   Drops the first position for `counterId` by unordered removal; the
   RESTING count drops with it when that position was resting. Nothing
   happens when no position has that counter.
   */
  function RemovePosition(s: Subscribable, counterId: int): (r: Subscribable)
    ensures (forall j :: 0 <= j < |s.positions| ==> s.positions[j].counterId != counterId) ==> r == s
    ensures (exists j :: 0 <= j < |s.positions| && s.positions[j].counterId == counterId) ==>
      && |r.positions| == |s.positions| - 1
      && exists j :: 0 <= j < |s.positions| && s.positions[j].counterId == counterId
           && multiset(r.positions) == multiset(s.positions) - multiset{s.positions[j]}
    ensures var i := FindPosition(s.positions, counterId);
      i >= 0 ==>
        && r.positions == FastUnorderedRemove(s.positions, i)
        && multiset(r.positions) == multiset(s.positions) - multiset{s.positions[i]}
        && (s.positions[i].state == Resting ==> r.restingCount == s.restingCount - 1)
        && (s.positions[i].state != Resting ==> r.restingCount == s.restingCount)
    ensures Valid(s) ==> Valid(r)
  {
    var i := FindPosition(s.positions, counterId);
    if i < 0 then s
    else
      var count := if Resting == s.positions[i].state then s.restingCount - 1 else s.restingCount;
      var last := |s.positions| - 1;
      CountRestingUpdate(s.positions, i, s.positions[last]);
      assert s.positions[i := s.positions[last]] ==
        s.positions[i := s.positions[last]][..last] + [s.positions[last]];
      CountRestingAppend(s.positions[i := s.positions[last]][..last], s.positions[last]);
      Subscribable(FastUnorderedRemove(s.positions, i), count)
  }

  /** Positions not RESTING, computed from the running count. */
  function WorkingPositionCount(s: Subscribable): (r: int)
    ensures Valid(s) ==> r == CountWorking(s.positions) && r >= 0
  {
    CountsPartition(s.positions);
    |s.positions| - s.restingCount
  }

  /** Some position is not RESTING. */
  function HasWorkingPositions(s: Subscribable): (r: bool)
    ensures Valid(s) ==> (r <==> exists j :: 0 <= j < |s.positions| && s.positions[j].state != Resting)
  {
    WorkingExists(s.positions);
    s.restingCount < |s.positions|
  }

  lemma {:induction false} WorkingExists(ps: seq<TetherablePosition>)
    ensures CountResting(ps) < |ps| <==> exists j :: 0 <= j < |ps| && ps[j].state != Resting
    decreases |ps|
  {
    if |ps| > 0 {
      var front := ps[..|ps| - 1];
      WorkingExists(front);
      if exists j :: 0 <= j < |front| && front[j].state != Resting {
        var j :| 0 <= j < |front| && front[j].state != Resting;
        assert ps[j] == front[j];
      }
      if exists j :: 0 <= j < |ps| && ps[j].state != Resting {
        var j :| 0 <= j < |ps| && ps[j].state != Resting;
        if j < |front| {
          assert front[j] == ps[j];
        }
      }
    }
  }
}
