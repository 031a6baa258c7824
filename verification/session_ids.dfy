/**
 Session-id allocation for new publications. The conductor keeps a candidate
 `nextSessionId` and a reserved range `[reservedLow, reservedHigh]` that
 implicitly assigned ids must skip. A new publication looks at the ids already
 in use just after the candidate, marks their offsets in a bit set, and takes
 the candidate plus the first clear offset.
 */
module SessionIds {
  import opened Int32
  import opened Results

  datatype Allocator = Allocator(nextSessionId: I32, reservedLow: I32, reservedHigh: I32)

  predicate InReserved(a: Allocator, id: int) {
    a.reservedLow <= id <= a.reservedHigh
  }

  /** The reserved range leaves no id free at all. */
  predicate ReservesEverything(a: Allocator) {
    a.reservedLow == MIN && a.reservedHigh == MAX
  }

  /** The candidate session id: the stored one, or the first id past the reserved range. */
  function NextSessionId(a: Allocator): (r: I32)
    ensures !InReserved(a, a.nextSessionId) ==> r == a.nextSessionId
    ensures InReserved(a, a.nextSessionId) && a.reservedHigh < MAX ==> r == a.reservedHigh + 1
    ensures InReserved(a, a.nextSessionId) && a.reservedHigh == MAX ==> r == MIN
    ensures !ReservesEverything(a) ==> !InReserved(a, r)
  {
    if InReserved(a, a.nextSessionId) then
      AddOneMoves(a.reservedHigh);
      AddWrap(a.reservedHigh, 1)
    else
      a.nextSessionId
  }

  /** Commits `sessionId` as taken: the stored candidate moves one past it and the id is handed back. */
  function UpdateNextSessionId(a: Allocator, sessionId: I32): (r: (Allocator, I32))
    ensures r.1 == sessionId
    ensures r.0.reservedLow == a.reservedLow && r.0.reservedHigh == a.reservedHigh
    ensures r.0.nextSessionId != sessionId
    ensures sessionId < MAX ==> r.0.nextSessionId == sessionId + 1
    ensures sessionId == MAX ==> r.0.nextSessionId == MIN
  {
    AddOneMoves(sessionId);
    (a.(nextSessionId := AddWrap(sessionId, 1)), sessionId)
  }

  /** Distance of a session id in use from the current candidate, wrapping. */
  function Offset(a: Allocator, sessionId: I32): I32 {
    SubWrap(sessionId, NextSessionId(a))
  }

  /** Records that `sessionId` is in use when its offset falls inside the bit set's window. */
  function TrackSessionIdOffset(a: Allocator, bits: seq<bool>, sessionId: I32): (r: seq<bool>)
    ensures |r| == |bits|
    ensures forall i :: 0 <= i < |bits| ==> (r[i] <==> bits[i] || i == Offset(a, sessionId))
  {
    var offset := Offset(a, sessionId);
    if 0 <= offset < |bits| then bits[offset := true] else bits
  }

  /** Some id of `ids` lies at offset `i` from the candidate. */
  predicate Covered(a: Allocator, ids: seq<I32>, i: int) {
    exists k :: 0 <= k < |ids| && Offset(a, ids[k]) == i
  }

  /** Tracks every session id of `ids`, in order. */
  function {:induction false} TrackAll(a: Allocator, bits: seq<bool>, ids: seq<I32>): (r: seq<bool>)
    ensures |r| == |bits|
    ensures forall i :: 0 <= i < |bits| && bits[i] ==> r[i]
    ensures forall k :: 0 <= k < |ids| && 0 <= Offset(a, ids[k]) < |bits| ==> r[Offset(a, ids[k])]
    ensures forall i :: 0 <= i < |bits| && r[i] ==> bits[i] || Covered(a, ids, i)
    decreases |ids|
  {
    if |ids| == 0 then bits
    else
      var front := TrackAll(a, bits, ids[..|ids| - 1]);
      assert forall k :: 0 <= k < |ids| - 1 ==> ids[..|ids| - 1][k] == ids[k];
      TrackSessionIdOffset(a, front, ids[|ids| - 1])
  }

  /** Index of the first clear bit at or after `from`, or -1 when there is none. */
  function FindFirstClearFrom(bits: seq<bool>, from: nat): (r: int)
    requires from <= |bits|
    ensures r == -1 <==> forall i :: from <= i < |bits| ==> bits[i]
    ensures r != -1 ==> from <= r < |bits| && !bits[r] && forall i :: from <= i < r ==> bits[i]
    decreases |bits| - from
  {
    if from == |bits| then -1
    else if !bits[from] then from
    else FindFirstClearFrom(bits, from + 1)
  }

  /** The bit set's find-first of a clear bit. */
  function FindFirstClear(bits: seq<bool>): (r: int)
    ensures r == -1 <==> forall i :: 0 <= i < |bits| ==> bits[i]
    ensures r != -1 ==> 0 <= r < |bits| && !bits[r] && forall i :: 0 <= i < r ==> bits[i]
  {
    FindFirstClearFrom(bits, 0)
  }

  /**
   The candidate plus the first clear offset, or None when every offset of
   the window is taken. The offset is cast to a signed 32-bit value.
   */
  function SpeculateNextSessionId(a: Allocator, bits: seq<bool>): (r: Option<I32>)
    ensures r.None? <==> forall i :: 0 <= i < |bits| ==> bits[i]
    ensures r.Some? && |bits| <= MAX ==>
      0 <= Offset(a, r.value) < |bits| && !bits[Offset(a, r.value)]
      && forall i :: 0 <= i < Offset(a, r.value) ==> bits[i]
  {
    var index := FindFirstClear(bits);
    if index < 0 then None
    else
      var sessionId := AddWrap(NextSessionId(a), Wrap(index));
      assert |bits| <= MAX ==> SubWrap(sessionId, NextSessionId(a)) == index by {
        if |bits| <= MAX {
          SubWrapOfAddWrap(NextSessionId(a), index);
        }
      }
      Some(sessionId)
  }

  /** A window of `n` clear bits. */
  function Clear(n: nat): (r: seq<bool>)
    ensures |r| == n && forall i :: 0 <= i < n ==> !r[i]
  {
    seq(n, _ => false)
  }

  /**
   The speculated session id is never one of the ids in use that were
   tracked, whatever those ids are and wherever they lie relative to the
   candidate.
   */
  lemma SpeculatedIdIsFree(a: Allocator, n: nat, ids: seq<I32>)
    requires n <= MAX
    ensures var r := SpeculateNextSessionId(a, TrackAll(a, Clear(n), ids));
      r.Some? ==> forall k :: 0 <= k < |ids| ==> r.value != ids[k]
  {
    var bits := TrackAll(a, Clear(n), ids);
    var r := SpeculateNextSessionId(a, bits);
    if r.Some? {
      forall k | 0 <= k < |ids|
        ensures r.value != ids[k]
      {
        if r.value == ids[k] {
          assert false;
        }
      }
    }
  }

  /** When every id of the window is tracked as in use, speculation fails. */
  lemma SpeculationFailsWhenWindowFull(a: Allocator, n: nat, ids: seq<I32>)
    requires forall i :: 0 <= i < n ==> Covered(a, ids, i)
    ensures SpeculateNextSessionId(a, TrackAll(a, Clear(n), ids)).None?
  {
    var bits := TrackAll(a, Clear(n), ids);
    forall i | 0 <= i < n
      ensures bits[i]
    {
      assert Covered(a, ids, i);
      var k :| 0 <= k < |ids| && Offset(a, ids[k]) == i;
    }
  }
}
