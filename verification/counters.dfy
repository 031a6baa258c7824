/**
 The counters metadata table as the conductor sees it: one record per
 counter id, a fixed number of slots, and the three operations of the
 counters manager and reader that the conductor calls — allocate, free and
 find-by-type-and-registration-id. Their implementation lives outside the
 conductor; here each has the abstract behaviour the conductor relies on.
 */
module Counters {

  /** Sentinel for "no id" in registration and owner fields. */
  const NULL_VALUE: int := -1

  /** Sentinel counter id returned by lookups that find nothing. */
  const NULL_COUNTER_ID: int := -1

  datatype RecordState = Unused | Allocated | Reclaimed

  /** The metadata of one counter plus its value cell. */
  datatype CounterRecord = CounterRecord(
    state: RecordState,
    typeId: int,
    registrationId: int,
    ownerId: int,
    key: seq<bv8>,
    labelText: string,
    value: int)

  type Slots = seq<CounterRecord>

  const UNUSED_RECORD: CounterRecord := CounterRecord(Unused, 0, NULL_VALUE, NULL_VALUE, [], "", 0)

  /** A freshly initialised table of `maxCounters` slots. */
  function InitSlots(maxCounters: nat): (r: Slots)
    ensures |r| == maxCounters
    ensures forall i :: 0 <= i < maxCounters ==> r[i].state == Unused
  {
    seq(maxCounters, _ => UNUSED_RECORD)
  }

  predicate HasUnused(slots: Slots) {
    exists i :: 0 <= i < |slots| && slots[i].state == Unused
  }

  /** Slots `a` and `b` are the same table apart from slot `id`. */
  predicate SameExcept(a: Slots, b: Slots, id: int) {
    |a| == |b| && forall j :: 0 <= j < |a| && j != id ==> a[j] == b[j]
  }

  /** Lowest UNUSED slot at or after `from`, or -1. */
  function FirstUnusedFrom(slots: Slots, from: nat): (r: int)
    requires from <= |slots|
    ensures r == -1 <==> forall i :: from <= i < |slots| ==> slots[i].state != Unused
    ensures r != -1 ==>
      && from <= r < |slots| && slots[r].state == Unused
      && forall i :: from <= i < r ==> slots[i].state != Unused
    decreases |slots| - from
  {
    if from == |slots| then -1
    else if slots[from].state == Unused then from
    else FirstUnusedFrom(slots, from + 1)
  }

  /**
   The manager's allocation: takes the lowest UNUSED slot, marks it
   ALLOCATED with the given type, key and label, no registration or owner id
   yet, and a zero value. Returns the new table and the counter id, or the
   table unchanged and -1 when every slot is taken.
   */
  function Allocate(slots: Slots, typeId: int, key: seq<bv8>, labelText: string): (r: (Slots, int))
    ensures r.1 == -1 <==> !HasUnused(slots)
    ensures r.1 == -1 ==> r.0 == slots
    ensures r.1 != -1 ==>
      && 0 <= r.1 < |slots|
      && slots[r.1].state == Unused
      && (forall j :: 0 <= j < r.1 ==> slots[j].state != Unused)
      && SameExcept(r.0, slots, r.1)
      && r.0[r.1] == CounterRecord(Allocated, typeId, NULL_VALUE, NULL_VALUE, key, labelText, 0)
  {
    var id := FirstUnusedFrom(slots, 0);
    if id == -1 then (slots, -1)
    else (slots[id := CounterRecord(Allocated, typeId, NULL_VALUE, NULL_VALUE, key, labelText, 0)], id)
  }

  /** Writes the registration and owner ids of counter `id`. */
  function Stamp(slots: Slots, id: int, registrationId: int, ownerId: int): (r: Slots)
    requires 0 <= id < |slots|
    ensures |r| == |slots|
    ensures r[id] == slots[id].(registrationId := registrationId, ownerId := ownerId)
    ensures SameExcept(r, slots, id)
  {
    slots[id := slots[id].(registrationId := registrationId, ownerId := ownerId)]
  }

  /** Writes the value cell of counter `id`. */
  function SetValue(slots: Slots, id: int, value: int): (r: Slots)
    requires 0 <= id < |slots|
    ensures |r| == |slots|
    ensures r[id] == slots[id].(value := value)
    ensures SameExcept(r, slots, id)
  {
    slots[id := slots[id].(value := value)]
  }

  /**
   The manager's free: the slot becomes RECLAIMED (its metadata stays
   readable until the slot is reused). An id outside the table changes
   nothing.
   */
  function Free(slots: Slots, id: int): (r: Slots)
    ensures SameExcept(r, slots, id)
    ensures 0 <= id < |slots| ==> r[id] == slots[id].(state := Reclaimed)
    ensures !(0 <= id < |slots|) ==> r == slots
  {
    if 0 <= id < |slots| then slots[id := slots[id].(state := Reclaimed)] else slots
  }

  predicate MatchesTypeAndRegistration(rec: CounterRecord, typeId: int, registrationId: int) {
    rec.state == Allocated && rec.typeId == typeId && rec.registrationId == registrationId
  }

  /** Lowest ALLOCATED counter id at or after `from` with this type and registration id, or -1. */
  function FindByTypeIdAndRegistrationIdFrom(slots: Slots, typeId: int, registrationId: int, from: nat): (r: int)
    requires from <= |slots|
    ensures r == NULL_COUNTER_ID <==>
      forall i :: from <= i < |slots| ==> !MatchesTypeAndRegistration(slots[i], typeId, registrationId)
    ensures r != NULL_COUNTER_ID ==>
      && from <= r < |slots|
      && MatchesTypeAndRegistration(slots[r], typeId, registrationId)
      && forall i :: from <= i < r ==> !MatchesTypeAndRegistration(slots[i], typeId, registrationId)
    decreases |slots| - from
  {
    if from == |slots| then NULL_COUNTER_ID
    else if MatchesTypeAndRegistration(slots[from], typeId, registrationId) then from
    else FindByTypeIdAndRegistrationIdFrom(slots, typeId, registrationId, from + 1)
  }

  /**
   The reader's lookup by type id and registration id. Only ALLOCATED
   records qualify; when several do, the lowest counter id wins.
   */
  function FindByTypeIdAndRegistrationId(slots: Slots, typeId: int, registrationId: int): (r: int)
    ensures r == NULL_COUNTER_ID <==>
      forall i :: 0 <= i < |slots| ==> !MatchesTypeAndRegistration(slots[i], typeId, registrationId)
    ensures r != NULL_COUNTER_ID ==>
      && 0 <= r < |slots|
      && MatchesTypeAndRegistration(slots[r], typeId, registrationId)
      && forall i :: 0 <= i < r ==> !MatchesTypeAndRegistration(slots[i], typeId, registrationId)
  {
    FindByTypeIdAndRegistrationIdFrom(slots, typeId, registrationId, 0)
  }

  /**
   A RECLAIMED record is never found, even when its stale type and
   registration id match the query.
   */
  lemma FreedCounterIsNotFound(slots: Slots, id: int, typeId: int, registrationId: int)
    requires 0 <= id < |slots|
    ensures FindByTypeIdAndRegistrationId(Free(slots, id), typeId, registrationId) != id
  {
  }

  /** Freeing the only counter with a type and registration id leaves none to find. */
  lemma FreedOnlyMatchIsNotFound(slots: Slots, id: int, typeId: int, registrationId: int)
    requires 0 <= id < |slots|
    requires forall i :: 0 <= i < |slots| && i != id ==> !MatchesTypeAndRegistration(slots[i], typeId, registrationId)
    ensures FindByTypeIdAndRegistrationId(Free(slots, id), typeId, registrationId) == NULL_COUNTER_ID
  {
  }
}
