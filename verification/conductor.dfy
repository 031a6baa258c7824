/**
 The driver conductor's counter and client bookkeeping: the clients it
 knows, the counters they own, and the responses it broadcasts to clients.
 Commands arrive one at a time and each is a pure transition of the driver
 state.
 */
module Conductor {
  import opened Counters
  import opened SeqUtil

  /**
   Type id of client heartbeat counters. The constant is defined with the
   driver's other counter type ids, outside the conductor.
   */
  const HEARTBEAT_TYPE_ID: int := 11

  /** A counter a client added, known by the registration id the client used for it. */
  datatype CounterLink = CounterLink(registrationId: int, counterId: int)

  datatype Client = Client(
    clientId: int,
    heartbeatCounterId: int,
    reachedEndOfLife: bool,
    closedByCommand: bool,
    livenessTimeoutMs: int,
    publicationLinks: seq<int>,
    counterLinks: seq<CounterLink>)

  /** Error codes carried by error responses. */
  datatype ErrorCode =
    | GenericError
    | UnknownCounter
      /** Set by the counters manager when allocation fails; its value is chosen there. */
    | CountersManagerError

  /** Responses broadcast to clients. */
  datatype Response =
    | CounterReady(correlationId: int, counterId: int)
    | StaticCounter(correlationId: int, counterId: int)
    | UnavailableCounter(registrationId: int, counterId: int)
    | OperationSucceeded(correlationId: int)
    | ClientTimeout(clientId: int)
    | Error(code: ErrorCode, correlationId: int)

  /**
   The conductor's state. `nowMs` is the cached epoch clock, and
   `clientTimeouts` the system counter of clients that timed out.
   */
  datatype Driver = Driver(
    slots: Slots,
    clients: seq<Client>,
    responses: seq<Response>,
    clientLivenessTimeoutNs: nat,
    nowMs: int,
    clientTimeouts: nat)

  /** How a counter command ended. */
  datatype CounterOutcome =
    | Created(counterId: int)
    | FoundExisting(counterId: int)
    | Removed(counterId: int)
    | NonStaticConflict(counterId: int)
    | NoSuchCounter
    | NoFreeSlot
    | ClientNotAdded

  // ---------------------------------------------------------------------------
  // Well-formedness
  // ---------------------------------------------------------------------------

  /** Every counter a client refers to is a live (ALLOCATED) slot of the table. */
  predicate ClientWellFormed(slots: Slots, c: Client) {
    && 0 <= c.heartbeatCounterId < |slots|
    && slots[c.heartbeatCounterId].state == Allocated
    && forall k :: 0 <= k < |c.counterLinks| ==>
         0 <= c.counterLinks[k].counterId < |slots| && slots[c.counterLinks[k].counterId].state == Allocated
  }

  /**
   The counters a client refers to, by position: position 0 is its heartbeat
   counter and position `p + 1` the counter of its `p`-th counter link.
   */
  function RefAt(c: Client, p: int): int
    requires 0 <= p <= |c.counterLinks|
  {
    if p == 0 then c.heartbeatCounterId else c.counterLinks[p - 1].counterId
  }

  /**
   No counter is referred to twice: every slot the driver allocates for a
   client (a heartbeat or an added counter) is taken from the UNUSED ones, so
   two references, within one client or across clients, never share an id.
   */
  predicate RefsDistinct(clients: seq<Client>) {
    forall i, p, j, q ::
      && 0 <= i < |clients| && 0 <= p <= |clients[i].counterLinks|
      && 0 <= j < |clients| && 0 <= q <= |clients[j].counterLinks|
      && (i != j || p != q)
      ==> RefAt(clients[i], p) != RefAt(clients[j], q)
  }

  predicate WellFormed(d: Driver) {
    && (forall i :: 0 <= i < |d.clients| ==> ClientWellFormed(d.slots, d.clients[i]))
    && RefsDistinct(d.clients)
  }

  /** Taking an UNUSED slot cannot disturb a client, whose counters are all ALLOCATED. */
  lemma AllocationKeepsClient(slots: Slots, slots': Slots, id: int, c: Client)
    requires ClientWellFormed(slots, c)
    requires 0 <= id < |slots| && slots[id].state == Unused
    requires SameExcept(slots', slots, id) && slots'[id].state == Allocated
    ensures ClientWellFormed(slots', c)
  {
  }

  /** Only heartbeat and counter-link ids matter to distinctness. */
  lemma SameRefsKeepDistinct(a: seq<Client>, b: seq<Client>)
    requires RefsDistinct(a)
    requires |a| == |b|
    requires forall i :: 0 <= i < |a| ==>
      a[i].heartbeatCounterId == b[i].heartbeatCounterId && a[i].counterLinks == b[i].counterLinks
    ensures RefsDistinct(b)
  {
    forall i, p, j, q |
      && 0 <= i < |b| && 0 <= p <= |b[i].counterLinks|
      && 0 <= j < |b| && 0 <= q <= |b[j].counterLinks|
      && (i != j || p != q)
      ensures RefAt(b[i], p) != RefAt(b[j], q)
    {
      assert RefAt(b[i], p) == RefAt(a[i], p);
      assert RefAt(b[j], q) == RefAt(a[j], q);
    }
  }

  /** A reference of a well-formed client names an ALLOCATED slot. */
  lemma RefIsAllocated(slots: Slots, c: Client, p: int)
    requires ClientWellFormed(slots, c) && 0 <= p <= |c.counterLinks|
    ensures 0 <= RefAt(c, p) < |slots| && slots[RefAt(c, p)].state == Allocated
  {
    if p > 0 {
      assert c.counterLinks[p - 1].counterId == RefAt(c, p);
    }
  }

  /** Registering a client whose only reference is an UNUSED slot keeps references distinct. */
  lemma AppendClientKeepsDistinct(slots: Slots, clients: seq<Client>, c: Client)
    requires forall i :: 0 <= i < |clients| ==> ClientWellFormed(slots, clients[i])
    requires RefsDistinct(clients)
    requires c.counterLinks == []
    requires 0 <= c.heartbeatCounterId < |slots| && slots[c.heartbeatCounterId].state == Unused
    ensures RefsDistinct(clients + [c])
  {
    var b := clients + [c];
    forall i, p, j, q |
      && 0 <= i < |b| && 0 <= p <= |b[i].counterLinks|
      && 0 <= j < |b| && 0 <= q <= |b[j].counterLinks|
      && (i != j || p != q)
      ensures RefAt(b[i], p) != RefAt(b[j], q)
    {
      if i < |clients| {
        RefIsAllocated(slots, clients[i], p);
      }
      if j < |clients| {
        RefIsAllocated(slots, clients[j], q);
      }
    }
  }

  /** Linking an UNUSED slot to a client keeps references distinct. */
  lemma AppendLinkKeepsDistinct(slots: Slots, clients: seq<Client>, index: int, link: CounterLink)
    requires forall i :: 0 <= i < |clients| ==> ClientWellFormed(slots, clients[i])
    requires RefsDistinct(clients)
    requires 0 <= index < |clients|
    requires 0 <= link.counterId < |slots| && slots[link.counterId].state == Unused
    ensures RefsDistinct(clients[index := clients[index].(counterLinks := clients[index].counterLinks + [link])])
  {
    var c := clients[index];
    var b := clients[index := c.(counterLinks := c.counterLinks + [link])];
    forall i, p, j, q |
      && 0 <= i < |b| && 0 <= p <= |b[i].counterLinks|
      && 0 <= j < |b| && 0 <= q <= |b[j].counterLinks|
      && (i != j || p != q)
      ensures RefAt(b[i], p) != RefAt(b[j], q)
    {
      var isNewP := i == index && p == |c.counterLinks| + 1;
      var isNewQ := j == index && q == |c.counterLinks| + 1;
      if !isNewP {
        assert RefAt(b[i], p) == RefAt(clients[i], p);
        RefIsAllocated(slots, clients[i], p);
      }
      if !isNewQ {
        assert RefAt(b[j], q) == RefAt(clients[j], q);
        RefIsAllocated(slots, clients[j], q);
      }
    }
  }

  /** A client whose every reference names an ALLOCATED slot is well formed. */
  lemma RefsAllocatedIsWellFormed(slots: Slots, c: Client)
    requires forall p :: 0 <= p <= |c.counterLinks| ==>
      0 <= RefAt(c, p) < |slots| && slots[RefAt(c, p)].state == Allocated
    ensures ClientWellFormed(slots, c)
  {
    assert RefAt(c, 0) == c.heartbeatCounterId;
    forall k | 0 <= k < |c.counterLinks|
      ensures 0 <= c.counterLinks[k].counterId < |slots| && slots[c.counterLinks[k].counterId].state == Allocated
    {
      assert RefAt(c, k + 1) == c.counterLinks[k].counterId;
    }
  }

  /**
   Where reference `p` of the client came from once link `k` of `n` was
   removed by moving the last link into its place.
   */
  function MovedFrom(k: int, n: int, p: int): int {
    if p == k + 1 then n else p
  }

  lemma RemovedLinkRefAt(c: Client, k: int, p: int)
    requires 0 <= k < |c.counterLinks|
    requires 0 <= p < |c.counterLinks|
    ensures var n := |c.counterLinks|;
      var src := MovedFrom(k, n, p);
      && 0 <= src <= n && src != k + 1
      && RefAt(c.(counterLinks := FastUnorderedRemove(c.counterLinks, k)), p) == RefAt(c, src)
  {
  }

  /**
   Removing one counter link of client `i` and freeing its counter keeps the
   driver well formed: the freed id was referred to by that link alone.
   */
  lemma RemoveLinkKeepsWellFormed(slots: Slots, clients: seq<Client>, i: int, k: int)
    requires forall j :: 0 <= j < |clients| ==> ClientWellFormed(slots, clients[j])
    requires RefsDistinct(clients)
    requires 0 <= i < |clients| && 0 <= k < |clients[i].counterLinks|
    ensures var c := clients[i];
      var b := clients[i := c.(counterLinks := FastUnorderedRemove(c.counterLinks, k))];
      var freed := Free(slots, c.counterLinks[k].counterId);
      && (forall j :: 0 <= j < |b| ==> ClientWellFormed(freed, b[j]))
      && RefsDistinct(b)
  {
    var c := clients[i];
    var n := |c.counterLinks|;
    var id := c.counterLinks[k].counterId;
    assert RefAt(c, k + 1) == id;
    var b := clients[i := c.(counterLinks := FastUnorderedRemove(c.counterLinks, k))];
    var freed := Free(slots, id);
    // Every reference of `b` is a reference of `clients` other than the freed one.
    forall j, p | 0 <= j < |b| && 0 <= p <= |b[j].counterLinks|
      ensures var src := if j == i then MovedFrom(k, n, p) else p;
        && 0 <= src <= |clients[j].counterLinks| && (j != i || src != k + 1)
        && RefAt(b[j], p) == RefAt(clients[j], src)
    {
      if j == i {
        RemovedLinkRefAt(c, k, p);
      }
    }
    forall j | 0 <= j < |b| ensures ClientWellFormed(freed, b[j]) {
      forall p | 0 <= p <= |b[j].counterLinks|
        ensures 0 <= RefAt(b[j], p) < |freed| && freed[RefAt(b[j], p)].state == Allocated
      {
        var src := if j == i then MovedFrom(k, n, p) else p;
        RefIsAllocated(slots, clients[j], src);
        assert RefAt(clients[j], src) != RefAt(clients[i], k + 1);
      }
      RefsAllocatedIsWellFormed(freed, b[j]);
    }
    forall j1, p, j2, q |
      && 0 <= j1 < |b| && 0 <= p <= |b[j1].counterLinks|
      && 0 <= j2 < |b| && 0 <= q <= |b[j2].counterLinks|
      && (j1 != j2 || p != q)
      ensures RefAt(b[j1], p) != RefAt(b[j2], q)
    {
      var src1 := if j1 == i then MovedFrom(k, n, p) else p;
      var src2 := if j2 == i then MovedFrom(k, n, q) else q;
      assert RefAt(clients[j1], src1) != RefAt(clients[j2], src2);
    }
  }

  // ---------------------------------------------------------------------------
  // Clients
  // ---------------------------------------------------------------------------

  /** Index of the last client with this id, or -1: the table is scanned from the end. */
  function FindClient(clients: seq<Client>, clientId: int): (r: int)
    ensures -1 <= r < |clients|
    ensures r == -1 <==> forall i :: 0 <= i < |clients| ==> clients[i].clientId != clientId
    ensures r >= 0 ==> clients[r].clientId == clientId
    ensures r >= 0 ==> forall i :: r < i < |clients| ==> clients[i].clientId != clientId
    decreases |clients|
  {
    if |clients| == 0 then -1
    else if clients[|clients| - 1].clientId == clientId then |clients| - 1
    else FindClient(clients[..|clients| - 1], clientId)
  }

  predicate ClientExists(d: Driver, clientId: int) {
    exists i :: 0 <= i < |d.clients| && d.clients[i].clientId == clientId
  }

  /** The lookup only looks at client ids. */
  lemma {:induction false} FindClientSeesOnlyIds(a: seq<Client>, b: seq<Client>, clientId: int)
    requires |a| == |b|
    requires forall i :: 0 <= i < |a| ==> a[i].clientId == b[i].clientId
    ensures FindClient(a, clientId) == FindClient(b, clientId)
    decreases |a|
  {
    if |a| > 0 {
      FindClientSeesOnlyIds(a[..|a| - 1], b[..|b| - 1], clientId);
    }
  }

  /** Liveness timeout in milliseconds, never below one. */
  function LivenessTimeoutMs(timeoutNs: nat): (r: int)
    ensures r >= 1
    ensures timeoutNs < 1_000_000 ==> r == 1
    ensures timeoutNs >= 1_000_000 ==> r * 1_000_000 <= timeoutNs < (r + 1) * 1_000_000
  {
    if timeoutNs < 1_000_000 then 1 else timeoutNs / 1_000_000
  }

  /** A client as it is first registered, with heartbeat counter `heartbeatId`. */
  function NewClient(d: Driver, clientId: int, heartbeatId: int): Client {
    Client(clientId, heartbeatId, false, false, LivenessTimeoutMs(d.clientLivenessTimeoutNs), [], [])
  }

  /**
   Finds the client, or registers it: a heartbeat counter is allocated whose
   registration and owner id are the client id and whose value is the
   current time, the client is appended, and CounterReady for the heartbeat
   is broadcast. Returns the state and the client's index, or -1 when no
   heartbeat counter could be allocated (state unchanged).
   */
  function GetOrAddClient(d: Driver, clientId: int): (r: (Driver, int))
    ensures -1 <= r.1 < |r.0.clients|
    ensures r.1 >= 0 ==> r.1 == FindClient(r.0.clients, clientId)
    ensures ClientExists(d, clientId) ==> r.0 == d && r.1 >= 0
    ensures !ClientExists(d, clientId) && !HasUnused(d.slots) ==> r == (d, -1)
    ensures !ClientExists(d, clientId) && HasUnused(d.slots) ==>
      && r.1 == |d.clients|
      && var hb := r.0.clients[r.1].heartbeatCounterId;
      && r.0.clients == d.clients + [NewClient(d, clientId, hb)]
      && 0 <= hb < |d.slots| && d.slots[hb].state == Unused
      && (forall j :: 0 <= j < hb ==> d.slots[j].state != Unused)
      && SameExcept(r.0.slots, d.slots, hb)
      && r.0.slots[hb] == CounterRecord(Allocated, HEARTBEAT_TYPE_ID, clientId, clientId, [], "", d.nowMs)
      && r.0.responses == d.responses + [CounterReady(clientId, hb)]
      && r.0.clientLivenessTimeoutNs == d.clientLivenessTimeoutNs
      && r.0.nowMs == d.nowMs && r.0.clientTimeouts == d.clientTimeouts
    ensures WellFormed(d) ==> WellFormed(r.0)
  {
    var index := FindClient(d.clients, clientId);
    if index != -1 then (d, index)
    else
      var (slots1, hb) := Allocate(d.slots, HEARTBEAT_TYPE_ID, [], "");
      if hb < 0 then (d, -1)
      else
        var slots2 := SetValue(Stamp(slots1, hb, clientId, clientId), hb, d.nowMs);
        var client := NewClient(d, clientId, hb);
        var d' := d.(slots := slots2, clients := d.clients + [client],
                     responses := d.responses + [CounterReady(clientId, hb)]);
        assert WellFormed(d) ==> WellFormed(d') by {
          if WellFormed(d) {
            forall i | 0 <= i < |d'.clients| ensures ClientWellFormed(slots2, d'.clients[i]) {
              if i < |d.clients| {
                AllocationKeepsClient(d.slots, slots2, hb, d.clients[i]);
              }
            }
            AppendClientKeepsDistinct(d.slots, d.clients, client);
          }
        }
        (d', |d.clients|)
  }

  /**
   A driver starts with a fresh table and no clients, which is well formed.
   The first client to register takes counter 0 as its heartbeat, or is
   refused when the table has no slots.
   */
  lemma FirstClientOnFreshDriver(maxCounters: nat, timeoutNs: nat, nowMs: int, clientId: int)
    ensures var d := Driver(InitSlots(maxCounters), [], [], timeoutNs, nowMs, 0);
      var r := GetOrAddClient(d, clientId);
      && WellFormed(d)
      && (maxCounters == 0 ==> r.1 == -1 && r.0 == d)
      && (maxCounters > 0 ==>
            && r.1 == 0 && |r.0.clients| == 1
            && r.0.clients[0].heartbeatCounterId == 0
            && r.0.responses == [CounterReady(clientId, 0)]
            && WellFormed(r.0))
  {
    var d := Driver(InitSlots(maxCounters), [], [], timeoutNs, nowMs, 0);
    if maxCounters > 0 {
      assert d.slots[0].state == Unused;
    }
  }

  /**
   The liveness check of one client: when the heartbeat is older than the
   timeout the client reaches end of life; unless it closed itself, a
   ClientTimeout is broadcast and the timeout counter increases; in both
   cases its heartbeat counter is announced unavailable.
   */
  function OnTimeEvent(d: Driver, i: int, nowMs: int): (r: Driver)
    requires 0 <= i < |d.clients| && ClientWellFormed(d.slots, d.clients[i])
    ensures r.slots == d.slots
    ensures |r.clients| == |d.clients|
    ensures forall j :: 0 <= j < |d.clients| && j != i ==> r.clients[j] == d.clients[j]
    ensures r.nowMs == d.nowMs && r.clientLivenessTimeoutNs == d.clientLivenessTimeoutNs
    ensures var c := d.clients[i];
      var expired := nowMs > d.slots[c.heartbeatCounterId].value + c.livenessTimeoutMs;
      && (!expired ==> r == d)
      && (expired ==> r.clients[i] == c.(reachedEndOfLife := true))
      && (expired && !c.closedByCommand ==>
            r.responses == d.responses + [ClientTimeout(c.clientId), UnavailableCounter(c.clientId, c.heartbeatCounterId)]
            && r.clientTimeouts == d.clientTimeouts + 1)
      && (expired && c.closedByCommand ==>
            r.responses == d.responses + [UnavailableCounter(c.clientId, c.heartbeatCounterId)]
            && r.clientTimeouts == d.clientTimeouts)
    ensures WellFormed(d) ==> WellFormed(r)
  {
    var c := d.clients[i];
    var timestampMs := d.slots[c.heartbeatCounterId].value;
    if nowMs > timestampMs + c.livenessTimeoutMs then
      var ended := d.(clients := d.clients[i := c.(reachedEndOfLife := true)]);
      var notified :=
        if !c.closedByCommand then
          ended.(clientTimeouts := ended.clientTimeouts + 1,
                 responses := ended.responses + [ClientTimeout(c.clientId)])
        else ended;
      var r := notified.(responses := notified.responses + [UnavailableCounter(c.clientId, c.heartbeatCounterId)]);
      assert WellFormed(d) ==> WellFormed(r) by {
        if WellFormed(d) {
          SameRefsKeepDistinct(d.clients, r.clients);
        }
      }
      r
    else d
  }

  /** A keepalive refreshes the client's heartbeat to the current time; unknown clients are ignored. */
  function OnClientKeepalive(d: Driver, clientId: int): (r: Driver)
    requires WellFormed(d)
    ensures r.clients == d.clients && r.responses == d.responses
    ensures r.nowMs == d.nowMs && r.clientTimeouts == d.clientTimeouts
    ensures r.clientLivenessTimeoutNs == d.clientLivenessTimeoutNs
    ensures var i := FindClient(d.clients, clientId);
      && (i == -1 ==> r == d)
      && (i >= 0 ==> SameExcept(r.slots, d.slots, d.clients[i].heartbeatCounterId)
                     && r.slots[d.clients[i].heartbeatCounterId].value == d.nowMs
                     && r.slots[d.clients[i].heartbeatCounterId].state == d.slots[d.clients[i].heartbeatCounterId].state
                     && r.slots[d.clients[i].heartbeatCounterId]
                        == d.slots[d.clients[i].heartbeatCounterId].(value := d.nowMs))
    ensures WellFormed(r)
  {
    var i := FindClient(d.clients, clientId);
    if i >= 0 then d.(slots := SetValue(d.slots, d.clients[i].heartbeatCounterId, d.nowMs)) else d
  }

  /**
   A client closing itself: it is marked closed by command and its heartbeat
   is set to zero so that the next liveness check retires it.
   */
  function OnClientClose(d: Driver, clientId: int): (r: Driver)
    requires WellFormed(d)
    ensures r.responses == d.responses && |r.clients| == |d.clients|
    ensures r.nowMs == d.nowMs && r.clientTimeouts == d.clientTimeouts
    ensures r.clientLivenessTimeoutNs == d.clientLivenessTimeoutNs
    ensures var i := FindClient(d.clients, clientId);
      && (i == -1 ==> r == d)
      && (i >= 0 ==> r.clients == d.clients[i := d.clients[i].(closedByCommand := true)]
                     && SameExcept(r.slots, d.slots, d.clients[i].heartbeatCounterId)
                     && r.slots[d.clients[i].heartbeatCounterId].value == 0
                     && r.slots[d.clients[i].heartbeatCounterId]
                        == d.slots[d.clients[i].heartbeatCounterId].(value := 0))
    ensures WellFormed(r)
  {
    var i := FindClient(d.clients, clientId);
    if i >= 0 then
      var c := d.clients[i];
      var r := d.(clients := d.clients[i := c.(closedByCommand := true)],
                  slots := SetValue(d.slots, c.heartbeatCounterId, 0));
      SameRefsKeepDistinct(d.clients, r.clients);
      r
    else d
  }

  /**
   After a client closes itself, the first liveness check later than its
   timeout retires it without a ClientTimeout: only its heartbeat counter is
   announced unavailable.
   */
  lemma CloseThenTimeEventRetiresQuietly(d: Driver, clientId: int, nowMs: int)
    requires WellFormed(d)
    requires ClientExists(d, clientId)
    ensures var i := FindClient(d.clients, clientId);
      var c := d.clients[i];
      var closed := OnClientClose(d, clientId);
      nowMs > c.livenessTimeoutMs ==>
        var r := OnTimeEvent(closed, i, nowMs);
        && r.clients[i].reachedEndOfLife
        && r.clientTimeouts == d.clientTimeouts
        && r.responses == d.responses + [UnavailableCounter(clientId, c.heartbeatCounterId)]
  {
  }

  /**
   A keepalive at the cached time holds the client alive for exactly its
   liveness timeout: a later liveness check at time `t` retires it if and
   only if `t` is past that time plus the timeout.
   */
  lemma KeepaliveDefersTimeout(d: Driver, clientId: int, t: int)
    requires WellFormed(d)
    requires ClientExists(d, clientId)
    ensures var i := FindClient(d.clients, clientId);
      var kept := OnClientKeepalive(d, clientId);
      && (t <= d.nowMs + d.clients[i].livenessTimeoutMs ==> OnTimeEvent(kept, i, t) == kept)
      && (t > d.nowMs + d.clients[i].livenessTimeoutMs ==> OnTimeEvent(kept, i, t).clients[i].reachedEndOfLife)
  {
  }

  /** The UnavailableCounter responses for a client's counter links, in link order. */
  function UnavailableFor(links: seq<CounterLink>): (r: seq<Response>)
    ensures |r| == |links|
    ensures forall k :: 0 <= k < |links| ==> r[k] == UnavailableCounter(links[k].registrationId, links[k].counterId)
  {
    seq(|links|, k requires 0 <= k < |links| => UnavailableCounter(links[k].registrationId, links[k].counterId))
  }

  predicate LinksCounter(links: seq<CounterLink>, id: int) {
    exists k :: 0 <= k < |links| && links[k].counterId == id
  }

  /** Frees every linked counter, in link order. */
  function {:induction false} FreeLinkedCounters(slots: Slots, links: seq<CounterLink>): (r: Slots)
    ensures |r| == |slots|
    ensures forall k :: 0 <= k < |links| && 0 <= links[k].counterId < |slots| ==>
      r[links[k].counterId] == slots[links[k].counterId].(state := Reclaimed)
    ensures forall j :: 0 <= j < |slots| && !LinksCounter(links, j) ==> r[j] == slots[j]
    decreases |links|
  {
    if |links| == 0 then slots
    else
      var front := links[..|links| - 1];
      var freed := FreeLinkedCounters(slots, front);
      assert forall k :: 0 <= k < |front| ==> front[k] == links[k];
      assert forall j :: LinksCounter(front, j) ==> LinksCounter(links, j);
      Free(freed, links[|links| - 1].counterId)
  }

  /**
   Tearing a client down: every linked counter is announced unavailable and
   freed, then the heartbeat counter is freed; the client is left with no
   links, client id -1 and heartbeat counter id -1. Nothing else changes.
   */
  function ClientDelete(d: Driver, i: int): (r: Driver)
    requires 0 <= i < |d.clients|
    ensures var c := d.clients[i];
      && r.responses == d.responses + UnavailableFor(c.counterLinks)
      && |r.slots| == |d.slots|
      && (forall k :: 0 <= k < |c.counterLinks| && 0 <= c.counterLinks[k].counterId < |d.slots| ==>
            r.slots[c.counterLinks[k].counterId].state == Reclaimed)
      && (forall k :: 0 <= k < |c.counterLinks| && 0 <= c.counterLinks[k].counterId < |d.slots| ==>
            r.slots[c.counterLinks[k].counterId] == d.slots[c.counterLinks[k].counterId].(state := Reclaimed))
      && (0 <= c.heartbeatCounterId < |d.slots| ==> r.slots[c.heartbeatCounterId].state == Reclaimed)
      && (0 <= c.heartbeatCounterId < |d.slots| ==>
            r.slots[c.heartbeatCounterId] == d.slots[c.heartbeatCounterId].(state := Reclaimed))
      && (forall j :: 0 <= j < |d.slots| && j != c.heartbeatCounterId && !LinksCounter(c.counterLinks, j) ==>
            r.slots[j] == d.slots[j])
      && r.clients == d.clients[i := c.(clientId := -1, heartbeatCounterId := -1,
                                        publicationLinks := [], counterLinks := [])]
      && r.nowMs == d.nowMs && r.clientTimeouts == d.clientTimeouts
      && r.clientLivenessTimeoutNs == d.clientLivenessTimeoutNs
  {
    var c := d.clients[i];
    var slots1 := FreeLinkedCounters(d.slots, c.counterLinks);
    var slots2 := Free(slots1, c.heartbeatCounterId);
    d.(responses := d.responses + UnavailableFor(c.counterLinks),
       slots := slots2,
       clients := d.clients[i := c.(clientId := -1, heartbeatCounterId := -1,
                                    publicationLinks := [], counterLinks := [])])
  }

  // ---------------------------------------------------------------------------
  // Counter commands
  // ---------------------------------------------------------------------------

  /**
   ADD_COUNTER: registers the client if needed, allocates a slot stamped
   with the command's correlation id as registration id and the client as
   owner, links it to the client and broadcasts CounterReady.
   */
  function OnAddCounter(d: Driver, clientId: int, correlationId: int, typeId: int, key: seq<bv8>, labelText: string)
    : (r: (Driver, CounterOutcome))
    ensures r.1.Created? || r.1 == NoFreeSlot || r.1 == ClientNotAdded
    ensures var (d1, index) := GetOrAddClient(d, clientId);
      && (r.1 == ClientNotAdded <==> index < 0)
      && (r.1 == ClientNotAdded ==> r.0 == d)
      && (r.1 == NoFreeSlot <==> index >= 0 && !HasUnused(d1.slots))
      && (r.1 == NoFreeSlot ==> r.0 == d1)
      && (r.1.Created? ==>
            var id := r.1.counterId;
            && 0 <= id < |d1.slots| && d1.slots[id].state == Unused
            && SameExcept(r.0.slots, d1.slots, id)
            && r.0.slots[id] == CounterRecord(Allocated, typeId, correlationId, clientId, key, labelText, 0)
            && |r.0.clients| == |d1.clients|
            && r.0.clients[index] == d1.clients[index].(
                 counterLinks := d1.clients[index].counterLinks + [CounterLink(correlationId, id)])
            && (forall j :: 0 <= j < |d1.clients| && j != index ==> r.0.clients[j] == d1.clients[j])
            && r.0.responses == d1.responses + [CounterReady(correlationId, id)]
            && r.0.nowMs == d1.nowMs && r.0.clientTimeouts == d1.clientTimeouts
            && r.0.clientLivenessTimeoutNs == d1.clientLivenessTimeoutNs)
    ensures WellFormed(d) ==> WellFormed(r.0)
  {
    var (d1, index) := GetOrAddClient(d, clientId);
    if index < 0 then (d1, ClientNotAdded)
    else
      var (slots2, counterId) := Allocate(d1.slots, typeId, key, labelText);
      if counterId < 0 then (d1, NoFreeSlot)
      else
        var slots3 := Stamp(slots2, counterId, correlationId, clientId);
        var client := d1.clients[index];
        var client' := client.(counterLinks := client.counterLinks + [CounterLink(correlationId, counterId)]);
        var d' := d1.(slots := slots3, clients := d1.clients[index := client'],
                      responses := d1.responses + [CounterReady(correlationId, counterId)]);
        assert WellFormed(d1) ==> WellFormed(d') by {
          if WellFormed(d1) {
            forall j | 0 <= j < |d'.clients| ensures ClientWellFormed(slots3, d'.clients[j]) {
              AllocationKeepsClient(d1.slots, slots3, counterId, d1.clients[j]);
            }
            AppendLinkKeepsDistinct(d1.slots, d1.clients, index, CounterLink(correlationId, counterId));
          }
        }
        (d', Created(counterId))
  }

  /** Index of the first link with this registration id, or -1. */
  function FindLink(links: seq<CounterLink>, registrationId: int): (r: int)
    ensures -1 <= r < |links|
    ensures r == -1 <==> forall k :: 0 <= k < |links| ==> links[k].registrationId != registrationId
    ensures r >= 0 ==> links[r].registrationId == registrationId
    ensures r >= 0 ==> forall k :: 0 <= k < r ==> links[k].registrationId != registrationId
  {
    if |links| == 0 then -1
    else if links[0].registrationId == registrationId then 0
    else
      var k := FindLink(links[1..], registrationId);
      if k == -1 then -1 else k + 1
  }

  /** The client (the last one with this id) holds a counter link with this registration id. */
  predicate HasCounterLink(d: Driver, clientId: int, registrationId: int) {
    var i := FindClient(d.clients, clientId);
    i >= 0 && exists k :: 0 <= k < |d.clients[i].counterLinks|
                && d.clients[i].counterLinks[k].registrationId == registrationId
  }

  /**
   REMOVE_COUNTER: when the client holds a link with the registration id,
   broadcasts OperationSucceeded then UnavailableCounter, frees that counter
   and drops that link, the first with the registration id, moving the
   client's last link into its place. Otherwise it fails with UNKNOWN_COUNTER and
   nothing changes; the client is never created here.
   */
  function OnRemoveCounter(d: Driver, clientId: int, correlationId: int, registrationId: int)
    : (r: (Driver, CounterOutcome))
    ensures r.1.Removed? <==> HasCounterLink(d, clientId, registrationId)
    ensures !r.1.Removed? ==> r == (d, NoSuchCounter)
    ensures r.1.Removed? ==>
      var i := FindClient(d.clients, clientId);
      var links := d.clients[i].counterLinks;
      var id := r.1.counterId;
      && r.0.responses == d.responses + [OperationSucceeded(correlationId), UnavailableCounter(registrationId, id)]
      && r.0.slots == Free(d.slots, id)
      && |r.0.clients| == |d.clients|
      && (forall j :: 0 <= j < |d.clients| && j != i ==> r.0.clients[j] == d.clients[j])
      && r.0.clients[i] == d.clients[i].(counterLinks := r.0.clients[i].counterLinks)
      && |r.0.clients[i].counterLinks| == |links| - 1
      && CounterLink(registrationId, id) in links
      && multiset(r.0.clients[i].counterLinks) == multiset(links) - multiset{CounterLink(registrationId, id)}
      && r.0.nowMs == d.nowMs && r.0.clientTimeouts == d.clientTimeouts
      && r.0.clientLivenessTimeoutNs == d.clientLivenessTimeoutNs
    ensures r.1.Removed? ==>
      var i := FindClient(d.clients, clientId);
      var links := d.clients[i].counterLinks;
      var k := FindLink(links, registrationId);
      && 0 <= k < |links|
      && r.1.counterId == links[k].counterId
      && r.0.clients[i].counterLinks == FastUnorderedRemove(links, k)
    ensures WellFormed(d) ==> WellFormed(r.0)
  {
    var index := FindClient(d.clients, clientId);
    if index < 0 then (d, NoSuchCounter)
    else
      var client := d.clients[index];
      var k := FindLink(client.counterLinks, registrationId);
      if k < 0 then (d, NoSuchCounter)
      else
        var link := client.counterLinks[k];
        var client' := client.(counterLinks := FastUnorderedRemove(client.counterLinks, k));
        assert WellFormed(d) ==> WellFormed(d.(slots := Free(d.slots, link.counterId),
                                               clients := d.clients[index := client'])) by {
          if WellFormed(d) {
            RemoveLinkKeepsWellFormed(d.slots, d.clients, index, k);
          }
        }
        (d.(responses := d.responses + [OperationSucceeded(correlationId),
                                        UnavailableCounter(link.registrationId, link.counterId)],
            slots := Free(d.slots, link.counterId),
            clients := d.clients[index := client']),
         Removed(link.counterId))
  }

  /**
   ADD_STATIC_COUNTER: registers the client if needed, then looks the
   (type id, registration id) pair up among ALLOCATED counters. A match with
   no owner is reused as is; a match with an owner is a conflict; with no
   match a slot is allocated with the caller's registration id and no owner,
   and is not linked to the client. Success broadcasts StaticCounter.
   */
  function OnAddStaticCounter(
    d: Driver, clientId: int, correlationId: int, typeId: int, key: seq<bv8>, labelText: string, registrationId: int)
    : (r: (Driver, CounterOutcome))
    ensures r.1.Created? || r.1.FoundExisting? || r.1.NonStaticConflict? || r.1 == NoFreeSlot || r.1 == ClientNotAdded
    ensures var (d1, index) := GetOrAddClient(d, clientId);
      var found := FindByTypeIdAndRegistrationId(d1.slots, typeId, registrationId);
      && (r.1 == ClientNotAdded <==> index < 0)
      && (r.1 == ClientNotAdded ==> r.0 == d)
      && (r.1.FoundExisting? ==>
            && index >= 0 && found == r.1.counterId && found != NULL_COUNTER_ID
            && MatchesTypeAndRegistration(d1.slots[found], typeId, registrationId)
            && d1.slots[found].ownerId == NULL_VALUE
            && r.0 == d1.(responses := d1.responses + [StaticCounter(correlationId, found)]))
      && (r.1.NonStaticConflict? ==>
            && index >= 0 && found == r.1.counterId && found != NULL_COUNTER_ID
            && MatchesTypeAndRegistration(d1.slots[found], typeId, registrationId)
            && d1.slots[found].ownerId != NULL_VALUE
            && r.0 == d1)
      && (index >= 0 && found != NULL_COUNTER_ID ==> r.1.FoundExisting? || r.1.NonStaticConflict?)
      && (r.1 == NoFreeSlot ==> found == NULL_COUNTER_ID && !HasUnused(d1.slots) && r.0 == d1)
      && (r.1.Created? ==>
            var id := r.1.counterId;
            && index >= 0 && found == NULL_COUNTER_ID
            && 0 <= id < |d1.slots| && d1.slots[id].state == Unused
            && SameExcept(r.0.slots, d1.slots, id)
            && r.0.slots[id] == CounterRecord(Allocated, typeId, registrationId, NULL_VALUE, key, labelText, 0)
            && r.0.clients == d1.clients
            && r.0.responses == d1.responses + [StaticCounter(correlationId, id)]
            && r.0.nowMs == d1.nowMs && r.0.clientTimeouts == d1.clientTimeouts
            && r.0.clientLivenessTimeoutNs == d1.clientLivenessTimeoutNs)
    ensures WellFormed(d) ==> WellFormed(r.0)
  {
    var (d1, index) := GetOrAddClient(d, clientId);
    if index < 0 then (d1, ClientNotAdded)
    else
      var counterId := FindByTypeIdAndRegistrationId(d1.slots, typeId, registrationId);
      if NULL_COUNTER_ID != counterId then
        if NULL_VALUE != d1.slots[counterId].ownerId then (d1, NonStaticConflict(counterId))
        else (d1.(responses := d1.responses + [StaticCounter(correlationId, counterId)]), FoundExisting(counterId))
      else
        var (slots2, newId) := Allocate(d1.slots, typeId, key, labelText);
        if newId < 0 then (d1, NoFreeSlot)
        else
          var slots3 := Stamp(slots2, newId, registrationId, NULL_VALUE);
          var d' := d1.(slots := slots3, responses := d1.responses + [StaticCounter(correlationId, newId)]);
          assert WellFormed(d1) ==> WellFormed(d') by {
            if WellFormed(d1) {
              forall j | 0 <= j < |d'.clients| ensures ClientWellFormed(slots3, d'.clients[j]) {
                AllocationKeepsClient(d1.slots, slots3, newId, d1.clients[j]);
              }
            }
          }
          (d', Created(newId))
  }

  // ---------------------------------------------------------------------------
  // Command dispatch
  // ---------------------------------------------------------------------------

  datatype Command =
    | AddCounter(clientId: int, correlationId: int, typeId: int, key: seq<bv8>, labelText: string)
    | RemoveCounter(clientId: int, correlationId: int, registrationId: int)
    | AddStaticCounter(clientId: int, correlationId: int, typeId: int, key: seq<bv8>, labelText: string,
                       registrationId: int)

  predicate IsFailure(o: CounterOutcome) {
    o.NonStaticConflict? || o == NoSuchCounter || o == NoFreeSlot || o == ClientNotAdded
  }

  /** The error code a failed counter command reports. */
  function ErrorCodeFor(o: CounterOutcome): ErrorCode
    requires IsFailure(o)
  {
    match o
    case NonStaticConflict(_) => GenericError
    case NoSuchCounter => UnknownCounter
    case _ => CountersManagerError
  }

  function Handle(d: Driver, cmd: Command): (Driver, CounterOutcome) {
    match cmd
    case AddCounter(clientId, correlationId, typeId, key, labelText) =>
      OnAddCounter(d, clientId, correlationId, typeId, key, labelText)
    case RemoveCounter(clientId, correlationId, registrationId) =>
      OnRemoveCounter(d, clientId, correlationId, registrationId)
    case AddStaticCounter(clientId, correlationId, typeId, key, labelText, registrationId) =>
      OnAddStaticCounter(d, clientId, correlationId, typeId, key, labelText, registrationId)
  }

  /** A response that answers the command with this correlation id. */
  predicate Answers(resp: Response, correlationId: int) {
    match resp
    case CounterReady(c, _) => c == correlationId
    case StaticCounter(c, _) => c == correlationId
    case OperationSucceeded(c) => c == correlationId
    case Error(_, c) => c == correlationId
    case _ => false
  }

  /** `b` is `a` followed by further responses. */
  predicate Extends(a: seq<Response>, b: seq<Response>) {
    |a| <= |b| && b[..|a|] == a
  }

  /** `b` extends `a` with a successful answer to the command `correlationId`. */
  predicate AnsweredBy(a: seq<Response>, b: seq<Response>, correlationId: int) {
    && Extends(a, b)
    && |b| > |a|
    && !b[|b| - 1].Error?
    && exists k :: |a| <= k < |b| && Answers(b[k], correlationId)
  }

  lemma GetOrAddClientExtends(d: Driver, clientId: int)
    ensures Extends(d.responses, GetOrAddClient(d, clientId).0.responses)
  {
  }

  lemma AddCounterResponds(d: Driver, clientId: int, correlationId: int, typeId: int, key: seq<bv8>, labelText: string)
    ensures var r := OnAddCounter(d, clientId, correlationId, typeId, key, labelText);
      && Extends(d.responses, r.0.responses)
      && (!IsFailure(r.1) <==> r.1.Created?)
      && (!IsFailure(r.1) ==> AnsweredBy(d.responses, r.0.responses, correlationId))
      && (r.1.Created? ==> r.0.responses[|r.0.responses| - 1] == CounterReady(correlationId, r.1.counterId))
  {
    GetOrAddClientExtends(d, clientId);
    var r := OnAddCounter(d, clientId, correlationId, typeId, key, labelText);
    if !IsFailure(r.1) {
      assert Answers(r.0.responses[|r.0.responses| - 1], correlationId);
    }
  }

  lemma RemoveCounterResponds(d: Driver, clientId: int, correlationId: int, registrationId: int)
    ensures var r := OnRemoveCounter(d, clientId, correlationId, registrationId);
      && Extends(d.responses, r.0.responses)
      && (!IsFailure(r.1) <==> r.1.Removed?)
      && (!IsFailure(r.1) ==> AnsweredBy(d.responses, r.0.responses, correlationId))
      && (r.1.Removed? ==> r.0.responses[|d.responses|] == OperationSucceeded(correlationId))
  {
    var r := OnRemoveCounter(d, clientId, correlationId, registrationId);
    if !IsFailure(r.1) {
      assert Answers(r.0.responses[|r.0.responses| - 2], correlationId);
    }
  }

  lemma StaticCounterResponds(
    d: Driver, clientId: int, correlationId: int, typeId: int, key: seq<bv8>, labelText: string, registrationId: int)
    ensures var r := OnAddStaticCounter(d, clientId, correlationId, typeId, key, labelText, registrationId);
      && Extends(d.responses, r.0.responses)
      && (!IsFailure(r.1) <==> r.1.Created? || r.1.FoundExisting?)
      && (!IsFailure(r.1) ==> AnsweredBy(d.responses, r.0.responses, correlationId))
      && (!IsFailure(r.1) ==> r.0.responses[|r.0.responses| - 1] == StaticCounter(correlationId, r.1.counterId))
  {
    GetOrAddClientExtends(d, clientId);
    var r := OnAddStaticCounter(d, clientId, correlationId, typeId, key, labelText, registrationId);
    if !IsFailure(r.1) {
      assert Answers(r.0.responses[|r.0.responses| - 1], correlationId);
    }
  }

  /**
   What each command handler broadcasts: it only appends, and on success at
   least one new response answers the command while the last new one is not
   an error.
   */
  lemma HandleResponds(d: Driver, cmd: Command)
    ensures Extends(d.responses, Handle(d, cmd).0.responses)
    ensures !IsFailure(Handle(d, cmd).1) ==> AnsweredBy(d.responses, Handle(d, cmd).0.responses, cmd.correlationId)
  {
    match cmd
    case AddCounter(clientId, correlationId, typeId, key, labelText) =>
      AddCounterResponds(d, clientId, correlationId, typeId, key, labelText);
    case RemoveCounter(clientId, correlationId, registrationId) =>
      RemoveCounterResponds(d, clientId, correlationId, registrationId);
    case AddStaticCounter(clientId, correlationId, typeId, key, labelText, registrationId) =>
      StaticCounterResponds(d, clientId, correlationId, typeId, key, labelText, registrationId);
  }

  /**
   Runs a well-formed counter command and, when it fails, broadcasts an
   error response carrying the command's correlation id. Such a command is
   always answered: the responses only grow, one of the new ones carries the
   command's correlation id, and the last is an error precisely when the
   command failed. The driver state otherwise is the handler's. A command
   too short for its type is not a `Command`: it is logged as malformed and
   gets no response.
   */
  function OnCommand(d: Driver, cmd: Command): (r: Driver)
    ensures var h := Handle(d, cmd).0;
      && r.slots == h.slots && r.clients == h.clients
      && r.nowMs == h.nowMs && r.clientTimeouts == h.clientTimeouts
      && r.clientLivenessTimeoutNs == h.clientLivenessTimeoutNs
      && Extends(h.responses, r.responses)
      && |r.responses| <= |h.responses| + 1
    ensures Extends(d.responses, r.responses) && |r.responses| > |d.responses|
    ensures exists k :: |d.responses| <= k < |r.responses| && Answers(r.responses[k], cmd.correlationId)
    ensures var o := Handle(d, cmd).1;
      && (IsFailure(o) ==> r.responses[|r.responses| - 1] == Error(ErrorCodeFor(o), cmd.correlationId))
      && (!IsFailure(o) ==> !r.responses[|r.responses| - 1].Error?)
  {
    HandleResponds(d, cmd);
    var (d', outcome) := Handle(d, cmd);
    if IsFailure(outcome) then
      var r := d'.(responses := d'.responses + [Error(ErrorCodeFor(outcome), cmd.correlationId)]);
      assert Answers(r.responses[|r.responses| - 1], cmd.correlationId);
      assert r.responses[..|d.responses|] == d'.responses[..|d.responses|];
      r
    else d'
  }

  // ---------------------------------------------------------------------------
  // Properties across several commands
  // ---------------------------------------------------------------------------

  /**
   Adding a static counter is idempotent: once a call has produced counter
   `id`, repeating it with the same client, type id and registration id
   (any correlation id, key or label) returns that same counter, allocates
   nothing and changes neither the table nor the clients.
   */
  lemma StaticCounterIsIdempotent(
    d: Driver, clientId: int, correlationId: int, typeId: int, key: seq<bv8>, labelText: string,
    registrationId: int, correlationId2: int, key2: seq<bv8>, labelText2: string)
    requires var r := OnAddStaticCounter(d, clientId, correlationId, typeId, key, labelText, registrationId);
      r.1.Created? || r.1.FoundExisting?
    ensures var r := OnAddStaticCounter(d, clientId, correlationId, typeId, key, labelText, registrationId);
      var r2 := OnAddStaticCounter(r.0, clientId, correlationId2, typeId, key2, labelText2, registrationId);
      && r2.1 == FoundExisting(r.1.counterId)
      && r2.0.slots == r.0.slots
      && r2.0.clients == r.0.clients
      && r2.0.responses == r.0.responses + [StaticCounter(correlationId2, r.1.counterId)]
  {
    var r := OnAddStaticCounter(d, clientId, correlationId, typeId, key, labelText, registrationId);
    var (d1, index) := GetOrAddClient(d, clientId);
    var id := r.1.counterId;
    assert ClientExists(r.0, clientId) by {
      assert r.0.clients == d1.clients;
      assert d1.clients[index].clientId == clientId;
    }
    assert GetOrAddClient(r.0, clientId).0 == r.0;
    var found := FindByTypeIdAndRegistrationId(r.0.slots, typeId, registrationId);
    if r.1.Created? {
      assert forall j :: 0 <= j < |r.0.slots| && j != id ==>
        !MatchesTypeAndRegistration(r.0.slots[j], typeId, registrationId);
      assert MatchesTypeAndRegistration(r.0.slots[id], typeId, registrationId);
      assert found == id;
    } else {
      assert r.0.slots == d1.slots;
      assert found == id;
    }
  }

  /**
   A static counter conflicting with a non-static one leaves an existing
   client's state exactly as it was.
   */
  lemma StaticConflictChangesNothing(
    d: Driver, clientId: int, correlationId: int, typeId: int, key: seq<bv8>, labelText: string, registrationId: int)
    requires ClientExists(d, clientId)
    requires OnAddStaticCounter(d, clientId, correlationId, typeId, key, labelText, registrationId).1.NonStaticConflict?
    ensures OnAddStaticCounter(d, clientId, correlationId, typeId, key, labelText, registrationId).0 == d
  {
  }

  /**
   Adding a counter and then removing it by the registration id it was
   given (its correlation id) restores the client's links exactly, reclaims
   the slot, and announces it unavailable under that registration id.
   */
  lemma AddThenRemoveCounter(
    d: Driver, clientId: int, correlationId: int, typeId: int, key: seq<bv8>, labelText: string, correlationId2: int)
    requires OnAddCounter(d, clientId, correlationId, typeId, key, labelText).1.Created?
    requires var (d1, index) := GetOrAddClient(d, clientId);
      forall k :: 0 <= k < |d1.clients[index].counterLinks| ==>
        d1.clients[index].counterLinks[k].registrationId != correlationId
    ensures var (d1, index) := GetOrAddClient(d, clientId);
      var a := OnAddCounter(d, clientId, correlationId, typeId, key, labelText);
      var id := a.1.counterId;
      var r := OnRemoveCounter(a.0, clientId, correlationId2, correlationId);
      && r.1 == Removed(id)
      && r.0.clients == d1.clients
      && r.0.slots[id].state == Reclaimed
      && r.0.responses == a.0.responses + [OperationSucceeded(correlationId2), UnavailableCounter(correlationId, id)]
  {
    var (d1, index) := GetOrAddClient(d, clientId);
    var a := OnAddCounter(d, clientId, correlationId, typeId, key, labelText);
    var id := a.1.counterId;
    FindClientSeesOnlyIds(a.0.clients, d1.clients, clientId);
    var links := d1.clients[index].counterLinks;
    var link := CounterLink(correlationId, id);
    assert a.0.clients[index].counterLinks == links + [link];
    assert (links + [link])[|links|] == link;
    assert forall k :: 0 <= k < |links| ==> (links + [link])[k] == links[k];
    assert FindLink(links + [link], correlationId) == |links|;
    RemoveLastAppended(links, link);
    assert a.0.clients[index := a.0.clients[index].(counterLinks := links)] == d1.clients;
  }

  /**
   A counter a client added is released with the client: deleting that
   client reclaims the slot, and the last response is its UnavailableCounter.
   */
  lemma AddedCounterReleasedOnClientDelete(
    d: Driver, clientId: int, correlationId: int, typeId: int, key: seq<bv8>, labelText: string)
    requires OnAddCounter(d, clientId, correlationId, typeId, key, labelText).1.Created?
    ensures var a := OnAddCounter(d, clientId, correlationId, typeId, key, labelText);
      var i := FindClient(a.0.clients, clientId);
      var id := a.1.counterId;
      && 0 <= i
      && ClientDelete(a.0, i).slots[id].state == Reclaimed
      && var responses := ClientDelete(a.0, i).responses;
      && |responses| > 0
      && responses[|responses| - 1] == UnavailableCounter(correlationId, id)
  {
    var (d1, index) := GetOrAddClient(d, clientId);
    var a := OnAddCounter(d, clientId, correlationId, typeId, key, labelText);
    FindClientSeesOnlyIds(a.0.clients, d1.clients, clientId);
    var links := a.0.clients[index].counterLinks;
    assert links[|links| - 1] == CounterLink(correlationId, a.1.counterId);
  }

  /**
   A static counter belongs to no client: whichever client is later torn
   down, the counter stays ALLOCATED with its record untouched.
   */
  lemma StaticCounterSurvivesClientDelete(
    d: Driver, clientId: int, correlationId: int, typeId: int, key: seq<bv8>, labelText: string,
    registrationId: int, i: int)
    requires WellFormed(d)
    requires OnAddStaticCounter(d, clientId, correlationId, typeId, key, labelText, registrationId).1.Created?
    requires 0 <= i < |OnAddStaticCounter(d, clientId, correlationId, typeId, key, labelText, registrationId).0.clients|
    ensures var r := OnAddStaticCounter(d, clientId, correlationId, typeId, key, labelText, registrationId);
      var id := r.1.counterId;
      && ClientDelete(r.0, i).slots[id] == r.0.slots[id]
      && ClientDelete(r.0, i).slots[id].state == Allocated
  {
    var (d1, index) := GetOrAddClient(d, clientId);
    var r := OnAddStaticCounter(d, clientId, correlationId, typeId, key, labelText, registrationId);
    var id := r.1.counterId;
    var c := d1.clients[i];
    assert ClientWellFormed(d1.slots, c);
    forall k | 0 <= k < |c.counterLinks| ensures c.counterLinks[k].counterId != id {
    }
    assert c.heartbeatCounterId != id;
  }
}
