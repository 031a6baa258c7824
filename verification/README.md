# Aeron media driver conductor: counters and clients

This project is a Dafny model of the part of Aeron's C media driver conductor
(`aeron_driver_conductor.c`) that manages clients and the counters they
register, together with the small rules in the same file that the conductor
applies to channels and publications.

The conductor is modelled as a functional state machine. A `Driver` value has:

- a fixed-capacity counters table. Each counter id has a record: state UNUSED,
  ALLOCATED or RECLAIMED, type id, registration id, owner id, key, label and
  value;
- the client list. Each client has its id, its heartbeat counter, its
  liveness timeout, its end-of-life and closed-by-command flags, and its
  counter links. A counter link is a (registration id, counter id) pair;
- the responses broadcast to clients: CounterReady, StaticCounter,
  UnavailableCounter, OperationSucceeded, ClientTimeout and Error;
- the cached clock and the client-timeouts counter.

Each command is a pure function from a `Driver` to a new `Driver`. Handlers
also return an explicit outcome: Created, FoundExisting, Removed,
NonStaticConflict, NoSuchCounter, NoFreeSlot or ClientNotAdded.

The counters manager and counters reader are not defined in the conductor. The
model gives the operations the conductor calls abstract behaviour:

- allocate takes the lowest UNUSED slot, or returns -1 when none is left;
- free marks the slot RECLAIMED;
- find-by-type-id-and-registration-id returns the lowest ALLOCATED counter id
  with that type id and registration id, or NULL_COUNTER_ID (-1). The
  client's counter tests expect the first-allocated counter to win.

Modules:

- `Int32`: wrapping 32-bit addition and subtraction.
- `Results`: `Option` and `Outcome`.
- `SeqUtil`: the driver's unordered array removal.
- `Counters`: the counters table and the manager and reader operations.
- `Conductor`: clients, the counter commands, liveness, client teardown and
  command dispatch.
- `SessionIds`: picking a session id for a new publication, skipping the
  reserved range.
- `LinkMatch`: the subscription-link matching predicates.
- `ChannelValidation`: the buffer-length and receive-window checks, the
  existing-publication match and ATS reconciliation.
- `Tether`: the RESTING count of a subscribable's tetherable positions.

All paths below are relative to the repository root. `C` stands for
`aeron-driver/src/main/c/aeron_driver_conductor.c` in the prose. The table
spells the path out.

## Model

| member | source | states |
|---|---|---|
| Counters.Allocate | aeron-driver/src/main/c/aeron_driver_conductor.c:5730-5733 | Fails (-1, table unchanged) exactly when no slot is UNUSED. Otherwise takes the lowest UNUSED slot and makes it ALLOCATED with the given type, key and label, a zero value and no registration or owner id. No other slot changes. |
| Counters.Stamp | aeron-driver/src/main/c/aeron_driver_conductor.c:5735-5739 | Writes a counter's registration id and owner id and changes nothing else. |
| Counters.SetValue | aeron-driver/src/main/c/aeron_driver_conductor.c:1156-1157 | Writes a counter's value and changes nothing else. |
| Counters.Free | aeron-driver/src/main/c/aeron_driver_conductor.c:5775 | Makes a counter RECLAIMED and keeps the rest of its record. Other slots are untouched. An id outside the table changes nothing. |
| Counters.FindByTypeIdAndRegistrationId | aeron-client/src/test/cpp_wrapper/CountersTest.cpp:160-162 | Returns -1 exactly when no ALLOCATED record has the type id and registration id. Otherwise returns the lowest matching ALLOCATED counter id. |
| Counters.FreedCounterIsNotFound | aeron-driver/src/main/c/aeron_driver_conductor.c:5806-5808 | A freed counter is never found again, even though its type id and registration id are still stored: the lookup never returns its id. |
| Counters.FreedOnlyMatchIsNotFound | aeron-driver/src/main/c/aeron_driver_conductor.c:5806-5808 | Freeing the only counter with a type id and registration id makes the lookup return NULL_COUNTER_ID. |
| Conductor.FindClient | aeron-driver/src/main/c/aeron_driver_conductor.c:1103-1117 | Returns -1 exactly when no client has the id. Otherwise returns a client with that id, and no later client has it (the scan runs from the end). |
| Conductor.FindClientSeesOnlyIds | aeron-driver/src/main/c/aeron_driver_conductor.c:1103-1117 | The lookup result depends only on the client ids. |
| Conductor.LivenessTimeoutMs | aeron-driver/src/main/c/aeron_driver_conductor.c:1158-1159 | The liveness timeout is at least 1 ms. Below 1 ms configured it is exactly 1 ms; at or above 1 ms it is the configured nanoseconds rounded down to whole milliseconds. |
| Conductor.GetOrAddClient | aeron-driver/src/main/c/aeron_driver_conductor.c:1119-1179 | A known client is returned and nothing changes. A new client gets the lowest UNUSED slot as its heartbeat counter. That counter's registration id and owner id are the client id and its value is the cached time. The client is appended with no links, and CounterReady(client id, heartbeat) is broadcast. With no free slot nothing changes and the result is -1. The returned index is what FindClient then finds. Well-formedness, including distinct counter references, is preserved. |
| Conductor.OnTimeEvent | aeron-driver/src/main/c/aeron_driver_conductor.c:1181-1198 | A client whose heartbeat is no older than its timeout is left alone. An expired client reaches end of life. If it did not close itself, ClientTimeout is broadcast and the timeouts counter goes up by one; otherwise the counter is kept. In both cases UnavailableCounter for the heartbeat is broadcast last. No other client, no counter, the cached time and the configured timeout do not change. Well-formedness is preserved. |
| Conductor.OnClientKeepalive | aeron-driver/src/main/c/aeron_driver_conductor.c:4842-4853 | A known client's heartbeat record becomes the same record with the cached time as value. No other slot, the clients, the responses, the cached time, the timeouts counter and the configured timeout do not change. An unknown client is ignored. Well-formedness is preserved. |
| Conductor.OnClientClose | aeron-driver/src/main/c/aeron_driver_conductor.c:5861-5873 | A known client is marked closed by command and its heartbeat record becomes the same record with value 0. No other slot, no other client, the responses, the cached time, the timeouts counter and the configured timeout do not change. An unknown client is ignored. Well-formedness is preserved. |
| Conductor.CloseThenTimeEventRetiresQuietly | aeron-driver/src/main/c/aeron_driver_conductor.c:1181-1198 | After a close, a liveness check past the timeout retires the client with no ClientTimeout and no change to the timeouts counter. Only the heartbeat is announced unavailable. |
| Conductor.FreeLinkedCounters | aeron-driver/src/main/c/aeron_driver_conductor.c:1368-1373 | Every linked counter becomes RECLAIMED and keeps the rest of its record. Counters that are not linked are untouched. |
| Conductor.ClientDelete | aeron-driver/src/main/c/aeron_driver_conductor.c:1360-1437 | UnavailableCounter is broadcast for every counter link, in link order. Each of those counters and the heartbeat counter keeps its record with state RECLAIMED, and every other counter is untouched. The client is left with id -1, heartbeat -1 and empty link lists. No other client changes, and neither do the cached time, the timeouts counter and the configured timeout. |
| Conductor.OnAddCounter | aeron-driver/src/main/c/aeron_driver_conductor.c:5709-5757 | After get-or-add-client, a success allocates an UNUSED slot and records the command's correlation id as registration id and the client as owner. It appends exactly one link (correlation id, counter id) to that client, leaves the other clients alone and broadcasts CounterReady(correlation id, counter id). Without a free slot the state is left as get-or-add-client made it. When the client could not be added, nothing changes. Well-formedness is preserved. |
| Conductor.FindLink | aeron-driver/src/main/c/aeron_driver_conductor.c:5766-5771 | Returns the first link with the registration id, or -1 exactly when there is none. |
| Conductor.OnRemoveCounter | aeron-driver/src/main/c/aeron_driver_conductor.c:5759-5793 | Succeeds exactly when the client exists and holds a link with the registration id. A success broadcasts OperationSucceeded and then UnavailableCounter, frees the counter of the FIRST such link and removes that link by moving the client's last link into its place: the link multiset loses one copy of it. Other clients, the client's other fields, the cached time, the timeouts counter and the configured timeout are unchanged. A failure changes nothing. Well-formedness is preserved. |
| Conductor.OnAddStaticCounter | aeron-driver/src/main/c/aeron_driver_conductor.c:5795-5859 | An ALLOCATED counter with the type id and registration id and no owner is reused: only a StaticCounter response is added. One with an owner is a conflict and the state is left as get-or-add-client made it. With no match, an allocated UNUSED slot gets the caller's registration id and no owner. It is linked to no client and StaticCounter is broadcast. Well-formedness is preserved. |
| Conductor.OnCommand | aeron-driver/src/main/c/aeron_driver_conductor.c:3530-3646 | The counters table, the clients and the other driver fields are those the handler produced. The responses are the handler's plus at most one more. Responses only grow, and some new response carries the command's correlation id. The last new response is an Error with the command's correlation id and the outcome's error code exactly when the handler failed. |
| Conductor.HandleResponds | aeron-driver/src/main/c/aeron_driver_conductor.c:3643-3646 | Every handler only appends responses. On success it has answered the command with a response that is not an error. |
| Conductor.AddCounterResponds | aeron-driver/src/main/c/aeron_driver_conductor.c:5751 | Add-counter only appends responses. It succeeds exactly when it creates a counter, and then its last response is CounterReady(correlation id, new counter id). |
| Conductor.RemoveCounterResponds | aeron-driver/src/main/c/aeron_driver_conductor.c:5772 | Remove-counter only appends responses. On success, the first new response is OperationSucceeded(correlation id). |
| Conductor.StaticCounterResponds | aeron-driver/src/main/c/aeron_driver_conductor.c:5857 | Add-static-counter only appends responses. It succeeds exactly when it creates or reuses a counter, and then its last response is StaticCounter(correlation id, that counter id). |
| Conductor.GetOrAddClientExtends | aeron-driver/src/main/c/aeron_driver_conductor.c:1119-1179 | Client registration only appends responses. |
| Conductor.FirstClientOnFreshDriver | aeron-driver/src/main/c/aeron_driver_conductor.c:1119-1179 | A driver with a fresh table and no clients is well formed. Its first client takes counter 0 as heartbeat, is the only client, is announced by a single CounterReady and leaves the driver well formed; with no slots it is refused and nothing changes. |
| Conductor.AppendClientKeepsDistinct | aeron-driver/src/main/c/aeron_driver_conductor.c:1119-1179 | Registering a client whose only reference is an UNUSED slot keeps every counter reference distinct. |
| Conductor.AppendLinkKeepsDistinct | aeron-driver/src/main/c/aeron_driver_conductor.c:5730-5748 | Linking a newly allocated UNUSED slot to a client keeps every counter reference distinct. |
| Conductor.RemoveLinkKeepsWellFormed | aeron-driver/src/main/c/aeron_driver_conductor.c:5766-5781 | Removing one link by moving the last link into its place and freeing its counter keeps every client's references ALLOCATED and distinct: the freed id was referred to by that link alone. |
| Conductor.AllocationKeepsClient | aeron-driver/src/main/c/aeron_driver_conductor.c:5730-5733 | Allocating an UNUSED slot leaves every well-formed client well-formed. |
| Conductor.StaticCounterIsIdempotent | aeron-client/src/test/cpp_wrapper/CountersTest.cpp:193-207 | Repeating a successful add-static-counter with the same type id and registration id returns the same counter. It allocates nothing, leaves the table and the clients as they were, and only adds StaticCounter for the new correlation id. |
| Conductor.StaticConflictChangesNothing | aeron-driver/src/main/c/aeron_driver_conductor.c:5808-5820 | For a known client, a conflict with a non-static counter leaves the whole state unchanged. |
| Conductor.AddThenRemoveCounter | aeron-driver/src/main/c/aeron_driver_conductor.c:5709-5793 | Removing a just-added counter by its correlation id restores the client list exactly and leaves the slot RECLAIMED. The removal broadcasts OperationSucceeded and then UnavailableCounter(correlation id, counter id). |
| Conductor.KeepaliveDefersTimeout | aeron-driver/src/main/c/aeron_driver_conductor.c:4842-4853 | After a keepalive, a liveness check leaves the client alone exactly up to the cached time plus its timeout, and retires it at any later time. |
| Conductor.AddedCounterReleasedOnClientDelete | aeron-driver/src/main/c/aeron_driver_conductor.c:1368-1373 | Deleting the client that added a counter reclaims that counter. The last response is UnavailableCounter(correlation id, counter id). |
| Conductor.StaticCounterSurvivesClientDelete | aeron-driver/src/main/c/aeron_driver_conductor.c:5836-5848 | A freshly allocated static counter is referenced by no client. Deleting any client leaves its record unchanged and ALLOCATED. |
| SeqUtil.FastUnorderedRemove | aeron-driver/src/main/c/aeron_driver_conductor.c:5778-5780 | The length drops by one and the multiset loses exactly the removed element. Elements at other positions are kept, and the last element moves into the gap. |
| SeqUtil.MoveLastOverMultiset | aeron-driver/src/main/c/aeron_driver_conductor.c:5778-5780 | Copying the last element over position i and dropping the end removes one copy of the element that was at i. |
| SeqUtil.RemoveLastAppended | aeron-driver/src/main/c/aeron_driver_conductor.c:5778-5780 | Removing the element just appended gives back the original sequence. |
| Int32.Wrap | aeron-driver/src/main/c/aeron_driver_conductor.c:1211 | The result is a 32-bit value congruent to the input modulo 2^32. It equals the input whenever the input is already in range. |
| Int32.AddWrap | aeron-driver/src/main/c/aeron_driver_conductor.c:1216 | 32-bit wrapping addition: congruent to the true sum, and equal to it when no overflow occurs. |
| Int32.SubWrap | aeron-driver/src/main/c/aeron_driver_conductor.c:1224 | 32-bit wrapping subtraction: congruent to the true difference, and equal to it when no overflow occurs. |
| Int32.SubWrapOfAddWrap | aeron-driver/src/main/c/aeron_driver_conductor.c:1224 | The wrapping offset of base + k from base is k, for every base and k. |
| Int32.AddOneMoves | aeron-driver/src/main/c/aeron_driver_conductor.c:1216 | Adding one with wrapping never returns the same value. It gives a + 1, or the minimum after the maximum. |
| SessionIds.NextSessionId | aeron-driver/src/main/c/aeron_driver_conductor.c:1205-1212 | A stored candidate outside the reserved range is returned as is. One inside the range gives high + 1, wrapping to the minimum. Unless the range covers every id, the result is never reserved. |
| SessionIds.UpdateNextSessionId | aeron-driver/src/main/c/aeron_driver_conductor.c:1214-1218 | Returns the given id and moves the candidate to id + 1, wrapping. The new candidate always differs from the id. The reserved range is kept. |
| SessionIds.TrackSessionIdOffset | aeron-driver/src/main/c/aeron_driver_conductor.c:1220-1230 | Sets exactly the bit at the id's wrapping offset from the candidate, and only when that offset lies inside the window. |
| SessionIds.TrackAll | aeron-driver/src/main/c/aeron_driver_conductor.c:1220-1230 | After tracking a list of ids, every in-window offset of an id is set. Every set bit was set before or is the offset of some tracked id. |
| SessionIds.FindFirstClear | aeron-driver/src/main/c/aeron_driver_conductor.c:1237 | Returns -1 exactly when every bit is set. Otherwise returns the first clear bit. |
| SessionIds.SpeculateNextSessionId | aeron-driver/src/main/c/aeron_driver_conductor.c:1232-1245 | Returns None exactly when the window is full. Otherwise returns the candidate plus the first clear offset, wrapping. That id's offset is the first clear bit. |
| SessionIds.SpeculatedIdIsFree | aeron-driver/src/main/c/aeron_driver_conductor.c:1220-1245 | The speculated id is never one of the tracked ids in use. |
| SessionIds.SpeculationFailsWhenWindowFull | aeron-driver/src/main/c/aeron_driver_conductor.c:1232-1245 | When tracked ids cover every offset of the window, speculation fails. |
| LinkMatch.IsWildcardOrSessionIdMatch | aeron-driver/src/main/c/aeron_driver_conductor.c:83-87 | A wildcard link (no session id, not a response subscription) matches every session. Any other link matches exactly its own session id. |
| LinkMatch.NetworkSubscriptionLinkMatches | aeron-driver/src/main/c/aeron_driver_conductor.c:70-81 | A link with a session id matches exactly a request that has one and matches it under the wildcard-allowing rule, which then needs the same session id. A link without a session id matches exactly a request without one on the same endpoint and stream. A match implies the wildcard-allowing match for a link that is not a response subscription. |
| LinkMatch.NetworkSubscriptionLinkMatchesAllowingWildcard | aeron-driver/src/main/c/aeron_driver_conductor.c:89-98 | A match implies the same endpoint and stream. A wildcard on that endpoint and stream always matches. A link that is not a wildcard matches exactly its own endpoint, stream and session id, and the same session id always matches. |
| LinkMatch.StrnEqualIsEquality | aeron-driver/src/main/c/aeron_driver_conductor.c:111-114 | On strings of equal length without NUL characters, the driver's bounded comparison is string equality. |
| LinkMatch.SpySubscriptionLinkMatches | aeron-driver/src/main/c/aeron_driver_conductor.c:100-116 | A spy match needs the same stream. With the same stream, the same valid channel tag always matches. Otherwise it matches exactly when the session is accepted and the canonical forms are equal. |
| LinkMatch.UntaggedSpyMatch | aeron-driver/src/main/c/aeron_driver_conductor.c:100-116 | For an untagged spy channel, a match happens exactly when the stream agrees, the session is accepted and the canonical forms are equal. |
| LinkMatch.SubscriptionLinkMatchesIpcPublication | aeron-driver/src/main/c/aeron_driver_conductor.c:118-123 | An IPC match is the wildcard-allowing network match on the link's own endpoint. For a wildcard it is just stream equality. |
| ChannelValidation.SizeOf | aeron-driver/src/main/c/aeron_driver_conductor.c:1265-1275 | The result is the unique value in [0, 2^64) congruent to the 32-bit input modulo 2^64. A non-negative value keeps its value; a negative one becomes at least 2^64 - 2^31. |
| ChannelValidation.ValidateChannelBufferLength | aeron-driver/src/main/c/aeron_driver_conductor.c:573-612 | Passes exactly when the new length is unset (0) or equals the existing one. The error records whether the existing length is the OS default. |
| ChannelValidation.BufferLengthAcceptedIffEndpointUnchanged | aeron-driver/src/main/c/aeron_driver_conductor.c:573-612 | Validation accepts exactly the requests that leave the endpoint's buffer length as it is. |
| ChannelValidation.ValidateInitialWindowForRcvbuf | aeron-driver/src/main/c/aeron_driver_conductor.c:509-571 | Passes exactly when the initial window fits the receive buffer in force: the endpoint's own length, or the OS default when it has none. The error records the window, whether the OS default applied and which message form is used. |
| ChannelValidation.OsDefaultErrorReportsWrongBuffer | aeron-driver/src/main/c/aeron_driver_conductor.c:543-566 | With window 200, no endpoint length and an OS default of 100, the error reports 0 as the receive buffer, not the 100 it was compared with. |
| ChannelValidation.ValidateInitialWindowForRcvbufReportingCompared | aeron-driver/src/main/c/aeron_driver_conductor.c:509-571 | Passes on exactly the same inputs as the as-written check. Its error reports the buffer length actually compared, which is smaller than the window. |
| ChannelValidation.ConfirmPublicationMatch | aeron-driver/src/main/c/aeron_driver_conductor.c:1247-1319 | Passes exactly when every parameter the request sets agrees with the existing publication. Otherwise it reports a disagreeing field such that every field checked before it agrees. |
| ChannelValidation.UnconstrainedRequestAlwaysMatches | aeron-driver/src/main/c/aeron_driver_conductor.c:1247-1319 | A request that sets no parameter joins any publication. |
| ChannelValidation.UpdateAndCheckAtsStatus | aeron-driver/src/main/c/aeron_driver_conductor.c:2396-2429 | Asking for ATS when the context has it disabled fails, and the status is kept. Otherwise a default status becomes the context's setting and an explicit status is kept. The check passes exactly when there is no existing channel or the existing channel has the resolved status. |
| ChannelValidation.AtsResolutionIsIdempotent | aeron-driver/src/main/c/aeron_driver_conductor.c:2396-2429 | Resolving an already resolved status changes nothing and gives the same verdict. |
| ChannelValidation.UnsetAtsChannelsAgree | aeron-driver/src/main/c/aeron_driver_conductor.c:2396-2429 | Two channels that both leave ATS unset always agree. |
| Tether.CountResting | aeron-driver/src/main/c/aeron_driver_conductor.c:3991-3994 | The number of RESTING positions never exceeds the number of positions. |
| Tether.CountsPartition | aeron-driver/src/main/c/aeron_driver_conductor.c:3991-3994 | RESTING and non-RESTING positions together are all the positions. |
| Tether.CountRestingUpdate | aeron-driver/src/main/c/aeron_driver_conductor.c:3969-3989 | Replacing one position changes the RESTING count by the difference of the two positions' weights. |
| Tether.AddPosition | aeron-driver/src/main/c/aeron_driver_conductor.c:3849-3874 | The new position is appended in ACTIVE state with the current time, and the RESTING count is unchanged. The count invariant is preserved. |
| Tether.SubscribableState | aeron-driver/src/main/c/aeron_driver_conductor.c:3969-3989 | Only the chosen position changes, taking the new state and time. The running RESTING count stays equal to the true count. |
| Tether.FindPosition | aeron-driver/src/main/c/aeron_driver_conductor.c:3878-3882 | Returns the first position with the counter id, or -1 exactly when there is none. |
| Tether.RemovePosition | aeron-driver/src/main/c/aeron_driver_conductor.c:3876-3896 | An absent counter id changes nothing. A present one removes the FIRST position with that id by moving the last position into its place: the length drops by one and the multiset loses that position. The RESTING count goes down by one exactly when that position was RESTING, and stays equal to the true count. |
| Tether.WorkingPositionCount | aeron-driver/src/main/c/aeron_driver_conductor.c:3991-3994 | Under the count invariant, the result is the number of positions that are not RESTING, and it is never negative. |
| Tether.HasWorkingPositions | aeron-driver/src/main/c/aeron_driver_conductor.c:3996-3999 | Under the count invariant, it holds exactly when some position is not RESTING. |
| Tether.WorkingExists | aeron-driver/src/main/c/aeron_driver_conductor.c:3996-3999 | There are fewer RESTING positions than positions exactly when some position is not RESTING. |

## Left out

- Transport and threading are not modelled: the command ring buffer, the
  broadcast transmitter, the asynchronous executor, the error log and the
  name resolver. Responses are an abstract list of events.
- Counter values and tether states are plain values. Atomic memory ordering
  is not modelled.
- UDP channel parsing, endpoint, publication and image creation, the sender
  and receiver proxies, and flow and congestion control are calls into code
  outside the conductor.
- Response buffer packing (the byte layout of responses) is not modelled.
- Memory allocation failures when arrays grow are not modelled: every array
  is assumed to grow. In the source such a failure after a counter has been
  allocated loses that counter. The model cannot reach that state.
- Counters manager internals are not modelled: linger before a RECLAIMED slot
  becomes UNUSED again, the free list, and key and label length limits. The
  manager does not reuse RECLAIMED slots in this model.
- Counters.Allocate: the manager's real choice of slot is not visible. The
  model takes the lowest UNUSED slot and leaves registration and owner id at
  NULL_VALUE until the conductor stamps them.
- Conductor.GetOrAddClient: the heartbeat counter's key and label are built
  by a helper outside the conductor. The model gives them an empty key and
  label. Its type id is the heartbeat type id 11, defined with the other
  counter type ids.
- Conductor.ClientDelete: releasing the client's publication links and its
  IPC, network and spy subscriptions is not modelled. Those resources belong
  to other parts of the conductor.
- Conductor.OnTimeEvent: timestamp + timeout is computed on unbounded
  integers. The source's 64-bit overflow is not modelled.
- Conductor.OnCommand: the error message text is not modelled, only the
  error code and correlation id. An error on add-counter or add-static-counter
  whose code the counters manager chose is shown as CountersManagerError.
- Conductor.OnCommand: a command shorter than its type's fixed layout
  (lines 3534-3536, 3591-3593, 3655-3660) is logged as malformed and gets no
  response. Commands are modelled already decoded, so that path and the
  decoding of the key and label lengths are not modelled.
- Tether.AddPosition: the optional add-position hook (line 3868), a call
  into user code, is not modelled.
- Tether.RemovePosition: the optional remove-position hook (line 3888), a
  call into user code, is not modelled.
- Conductor.OnAddStaticCounter: the read-back of the stamped registration and
  owner id (5850-5854) has no effect and is left out.
- Conductor.WellFormed: every client's heartbeat and linked counters are
  ALLOCATED and no counter id is referred to twice. The driver itself never
  states this. It is a model invariant, and client teardown, which leaves a
  retired client with heartbeat id -1, is outside it.
- Sweeping clients that reached end of life (the managed-resource check
  that calls delete) is not modelled as a loop. `Conductor.ClientDelete` is
  the per-client step.
- LinkMatch: channel endpoints are identified by an integer standing for
  their address.
- LinkMatch.SameCanonicalForm: strings are compared up to their length
  without a terminating NUL. The lemma about equality assumes no embedded
  NUL.
- SessionIds.SpeculateNextSessionId: the bit-set window is assumed to be at
  most 2^31 - 1 bits for the offset property. The driver sizes it far below
  that.
- ChannelValidation.ConfirmPublicationMatch: the error message text is not
  modelled. The error records the first disagreeing field with both values.
- The wrapping 32-bit helpers, the bit set and the unordered array removal
  are defined outside the conductor. They are modelled from how the
  conductor uses them.

## Findings

| source | as written | input that shows it | evidently intended | confidence | as-written member | corrected member |
|---|---|---|---|---|---|---|
| aeron-driver/src/main/c/aeron_driver_conductor.c:543-566 | When the endpoint has no receive buffer length and the OS default is smaller than the initial window, the error message prints `endpoint_socket_rcvbuf`, which is always 0 on that path. | Initial window 200, endpoint length 0, OS default 100: the check fails and the message reports so-rcvbuf=0 "(OS default)". | Report the OS default length (100) that the window was compared against. | medium, not executed | ChannelValidation.OsDefaultErrorReportsWrongBuffer | ChannelValidation.ValidateInitialWindowForRcvbufReportingCompared |
