/**
 Checks the conductor makes before it lets a new publication or subscription
 share an existing channel endpoint or publication: socket buffer lengths,
 the receiver window against the receive buffer, the parameters of an
 existing publication, and the ATS (transport security) setting.
 Sizes are unsigned 64-bit values in the driver; here they are `nat`.
 */
module ChannelValidation {
  import opened Int32
  import opened Results

  const SIZE_T_MODULUS: int := 0x1_0000_0000_0000_0000

  /** A signed 32-bit value converted to `size_t`: negative values wrap to large ones. */
  function SizeOf(x: I32): (r: nat)
    ensures x >= 0 ==> r == x
    ensures x < 0 ==> r >= SIZE_T_MODULUS - 0x8000_0000
    ensures r < SIZE_T_MODULUS && (r - x) % SIZE_T_MODULUS == 0
  {
    if x < 0 then x + SIZE_T_MODULUS else x
  }

  // ---------------------------------------------------------------------------
  // Socket buffer lengths
  // ---------------------------------------------------------------------------

  /** A requested buffer length that disagrees with the one already in use on the endpoint. */
  datatype BufferLengthError = BufferLengthMismatch(
    paramName: string, requested: nat, existing: nat, existingIsOsDefault: bool)

  /**
   A channel may leave a buffer length unset (0) or repeat the existing
   endpoint's value; anything else is refused. The error says whether the
   existing endpoint uses the OS default.
   */
  function ValidateChannelBufferLength(paramName: string, newLength: nat, existingLength: nat)
    : (r: Outcome<BufferLengthError>)
    ensures r.Pass? <==> newLength == 0 || newLength == existingLength
    ensures r.Fail? ==> r.error == BufferLengthMismatch(paramName, newLength, existingLength, existingLength == 0)
  {
    if 0 != newLength && newLength != existingLength then
      Fail(BufferLengthMismatch(paramName, newLength, existingLength, 0 == existingLength))
    else
      Pass
  }

  /** Validation accepts exactly the lengths that leave the endpoint's length as it is. */
  lemma BufferLengthAcceptedIffEndpointUnchanged(paramName: string, newLength: nat, existingLength: nat)
    ensures ValidateChannelBufferLength(paramName, newLength, existingLength).Pass? <==>
      (if newLength == 0 then existingLength else newLength) == existingLength
  {
  }

  // ---------------------------------------------------------------------------
  // Receiver window against the receive socket buffer
  // ---------------------------------------------------------------------------

  /**
   The initial window did not fit the receive buffer. `reportedRcvbuf` is the
   buffer length the error message prints; `osDefault` says the endpoint had
   no explicit length; `withExistingChannel` selects the message that also
   names the existing channel.
   */
  datatype WindowError = InitialWindowTooLarge(
    initialWindow: nat, reportedRcvbuf: nat, osDefault: bool, withExistingChannel: bool)

  /** The receive buffer length in force: the endpoint's own, or the OS default when it has none. */
  function EffectiveRcvbuf(endpointSocketRcvbuf: nat, osDefaultSocketRcvbuf: nat): nat {
    if endpointSocketRcvbuf != 0 then endpointSocketRcvbuf else osDefaultSocketRcvbuf
  }

  /**
   The receiver window must not exceed the receive buffer in force. As
   written, the OS-default error reports the endpoint's length (always 0
   there) rather than the OS default it was compared with.
   */
  function ValidateInitialWindowForRcvbuf(
    initialWindowLength: nat, endpointSocketRcvbuf: nat, osDefaultSocketRcvbuf: nat, hasExistingChannel: bool)
    : (r: Outcome<WindowError>)
    ensures r.Pass? <==> initialWindowLength <= EffectiveRcvbuf(endpointSocketRcvbuf, osDefaultSocketRcvbuf)
    ensures r.Fail? ==>
      && r.error.initialWindow == initialWindowLength
      && (r.error.osDefault <==> endpointSocketRcvbuf == 0)
      && r.error.withExistingChannel == hasExistingChannel
  {
    if 0 != endpointSocketRcvbuf && endpointSocketRcvbuf < initialWindowLength then
      Fail(InitialWindowTooLarge(initialWindowLength, endpointSocketRcvbuf, false, hasExistingChannel))
    else if 0 == endpointSocketRcvbuf && osDefaultSocketRcvbuf < initialWindowLength then
      Fail(InitialWindowTooLarge(initialWindowLength, endpointSocketRcvbuf, true, hasExistingChannel))
    else
      Pass
  }

  /** The as-written OS-default error can report a buffer length that the window does not exceed. */
  lemma OsDefaultErrorReportsWrongBuffer()
    ensures var r := ValidateInitialWindowForRcvbuf(200, 0, 100, false);
      r.Fail? && r.error.reportedRcvbuf == 0 && r.error.reportedRcvbuf != EffectiveRcvbuf(0, 100)
  {
  }

  /** The same check, with the error reporting the buffer length it compared against. */
  function ValidateInitialWindowForRcvbufReportingCompared(
    initialWindowLength: nat, endpointSocketRcvbuf: nat, osDefaultSocketRcvbuf: nat, hasExistingChannel: bool)
    : (r: Outcome<WindowError>)
    ensures r.Pass? <==> initialWindowLength <= EffectiveRcvbuf(endpointSocketRcvbuf, osDefaultSocketRcvbuf)
    ensures r.Fail? ==>
      && r.error.reportedRcvbuf == EffectiveRcvbuf(endpointSocketRcvbuf, osDefaultSocketRcvbuf)
      && r.error.reportedRcvbuf < r.error.initialWindow
      && (r.error.osDefault <==> endpointSocketRcvbuf == 0)
    ensures r.Pass? <==> ValidateInitialWindowForRcvbuf(
      initialWindowLength, endpointSocketRcvbuf, osDefaultSocketRcvbuf, hasExistingChannel).Pass?
  {
    if 0 != endpointSocketRcvbuf && endpointSocketRcvbuf < initialWindowLength then
      Fail(InitialWindowTooLarge(initialWindowLength, endpointSocketRcvbuf, false, hasExistingChannel))
    else if 0 == endpointSocketRcvbuf && osDefaultSocketRcvbuf < initialWindowLength then
      Fail(InitialWindowTooLarge(initialWindowLength, osDefaultSocketRcvbuf, true, hasExistingChannel))
    else
      Pass
  }

  // ---------------------------------------------------------------------------
  // Joining an existing publication
  // ---------------------------------------------------------------------------

  /** The channel parameters a new publication asked for; each `has…` flag says the URI set it. */
  datatype PublicationParams = PublicationParams(
    hasSessionId: bool, sessionId: I32,
    hasMtuLength: bool, mtuLength: nat,
    hasTermLength: bool, termLength: nat,
    hasPosition: bool, initialTermId: I32, termId: I32, termOffset: nat)

  /** What the existing publication actually uses, from its log buffer metadata and position. */
  datatype ExistingPublication = ExistingPublication(
    sessionId: I32, mtuLength: I32, termLength: I32, initialTermId: I32, termId: I32, termOffset: nat)

  datatype PublicationField = SessionIdField | MtuLengthField | TermLengthField
                            | InitialTermIdField | TermIdField | TermOffsetField

  /** The order in which the fields are checked. */
  function CheckOrder(f: PublicationField): nat {
    match f
    case SessionIdField => 0
    case MtuLengthField => 1
    case TermLengthField => 2
    case InitialTermIdField => 3
    case TermIdField => 4
    case TermOffsetField => 5
  }

  /** A field agrees when the request leaves it unset or asks for what the publication has. */
  predicate FieldAgrees(p: PublicationParams, e: ExistingPublication, f: PublicationField) {
    match f
    case SessionIdField => !p.hasSessionId || p.sessionId == e.sessionId
    case MtuLengthField => !p.hasMtuLength || p.mtuLength == SizeOf(e.mtuLength)
    case TermLengthField => !p.hasTermLength || p.termLength == SizeOf(e.termLength)
    case InitialTermIdField => !p.hasPosition || p.initialTermId == e.initialTermId
    case TermIdField => !p.hasPosition || p.termId == e.termId
    case TermOffsetField => !p.hasPosition || p.termOffset == e.termOffset
  }

  /** The first disagreeing field, with the existing and the requested value. */
  datatype PublicationMismatch = PublicationMismatch(field: PublicationField, existing: int, requested: int)

  /**
   A new publication may join an existing one only when every parameter it
   set agrees; otherwise the first disagreeing field, in check order, is
   reported.
   */
  function ConfirmPublicationMatch(p: PublicationParams, e: ExistingPublication)
    : (r: Outcome<PublicationMismatch>)
    ensures r.Pass? <==> forall f :: FieldAgrees(p, e, f)
    ensures r.Fail? ==> !FieldAgrees(p, e, r.error.field)
    ensures r.Fail? ==> forall f :: CheckOrder(f) < CheckOrder(r.error.field) ==> FieldAgrees(p, e, f)
  {
    if p.hasSessionId && p.sessionId != e.sessionId then
      assert !FieldAgrees(p, e, SessionIdField);
      Fail(PublicationMismatch(SessionIdField, e.sessionId, p.sessionId))
    else if p.hasMtuLength && p.mtuLength != SizeOf(e.mtuLength) then
      assert !FieldAgrees(p, e, MtuLengthField);
      Fail(PublicationMismatch(MtuLengthField, e.mtuLength, p.mtuLength))
    else if p.hasTermLength && p.termLength != SizeOf(e.termLength) then
      assert !FieldAgrees(p, e, TermLengthField);
      Fail(PublicationMismatch(TermLengthField, e.termLength, p.termLength))
    else if p.hasPosition && p.initialTermId != e.initialTermId then
      assert !FieldAgrees(p, e, InitialTermIdField);
      Fail(PublicationMismatch(InitialTermIdField, e.initialTermId, p.initialTermId))
    else if p.hasPosition && p.termId != e.termId then
      assert !FieldAgrees(p, e, TermIdField);
      Fail(PublicationMismatch(TermIdField, e.termId, p.termId))
    else if p.hasPosition && p.termOffset != e.termOffset then
      assert !FieldAgrees(p, e, TermOffsetField);
      Fail(PublicationMismatch(TermOffsetField, e.termOffset, p.termOffset))
    else
      Pass
  }

  /** A request that sets nothing joins any publication. */
  lemma UnconstrainedRequestAlwaysMatches(p: PublicationParams, e: ExistingPublication)
    requires !p.hasSessionId && !p.hasMtuLength && !p.hasTermLength && !p.hasPosition
    ensures ConfirmPublicationMatch(p, e).Pass?
  {
    assert forall f :: FieldAgrees(p, e, f);
  }

  // ---------------------------------------------------------------------------
  // ATS setting
  // ---------------------------------------------------------------------------

  datatype AtsStatus = AtsDefault | AtsEnabled | AtsDisabled

  datatype AtsError = AtsNotEnabled | AtsMismatch(existing: AtsStatus, requested: AtsStatus)

  /** The status the driver context implies for a channel that does not set one. */
  function ContextStatus(atsEnabled: bool): AtsStatus {
    if atsEnabled then AtsEnabled else AtsDisabled
  }

  /**
   Resolves a channel's ATS status against the driver context and checks it
   against an existing channel. Returns the channel's status afterwards (it is
   rewritten before the comparison, so also on a mismatch) and the outcome.
   */
  function UpdateAndCheckAtsStatus(atsEnabled: bool, status: AtsStatus, existing: Option<AtsStatus>)
    : (r: (AtsStatus, Outcome<AtsError>))
    ensures r.1 == Fail(AtsNotEnabled) <==> !atsEnabled && status == AtsEnabled
    ensures r.1 == Fail(AtsNotEnabled) ==> r.0 == status
    ensures r.1 != Fail(AtsNotEnabled) ==> r.0 != AtsDefault
    ensures r.1 != Fail(AtsNotEnabled) && status != AtsDefault ==> r.0 == status
    ensures r.1 != Fail(AtsNotEnabled) && status == AtsDefault ==> r.0 == ContextStatus(atsEnabled)
    ensures r.1.Pass? <==> !(!atsEnabled && status == AtsEnabled) && (existing.None? || existing.value == r.0)
  {
    if !atsEnabled && AtsEnabled == status then
      (status, Fail(AtsNotEnabled))
    else
      var resolved := if AtsDefault == status then ContextStatus(atsEnabled) else status;
      if existing.Some? && existing.value != resolved then
        (resolved, Fail(AtsMismatch(existing.value, resolved)))
      else
        (resolved, Pass)
  }

  /** Resolving an already resolved status changes nothing and gives the same verdict. */
  lemma AtsResolutionIsIdempotent(atsEnabled: bool, status: AtsStatus, existing: Option<AtsStatus>)
    ensures var r := UpdateAndCheckAtsStatus(atsEnabled, status, existing);
      UpdateAndCheckAtsStatus(atsEnabled, r.0, existing) == r
  {
  }

  /**
   Two channels that both leave ATS unset always agree: resolving the
   existing channel first and then the new one against it passes.
   */
  lemma UnsetAtsChannelsAgree(atsEnabled: bool)
    ensures var first := UpdateAndCheckAtsStatus(atsEnabled, AtsDefault, None);
      first.1.Pass? && UpdateAndCheckAtsStatus(atsEnabled, AtsDefault, Some(first.0)).1.Pass?
  {
  }
}
