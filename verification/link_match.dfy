/**
 The predicates that decide whether a subscription link is interested in a
 receive endpoint's stream, a network publication (for spies) or an IPC
 publication. A link either names one session id, is a wildcard over all
 sessions, or is a response subscription (which never acts as a wildcard).
 */
module LinkMatch {
  import opened Int32

  /** The tag value meaning "this channel carries no tag". */
  const INVALID_TAG: int := -1

  /** The parts of a parsed UDP channel the predicates compare. */
  datatype UdpChannel = UdpChannel(tagId: int, canonicalForm: string)

  /**
   A subscription link. `endpoint` stands for the identity (address) of the
   receive channel endpoint the link is attached to; `spyChannel` is only
   meaningful for spy subscriptions.
   */
  datatype SubscriptionLink = SubscriptionLink(
    endpoint: int,
    streamId: I32,
    hasSessionId: bool,
    sessionId: I32,
    isResponse: bool,
    spyChannel: UdpChannel)

  datatype NetworkPublication = NetworkPublication(streamId: I32, sessionId: I32, channel: UdpChannel)

  datatype IpcPublication = IpcPublication(streamId: I32, sessionId: I32)

  /** A link accepts any session when it names none and is not a response subscription. */
  predicate IsWildcard(link: SubscriptionLink) {
    !link.hasSessionId && !link.isResponse
  }

  /** The link is a wildcard, or its session id is the given one. */
  function IsWildcardOrSessionIdMatch(link: SubscriptionLink, sessionId: I32): (r: bool)
    ensures IsWildcard(link) ==> r
    ensures !IsWildcard(link) ==> (r <==> sessionId == link.sessionId)
  {
    (!link.hasSessionId && !link.isResponse) || link.sessionId == sessionId
  }

  /** An exact match: same endpoint and stream, and the same session-id specification. */
  function NetworkSubscriptionLinkMatches(
    link: SubscriptionLink, endpoint: int, streamId: I32, hasSessionId: bool, sessionId: I32): (r: bool)
    ensures r ==> link.endpoint == endpoint && link.streamId == streamId && link.hasSessionId == hasSessionId
    ensures r && hasSessionId ==> link.sessionId == sessionId
    ensures r && !link.isResponse ==>
      NetworkSubscriptionLinkMatchesAllowingWildcard(link, endpoint, streamId, sessionId)
    ensures link.hasSessionId ==>
      (r <==> hasSessionId && NetworkSubscriptionLinkMatchesAllowingWildcard(link, endpoint, streamId, sessionId))
    ensures !link.hasSessionId ==>
      (r <==> !hasSessionId && link.endpoint == endpoint && link.streamId == streamId)
  {
    link.endpoint == endpoint
    && link.streamId == streamId
    && link.hasSessionId == hasSessionId
    && (!hasSessionId || link.sessionId == sessionId)
  }

  /** Same endpoint and stream, and the link either takes every session or names this one. */
  function NetworkSubscriptionLinkMatchesAllowingWildcard(
    link: SubscriptionLink, endpoint: int, streamId: I32, sessionId: I32): (r: bool)
    ensures r ==> link.endpoint == endpoint && link.streamId == streamId
    ensures link.endpoint == endpoint && link.streamId == streamId && IsWildcard(link) ==> r
    ensures link.hasSessionId ==> (r ==> sessionId == link.sessionId)
    ensures link.endpoint == endpoint && link.streamId == streamId && link.sessionId == sessionId ==> r
    ensures !IsWildcard(link) ==>
      (r <==> link.endpoint == endpoint && link.streamId == streamId && link.sessionId == sessionId)
  {
    link.endpoint == endpoint
    && link.streamId == streamId
    && IsWildcardOrSessionIdMatch(link, sessionId)
  }

  /**
   `strncmp(x, y, n) == 0` on NUL-terminated text: the first `n` characters
   agree, or they agree up to and including a NUL.
   */
  predicate StrnEqual(x: string, y: string, n: nat)
    decreases n
  {
    if n == 0 then true
    else if |x| == 0 || |y| == 0 then |x| == |y|
    else x[0] == y[0] && (x[0] == '\0' || StrnEqual(x[1..], y[1..], n - 1))
  }

  predicate NoNul(s: string) {
    forall i :: 0 <= i < |s| ==> s[i] != '\0'
  }

  /** On text without embedded NULs, comparing |x| characters of equally long strings is equality. */
  lemma {:induction false} StrnEqualIsEquality(x: string, y: string)
    requires |x| == |y| && NoNul(x)
    ensures StrnEqual(x, y, |x|) <==> x == y
    decreases |x|
  {
    if |x| > 0 {
      assert NoNul(x[1..]) by {
        forall i | 0 <= i < |x[1..]| ensures x[1..][i] != '\0' {
          assert x[1..][i] == x[i + 1];
        }
      }
      StrnEqualIsEquality(x[1..], y[1..]);
      if x[0] == y[0] && x[1..] == y[1..] {
        assert x == [x[0]] + x[1..] && y == [y[0]] + y[1..];
      }
    }
  }

  /** Both channels carry the same valid tag. */
  predicate IsSameChannelTag(spy: UdpChannel, publication: UdpChannel) {
    INVALID_TAG != spy.tagId && spy.tagId == publication.tagId
  }

  /** The publication's canonical channel form is the spy's, compared as the driver does. */
  predicate SameCanonicalForm(spy: UdpChannel, publication: UdpChannel) {
    |publication.canonicalForm| == |spy.canonicalForm|
    && StrnEqual(publication.canonicalForm, spy.canonicalForm, |publication.canonicalForm|)
  }

  /** A spy subscription sees a network publication on its stream by tag, or by session and canonical channel. */
  function SpySubscriptionLinkMatches(link: SubscriptionLink, publication: NetworkPublication): (r: bool)
    ensures r ==> link.streamId == publication.streamId
    ensures link.streamId == publication.streamId && IsSameChannelTag(link.spyChannel, publication.channel) ==> r
    ensures r && !IsSameChannelTag(link.spyChannel, publication.channel) ==>
      IsWildcardOrSessionIdMatch(link, publication.sessionId)
      && SameCanonicalForm(link.spyChannel, publication.channel)
    ensures (&& link.streamId == publication.streamId
             && IsWildcardOrSessionIdMatch(link, publication.sessionId)
             && SameCanonicalForm(link.spyChannel, publication.channel)) ==> r
  {
    var isSameChannelTag := IsSameChannelTag(link.spyChannel, publication.channel);
    link.streamId == publication.streamId
    && (isSameChannelTag
        || (IsWildcardOrSessionIdMatch(link, publication.sessionId)
            && SameCanonicalForm(link.spyChannel, publication.channel)))
  }

  /** Untagged channels without NULs: a spy matches exactly when stream, session and canonical form agree. */
  lemma UntaggedSpyMatch(link: SubscriptionLink, publication: NetworkPublication)
    requires link.spyChannel.tagId == INVALID_TAG
    requires NoNul(publication.channel.canonicalForm)
    ensures SpySubscriptionLinkMatches(link, publication) <==>
      link.streamId == publication.streamId
      && IsWildcardOrSessionIdMatch(link, publication.sessionId)
      && publication.channel.canonicalForm == link.spyChannel.canonicalForm
  {
    if |publication.channel.canonicalForm| == |link.spyChannel.canonicalForm| {
      StrnEqualIsEquality(publication.channel.canonicalForm, link.spyChannel.canonicalForm);
    }
  }

  /** An IPC subscription matches on stream and session, like a network link on its own endpoint. */
  function SubscriptionLinkMatchesIpcPublication(link: SubscriptionLink, publication: IpcPublication): (r: bool)
    ensures r <==> NetworkSubscriptionLinkMatchesAllowingWildcard(
      link, link.endpoint, publication.streamId, publication.sessionId)
    ensures IsWildcard(link) ==> (r <==> link.streamId == publication.streamId)
  {
    link.streamId == publication.streamId && IsWildcardOrSessionIdMatch(link, publication.sessionId)
  }
}
