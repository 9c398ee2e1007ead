/**
  The newsletter-subscription workflow: a request validates the address and,
  unless it is already subscribed, mails a confirmation link carrying a
  signed token; redeeming the token within 180 seconds creates the subscriber
  unless one with that address exists by then. The state is the subscriber
  table and the outbox of mails sent so far; the clock and the secret key are
  parameters.
 */
module Subscription {
  import opened Wrappers
  import opened Entities
  import opened SignedTokens
  import opened SubscriberEmail
  import opened Authorization

  type Subscribers = seq<Subscriber>

  datatype State = State(subscribers: Subscribers, outbox: seq<Mail>)

  const SubscribeSubject: string := "Subscribe Request"

  /** Some subscriber row holds this address. */
  predicate IsSubscribed(subs: Subscribers, email: string) {
    exists i :: 0 <= i < |subs| && subs[i].email == email
  }

  /** No two subscriber rows share an id or an address. */
  predicate NoDuplicates(subs: Subscribers) {
    forall i, j :: 0 <= i < j < |subs| ==> subs[i].id != subs[j].id && subs[i].email != subs[j].email
  }

  /** How many subscriber rows hold this address. */
  function CountSubscribed(subs: Subscribers, email: string): (n: nat)
    ensures n <= |subs|
    ensures n == 0 <==> !IsSubscribed(subs, email)
  {
    if |subs| == 0 then 0
    else
      assert forall i :: 1 <= i < |subs| ==> subs[i] == subs[1..][i - 1];
      (if subs[0].email == email then 1 else 0) + CountSubscribed(subs[1..], email)
  }

  /** Without duplicates an address is held at most once. */
  lemma {:induction false} CountAtMostOne(subs: Subscribers, email: string)
    requires NoDuplicates(subs)
    ensures CountSubscribed(subs, email) <= 1
  {
    if |subs| > 0 {
      CountAtMostOne(subs[1..], email);
      if subs[0].email == email {
        assert forall i :: 0 <= i < |subs[1..]| ==> subs[1..][i] == subs[i + 1];
        assert !IsSubscribed(subs[1..], email);
      }
    }
  }

  /** One past the largest subscriber id in use (1 when there are none). */
  function NextSubscriberId(subs: Subscribers): (id: int)
    ensures forall i :: 0 <= i < |subs| ==> subs[i].id < id
  {
    if |subs| == 0 then 1
    else
      var rest := NextSubscriberId(subs[1..]);
      assert forall i :: 1 <= i < |subs| ==> subs[i] == subs[1..][i - 1];
      if subs[0].id + 1 > rest then subs[0].id + 1 else rest
  }

  /** The confirmation mail `send_subscriber_email` sends: one recipient, a link with a fresh token. */
  function ConfirmationMail(email: string, key: Key, now: int): (m: Mail)
    ensures m.recipients == [email] && m.attachment.None?
    ensures m.body.SubscribeLink? && VerifySubscribeToken(m.body.token, key, now) == Some(email)
  {
    Mail([email], SubscribeSubject, SubscribeLink(MintSubscribeToken(email, key, now)), None)
  }

  datatype RequestOutcome = InvalidEmail | AlreadySubscribed | ConfirmationSent

  /**
    `subscribe_request`: an invalid address and an address already subscribed
    both leave everything unchanged; a valid new address gets exactly one
    confirmation mail and the subscriber table stays as it was.
   */
  function SubscribeRequest(st: State, email: string, key: Key, now: int): (r: (State, RequestOutcome))
    ensures !ValidateSubscriberEmail(email) ==> r == (st, InvalidEmail)
    ensures ValidateSubscriberEmail(email) && IsSubscribed(st.subscribers, email) ==> r == (st, AlreadySubscribed)
    ensures ValidateSubscriberEmail(email) && !IsSubscribed(st.subscribers, email) ==>
      && r.1 == ConfirmationSent
      && r.0.subscribers == st.subscribers
      && |r.0.outbox| == |st.outbox| + 1
      && r.0.outbox[..|st.outbox|] == st.outbox
      && r.0.outbox[|st.outbox|].recipients == [email]
      && r.0.outbox[|st.outbox|].body == SubscribeLink(MintSubscribeToken(email, key, now))
  {
    if ValidateSubscriberEmail(email) then
      if exists i :: 0 <= i < |st.subscribers| && st.subscribers[i].email == email then (st, AlreadySubscribed)
      else (st.(outbox := st.outbox + [ConfirmationMail(email, key, now)]), ConfirmationSent)
    else (st, InvalidEmail)
  }

  datatype RedeemOutcome = Subscribed | InvalidOrExpiredToken

  /**
    `subscribe_token`: exactly one subscriber, carrying the token's address,
    is added when the token verifies and that address is not yet subscribed;
    in every other case nothing changes and the same "invalid or expired"
    response is given.
   */
  function SubscribeToken(st: State, token: Token, key: Key, now: int): (r: (State, RedeemOutcome))
    ensures r.1 == Subscribed <==>
      VerifySubscribeToken(token, key, now).Some?
      && !IsSubscribed(st.subscribers, VerifySubscribeToken(token, key, now).value)
    ensures r.1 == InvalidOrExpiredToken ==> r.0 == st
    ensures r.1 == Subscribed ==>
      && r.0.outbox == st.outbox
      && |r.0.subscribers| == |st.subscribers| + 1
      && r.0.subscribers[..|st.subscribers|] == st.subscribers
      && r.0.subscribers[|st.subscribers|].email == token.claims[EmailClaim]
      && r.0.subscribers[|st.subscribers|].subscribedAt == now
  {
    match VerifySubscribeToken(token, key, now)
    case None => (st, InvalidOrExpiredToken)
    case Some(email) =>
      if IsSubscribed(st.subscribers, email) then (st, InvalidOrExpiredToken)
      else
        var row := Subscriber(NextSubscriberId(st.subscribers), email, now);
        (st.(subscribers := st.subscribers + [row]), Subscribed)
  }

  /** Redemption never creates a duplicate row. */
  lemma SubscribeTokenKeepsNoDuplicates(st: State, token: Token, key: Key, now: int)
    requires NoDuplicates(st.subscribers)
    ensures NoDuplicates(SubscribeToken(st, token, key, now).0.subscribers)
  {
    var r := SubscribeToken(st, token, key, now);
    if r.1 == Subscribed {
      var subs := r.0.subscribers;
      var n := |st.subscribers|;
      forall i | 0 <= i < n
        ensures subs[i].id != subs[n].id && subs[i].email != subs[n].email
      {
        assert subs[i] == st.subscribers[i];
      }
    }
  }

  /** Redeeming a token that has just been redeemed is rejected and changes nothing. */
  lemma SecondRedemptionRejected(st: State, token: Token, key: Key, now: int, later: int)
    requires SubscribeToken(st, token, key, now).1 == Subscribed
    ensures var after := SubscribeToken(st, token, key, now).0;
      SubscribeToken(after, token, key, later) == (after, InvalidOrExpiredToken)
  {
    var after := SubscribeToken(st, token, key, now).0;
    assert after.subscribers[|st.subscribers|].email == token.claims[EmailClaim];
  }

  /**
    End to end: a request for a new valid address followed, within 180
    seconds, by redemption of the mailed token leaves exactly one subscriber
    with that address; redeeming the same token again is rejected.
   */
  lemma RequestThenRedeem(st: State, email: string, key: Key, now: int, later: int)
    requires NoDuplicates(st.subscribers)
    requires ValidateSubscriberEmail(email) && !IsSubscribed(st.subscribers, email)
    requires later - now <= SubscribeMaxAge
    ensures var mid := SubscribeRequest(st, email, key, now).0;
      var token := mid.outbox[|mid.outbox| - 1].body.token;
      var done := SubscribeToken(mid, token, key, later);
      && done.1 == Subscribed
      && CountSubscribed(done.0.subscribers, email) == 1
      && SubscribeToken(done.0, token, key, later).1 == InvalidOrExpiredToken
  {
    var mid := SubscribeRequest(st, email, key, now).0;
    var token := mid.outbox[|mid.outbox| - 1].body.token;
    SubscribeTokenRoundTrip(email, key, now, later);
    var done := SubscribeToken(mid, token, key, later);
    SubscribeTokenKeepsNoDuplicates(mid, token, key, later);
    CountAtMostOne(done.0.subscribers, email);
    assert done.0.subscribers[|st.subscribers|].email == email;
    SecondRedemptionRejected(mid, token, key, later, later);
  }

  // -------------------------------------------------------------- invariant

  /** The tokens this workflow has mailed out. */
  predicate Mailed(outbox: seq<Mail>, token: Token) {
    exists i :: 0 <= i < |outbox| && outbox[i].body == SubscribeLink(token)
  }

  /**
    The workflow's invariant: no duplicate subscribers, every subscriber's
    address passes the validator, and every subscription link mailed under
    the key carries such an address.
   */
  predicate Invariant(st: State, key: Key) {
    && NoDuplicates(st.subscribers)
    && (forall i :: 0 <= i < |st.subscribers| ==> ValidateSubscriberEmail(st.subscribers[i].email))
    && (forall i :: 0 <= i < |st.outbox| && st.outbox[i].body.SubscribeLink? ==>
          var t := st.outbox[i].body.token;
          t.Signed? && t.signer == key && EmailClaim in t.claims && ValidateSubscriberEmail(t.claims[EmailClaim]))
  }

  /** Requests keep the invariant. */
  lemma SubscribeRequestKeepsInvariant(st: State, email: string, key: Key, now: int)
    requires Invariant(st, key)
    ensures Invariant(SubscribeRequest(st, email, key, now).0, key)
  {
  }

  /**
    Redemptions keep the invariant, provided a token signed with the secret
    key can only be one this workflow mailed (the key is never disclosed).
   */
  lemma SubscribeTokenKeepsInvariant(st: State, token: Token, key: Key, now: int)
    requires Invariant(st, key)
    requires token.Signed? && token.signer == key ==> Mailed(st.outbox, token)
    ensures Invariant(SubscribeToken(st, token, key, now).0, key)
  {
    SubscribeTokenKeepsNoDuplicates(st, token, key, now);
    var r := SubscribeToken(st, token, key, now);
    if r.1 == Subscribed {
      var i :| 0 <= i < |st.outbox| && st.outbox[i].body == SubscribeLink(token);
      var n := |st.subscribers|;
      forall j | 0 <= j < |r.0.subscribers|
        ensures ValidateSubscriberEmail(r.0.subscribers[j].email)
      {
        if j < n {
          assert r.0.subscribers[j] == st.subscribers[j];
        }
      }
    }
  }

  // ------------------------------------------------------- delete_subscriber

  /** Every subscriber row except the one with this id. */
  function RemoveSubscriber(subs: Subscribers, id: int): (r: Subscribers)
    ensures forall s :: s in r <==> s in subs && s.id != id
  {
    if |subs| == 0 then []
    else if subs[0].id == id then RemoveSubscriber(subs[1..], id)
    else [subs[0]] + RemoveSubscriber(subs[1..], id)
  }

  /**
    `delete_subscriber`, behind the flag-only decorator: a missing id is a 404
    (`Failure`), otherwise that row is removed.
   */
  function DeleteSubscriber(subs: Subscribers, actor: Actor, id: int): (r: Gated<Result<Subscribers, ()>>)
    ensures r.ServerError? <==> actor.Anonymous?
    ensures r.Forbidden? <==> actor.Authenticated? && actor.admin == Some(false)
    ensures r.Handled? && r.response.Failure? <==>
      r.Handled? && forall i :: 0 <= i < |subs| ==> subs[i].id != id
    ensures r.Handled? && r.response.Success? ==>
      forall s :: s in r.response.value <==> s in subs && s.id != id
  {
    FlagOnlyAdminRequired(actor, (k: int) =>
      if exists i :: 0 <= i < |subs| && subs[i].id == k then Success(RemoveSubscriber(subs, k)) else Failure(()),
      id)
  }
}
