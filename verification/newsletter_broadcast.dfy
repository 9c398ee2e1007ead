/**
  Broadcasting a newsletter: one message per subscriber, each carrying the
  newsletter's subject, text and stored file, then the newsletter is marked
  as emailed. The mail connection and the reading of the file are not
  modelled; a message names the file it attaches.
 */
module NewsletterBroadcast {
  import opened Wrappers
  import opened Entities
  import opened StoredFiles

  /** The attachment of every broadcast message: the stored file, under its stored name. */
  function NewsletterAttachment(n: Newsletter): (a: Attachment)
    ensures a.filename == n.newsletterFile
    ensures a.source == FilePath(NewsletterFiles, n.newsletterFile)
    ensures a.contentType == n.newsletterFile + "/pdf"
  {
    Attachment(n.newsletterFile, n.newsletterFile + "/pdf", FilePath(NewsletterFiles, n.newsletterFile))
  }

  /** The message sent to one subscriber. */
  function BroadcastMessage(n: Newsletter, s: Subscriber): Mail {
    Mail([s.email], n.subject, Text(n.message), Some(NewsletterAttachment(n)))
  }

  /**
    `send_newsletter_email`: with no subscribers nothing is sent, the
    newsletter is untouched and the result is false; otherwise one message
    goes to each subscriber, in table order and addressed to that subscriber
    alone, after which `date_email` is set to `now` and the result is true.
   */
  method SendNewsletterEmail(n: Newsletter, subscribers: seq<Subscriber>, now: int)
    returns (sent: bool, messages: seq<Mail>, n': Newsletter)
    ensures sent <==> |subscribers| > 0
    ensures !sent ==> messages == [] && n' == n
    ensures sent ==> n' == n.(dateEmail := Some(now))
    ensures |messages| == |subscribers|
    ensures forall i :: 0 <= i < |messages| ==>
      && messages[i].recipients == [subscribers[i].email]
      && messages[i].subject == n.subject
      && messages[i].body == Text(n.message)
      && messages[i].attachment == Some(NewsletterAttachment(n))
    ensures forall s :: s in subscribers ==> exists m :: m in messages && m.recipients == [s.email]
    ensures forall m :: m in messages ==> exists s :: s in subscribers && m.recipients == [s.email]
  {
    if |subscribers| == 0 {
      return false, [], n;
    }
    messages := [];
    var k := 0;
    while k < |subscribers|
      invariant 0 <= k <= |subscribers|
      invariant |messages| == k
      invariant forall i :: 0 <= i < k ==> messages[i] == BroadcastMessage(n, subscribers[i])
    {
      messages := messages + [BroadcastMessage(n, subscribers[k])];
      k := k + 1;
    }
    n' := n.(dateEmail := Some(now));
    sent := true;
    BroadcastReachesEverySubscriber(subscribers, messages);
  }

  /** The broadcast's messages reach exactly the subscribers' addresses. */
  lemma BroadcastReachesEverySubscriber(subscribers: seq<Subscriber>, messages: seq<Mail>)
    requires |messages| == |subscribers|
    requires forall i :: 0 <= i < |messages| ==> messages[i].recipients == [subscribers[i].email]
    ensures forall s :: s in subscribers ==> exists m :: m in messages && m.recipients == [s.email]
    ensures forall m :: m in messages ==> exists s :: s in subscribers && m.recipients == [s.email]
  {
    forall s | s in subscribers
      ensures exists m :: m in messages && m.recipients == [s.email]
    {
      var i :| 0 <= i < |subscribers| && subscribers[i] == s;
      assert messages[i] in messages;
    }
    forall m | m in messages
      ensures exists s :: s in subscribers && m.recipients == [s.email]
    {
      var i :| 0 <= i < |messages| && messages[i] == m;
      assert subscribers[i] in subscribers;
    }
  }
}
