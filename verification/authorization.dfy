/**
  The three `admin_required` decorators. The posts variant refuses an
  anonymous visitor before testing the flag; the users and newsletters
  variants only test `current_user.admin is False`, so a missing flag (`None`)
  is let through and an anonymous visitor, who has no `admin` attribute at
  all, makes the request fail with a server error. The decorators sit outside
  `login_required`, so they decide before any login check runs.
 */
module Authorization {
  import opened Wrappers
  import opened Entities

  /** What a gated request produces: the handler's own response, a 403, or a crash. */
  datatype Gated<R> = Handled(response: R) | Forbidden | ServerError

  /** `current_user.admin is False`: only an explicit `False` flag, never `None`. */
  predicate FlagIsFalse(actor: Actor)
    requires actor.Authenticated?
  {
    actor.admin == Some(false)
  }

  /**
    The posts decorator: 403 for an anonymous visitor or a user whose flag is
    `False`; otherwise the wrapped handler runs on the original arguments and
    its response is passed back unchanged.
   */
  function PostsAdminRequired<A, R>(actor: Actor, handler: A -> R, args: A): (r: Gated<R>)
    ensures !r.ServerError?
    ensures r.Forbidden? <==> actor.Anonymous? || actor.admin == Some(false)
    ensures r.Handled? ==> r.response == handler(args)
  {
    if actor.Anonymous? then Forbidden
    else if FlagIsFalse(actor) then Forbidden
    else Handled(handler(args))
  }

  /**
    The users and newsletters decorator: reading `admin` on an anonymous
    visitor fails; otherwise 403 exactly when the flag is `False`, and the
    handler's response unchanged in every other case, `None` included.
   */
  function FlagOnlyAdminRequired<A, R>(actor: Actor, handler: A -> R, args: A): (r: Gated<R>)
    ensures r.ServerError? <==> actor.Anonymous?
    ensures r.Forbidden? <==> actor.Authenticated? && actor.admin == Some(false)
    ensures r.Handled? ==> r.response == handler(args)
  {
    match actor
    case Anonymous => ServerError
    case Authenticated(_, _) =>
      if FlagIsFalse(actor) then Forbidden else Handled(handler(args))
  }

  /** For a logged-in user the two decorators always agree. */
  lemma GatesAgreeOnLoggedInUsers<A, R>(actor: Actor, handler: A -> R, args: A)
    requires actor.Authenticated?
    ensures PostsAdminRequired(actor, handler, args) == FlagOnlyAdminRequired(actor, handler, args)
  {
  }

  /** They differ only on an anonymous visitor: 403 from the posts variant, a crash from the other. */
  lemma GatesDifferOnAnonymous<A, R>(handler: A -> R, args: A)
    ensures PostsAdminRequired(Anonymous, handler, args) == Forbidden
    ensures FlagOnlyAdminRequired(Anonymous, handler, args) == ServerError
  {
  }

  /**
    The posts decorator is the flag-only decorator with the anonymous check
    added in front: it answers 403 where the other crashes, and never crashes.
   */
  lemma PostsGateRefusesInsteadOfCrashing<A, R>(actor: Actor, handler: A -> R, args: A)
    ensures PostsAdminRequired(actor, handler, args) ==
      if actor.Anonymous? then Forbidden else FlagOnlyAdminRequired(actor, handler, args)
    ensures FlagOnlyAdminRequired(actor, handler, args).ServerError? ==>
      PostsAdminRequired(actor, handler, args).Forbidden?
  {
  }

  /** A user whose flag was never set (`None`) passes both decorators. */
  lemma UnsetFlagPasses<A, R>(id: UserId, handler: A -> R, args: A)
    ensures PostsAdminRequired(Authenticated(id, None), handler, args) == Handled(handler(args))
    ensures FlagOnlyAdminRequired(Authenticated(id, None), handler, args) == Handled(handler(args))
  {
  }
}
