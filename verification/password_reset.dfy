/**
  The password-reset flow. Minting and verifying the reset token belong to
  the user model, whose definitions are not part of this model, so both are
  parameters: `mint` gives the token for a user id, `verify` gives back the
  id a token names, or `None` when it is invalid or expired.
 */
module PasswordReset {
  import opened Wrappers
  import opened Entities
  import opened UserTable
  import opened AccountForms
  import AccountRoutes

  const ResetSubject: string := "Password Reset Request"

  /** The reset mail `send_reset_email` sends to `u`. */
  function ResetMail(u: User, mint: UserId -> string): (m: Mail)
    ensures m.recipients == [u.email] && m.body == ResetLink(mint(u.id)) && m.attachment.None?
  {
    Mail([u.email], ResetSubject, ResetLink(mint(u.id)), None)
  }

  datatype RequestOutcome = ResetMailSent(to: UserId) | RequestRejected(errors: set<FormError>) | NoUserCrash

  /**
    `reset_request`: a valid form sends one reset mail to the account holding
    the address. The route itself does not re-check that the query found a
    user; the form's validator already did, so the crash outcome is unreachable.
   */
  function ResetRequest(t: Table, outbox: seq<Mail>, f: RequestResetForm, isEmail: string -> bool,
                        mint: UserId -> string): (r: (seq<Mail>, RequestOutcome))
    ensures !r.1.NoUserCrash?
    ensures r.1.RequestRejected? <==> RequestResetErrors(t, f, isEmail) != {}
    ensures r.1.RequestRejected? ==> r.0 == outbox
    ensures r.1.ResetMailSent? ==>
      exists i :: 0 <= i < |t| && t[i].id == r.1.to && t[i].email == f.email
        && r.0 == outbox + [ResetMail(t[i], mint)]
  {
    var errs := RequestResetErrors(t, f, isEmail);
    if errs != {} then (outbox, RequestRejected(errs))
    else
      match ByEmail(t, f.email)
      case None => (outbox, NoUserCrash)
      case Some(u) => (outbox + [ResetMail(u, mint)], ResetMailSent(u.id))
  }

  datatype ResetOutcome = InvalidOrExpiredToken | ResetFormRejected(errors: set<FormError>) | PasswordUpdated(id: UserId)

  /**
    `reset_token`: when the token names no existing user nothing changes;
    otherwise, on a valid form, exactly that user's password hash is replaced
    by the hash of the new password.
   */
  function ResetToken(t: Table, token: string, verify: string -> Option<UserId>, f: ResetPasswordForm,
                      hash: string -> string): (r: (Table, ResetOutcome))
    ensures verify(token).None? ==> r == (t, InvalidOrExpiredToken)
    ensures r.1.InvalidOrExpiredToken? <==> verify(token).None? || !HasId(t, verify(token).value)
    ensures r.1.PasswordUpdated? <==>
      verify(token).Some? && HasId(t, verify(token).value) && ResetPasswordErrors(f) == {}
    ensures !r.1.PasswordUpdated? ==> r.0 == t
    ensures r.1.PasswordUpdated? ==>
      && r.1.id == verify(token).value
      && |r.0| == |t|
      && forall i :: 0 <= i < |t| ==>
        r.0[i] == if t[i].id == r.1.id then t[i].(passwordHash := hash(f.password)) else t[i]
  {
    match verify(token)
    case None => (t, InvalidOrExpiredToken)
    case Some(id) =>
      match ById(t, id)
      case None => (t, InvalidOrExpiredToken)
      case Some(_) =>
        var errs := ResetPasswordErrors(f);
        if errs != {} then (t, ResetFormRejected(errs))
        else (UpdateRow(t, id, (u: User) => u.(passwordHash := hash(f.password))), PasswordUpdated(id))
  }

  /**
    Tokens are not single-use: while `verify` still accepts a token, redeeming
    it again succeeds again (and sets the password again).
   */
  lemma ResetTokenReplayable(t: Table, token: string, verify: string -> Option<UserId>,
                             f: ResetPasswordForm, g: ResetPasswordForm, hash: string -> string)
    requires ResetToken(t, token, verify, f, hash).1.PasswordUpdated?
    requires ResetPasswordErrors(g) == {}
    ensures ResetToken(ResetToken(t, token, verify, f, hash).0, token, verify, g, hash).1.PasswordUpdated?
  {
    var t1 := ResetToken(t, token, verify, f, hash).0;
    var id := verify(token).value;
    var i :| 0 <= i < |t| && t[i].id == id;
    assert t1[i].id == id;
  }

  /** A reset keeps every id, username and email, so the table stays well formed. */
  lemma ResetTokenPreservesWellFormed(t: Table, token: string, verify: string -> Option<UserId>,
                                      f: ResetPasswordForm, hash: string -> string)
    requires WellFormed(t)
    ensures WellFormed(ResetToken(t, token, verify, f, hash).0)
  {
    var t1 := ResetToken(t, token, verify, f, hash).0;
    assert forall i :: 0 <= i < |t1| ==>
      t1[i].id == t[i].id && t1[i].username == t[i].username && t1[i].email == t[i].email;
  }

  /**
    End to end, with a hash that checks exactly its own password: after a
    successful reset to `p` the user logs in with `p`, and with no other password.
   */
  lemma ResetThenLogin(t: Table, token: string, verify: string -> Option<UserId>, p: string,
                       hash: string -> string, check: (string, string) -> bool,
                       isEmail: string -> bool, other: string)
    requires WellFormed(t)
    requires verify(token).Some? && HasId(t, verify(token).value)
    requires PasswordMinLength <= |p| <= PasswordMaxLength
    requires forall x, y :: check(hash(x), y) <==> x == y
    requires ById(t, verify(token).value).value.email != ""
    requires isEmail(ById(t, verify(token).value).value.email)
    requires other != p && other != ""
    ensures var t1 := ResetToken(t, token, verify, ResetPasswordForm(p, p), hash).0;
      var email := ById(t, verify(token).value).value.email;
      && AccountRoutes.Login(t1, LoginForm(email, p, false), isEmail, check) == AccountRoutes.LoggedIn(verify(token).value)
      && AccountRoutes.Login(t1, LoginForm(email, other, false), isEmail, check) == AccountRoutes.LoginFailed
  {
    var id := verify(token).value;
    var u := ById(t, id).value;
    var t1 := ResetToken(t, token, verify, ResetPasswordForm(p, p), hash).0;
    ResetTokenPreservesWellFormed(t, token, verify, ResetPasswordForm(p, p), hash);
    var k :| 0 <= k < |t| && t[k] == u;
    assert t1[k] == u.(passwordHash := hash(p));
    assert EmailTaken(t1, u.email);
    var found := ByEmail(t1, u.email).value;
    var j :| 0 <= j < |t1| && t1[j] == found;
    assert j == k;
    assert found.passwordHash == hash(p) && found.id == id;
    assert LoginErrors(LoginForm(u.email, p, false), isEmail) == {};
    assert LoginErrors(LoginForm(u.email, other, false), isEmail) == {};
  }
}
