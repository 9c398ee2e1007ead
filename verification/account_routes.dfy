/**
  The account handlers of the users blueprint, reduced to their effect on the
  user table, the files they remove and the kind of response they give:
  registration, account update, login, account deletion and the two
  administrator-status switches. Password hashing and checking are parameters.
 */
module AccountRoutes {
  import opened Wrappers
  import opened Entities
  import opened UserTable
  import opened AccountForms
  import opened StoredFiles
  import opened Authorization

  // ---------------------------------------------------------------- register

  datatype RegisterOutcome = Registered(id: UserId) | RegisterRejected(errors: set<FormError>)

  /**
    `register`: on a valid form a new row is appended with a fresh id, the
    hashed password and the default picture; otherwise nothing changes. The
    schema default of the administrator flag is not visible, so the flag a new
    row starts with is a parameter.
   */
  function Register(t: Table, f: RegistrationForm, isEmail: string -> bool, hash: string -> string,
                    initialFlag: Option<bool>): (r: (Table, RegisterOutcome))
    ensures r.1.Registered? <==> RegistrationErrors(t, f, isEmail) == {}
    ensures r.1.RegisterRejected? ==> r.0 == t && r.1.errors == RegistrationErrors(t, f, isEmail)
    ensures r.1.Registered? ==>
      && !HasId(t, r.1.id)
      && r.0 == t + [User(r.1.id, f.username, f.email, hash(f.password), DefaultProfilePic, initialFlag)]
  {
    var errs := RegistrationErrors(t, f, isEmail);
    if errs == {} then
      var id := NextId(t);
      (t + [User(id, f.username, f.email, hash(f.password), DefaultProfilePic, initialFlag)], Registered(id))
    else (t, RegisterRejected(errs))
  }

  /** The form's uniqueness checks are what keeps the table free of duplicate usernames and emails. */
  lemma RegisterPreservesWellFormed(t: Table, f: RegistrationForm, isEmail: string -> bool,
                                    hash: string -> string, initialFlag: Option<bool>)
    requires WellFormed(t)
    ensures WellFormed(Register(t, f, isEmail, hash, initialFlag).0)
  {
    var r := Register(t, f, isEmail, hash, initialFlag);
    if r.1.Registered? {
      var t' := r.0;
      forall i | 0 <= i < |t|
        ensures t'[i].id != t'[|t|].id && t'[i].username != t'[|t|].username && t'[i].email != t'[|t|].email
      {
        assert t'[i] == t[i];
      }
    }
  }

  // ------------------------------------------------------------------ account

  /** An uploaded file: the client's file name and the random stem it will be stored under. */
  datatype Upload = Upload(filename: string, stem: string)

  datatype AccountOutcome = AccountLoginRedirect | AccountUpdated | AccountRejected(errors: set<FormError>)

  /** The row update a valid account form applies; `newPic` is the stored name of an uploaded picture. */
  function AccountUpdater(f: UpdateAccountForm, newPic: Option<string>): User -> User {
    (u: User) => u.(username := f.username, email := f.email,
                    profilePic := if newPic.Some? then newPic.value else u.profilePic)
  }

  /** The stored name of the uploaded picture, if any. */
  function NewPicture(upload: Option<Upload>): (name: Option<string>)
    requires upload.Some? ==> IsRandomStem(upload.value.stem)
    ensures upload.None? ==> name.None?
    ensures upload.Some? ==> name == Some(StoredName(upload.value.filename, upload.value.stem))
  {
    match upload
    case None => None
    case Some(u) => Some(SavePicture(u.filename, "profile", u.stem).path.name)
  }

  /**
    `account` (login required): on a valid form the current user's username
    and email are replaced and, when a picture was uploaded, the old one is
    removed unless it is the default and the new one stored; nothing else changes.
   */
  function UpdateAccount(t: Table, actor: Actor, f: UpdateAccountForm, upload: Option<Upload>,
                         isEmail: string -> bool): (r: (Table, seq<FilePath>, AccountOutcome))
    requires upload.Some? ==> IsRandomStem(upload.value.stem)
    ensures actor.Anonymous? ==> r == (t, [], AccountLoginRedirect)
    ensures actor.Authenticated? && !HasId(t, actor.id) ==> r == (t, [], AccountLoginRedirect)
    ensures actor.Authenticated? && HasId(t, actor.id) ==>
      (r.2.AccountUpdated? <==> UpdateAccountErrors(t, ById(t, actor.id).value, f, isEmail) == {})
    ensures r.2.AccountUpdated? ==> actor.Authenticated? && HasId(t, actor.id)
    ensures r.2.AccountRejected? ==>
      && actor.Authenticated? && HasId(t, actor.id)
      && r.2.errors == UpdateAccountErrors(t, ById(t, actor.id).value, f, isEmail)
      && r.2.errors != {}
    ensures !r.2.AccountUpdated? ==> r.0 == t && r.1 == []
    ensures r.2.AccountUpdated? ==>
      && |r.0| == |t|
      && forall i :: 0 <= i < |t| && t[i].id != actor.id ==> r.0[i] == t[i]
    ensures r.2.AccountUpdated? ==> forall i :: 0 <= i < |t| && t[i].id == actor.id ==>
      r.0[i].username == f.username && r.0[i].email == f.email
      && r.0[i].id == t[i].id && r.0[i].passwordHash == t[i].passwordHash && r.0[i].admin == t[i].admin
    ensures r.2.AccountUpdated? ==> forall i :: 0 <= i < |t| && t[i].id == actor.id ==>
      r.0[i].profilePic ==
        (if upload.Some? then StoredName(upload.value.filename, upload.value.stem) else t[i].profilePic)
    ensures r.2.AccountUpdated? && upload.None? ==> r.1 == []
    ensures r.2.AccountUpdated? && upload.Some? ==>
      r.1 == OptionToSeq(DeletePicture(ById(t, actor.id).value.profilePic, "profile"))
  {
    match actor
    case Anonymous => (t, [], AccountLoginRedirect)
    case Authenticated(id, _) =>
      match ById(t, id)
      case None => (t, [], AccountLoginRedirect)
      case Some(me) =>
        var errs := UpdateAccountErrors(t, me, f, isEmail);
        if errs != {} then (t, [], AccountRejected(errs))
        else
          var removed := if upload.Some? then OptionToSeq(DeletePicture(me.profilePic, "profile")) else [];
          (UpdateRow(t, id, AccountUpdater(f, NewPicture(upload))), removed, AccountUpdated)
  }

  /** The update form's self-exempting uniqueness checks keep the table well formed. */
  lemma UpdateAccountPreservesWellFormed(t: Table, actor: Actor, f: UpdateAccountForm, upload: Option<Upload>,
                                         isEmail: string -> bool)
    requires upload.Some? ==> IsRandomStem(upload.value.stem)
    requires WellFormed(t)
    ensures WellFormed(UpdateAccount(t, actor, f, upload, isEmail).0)
  {
    var r := UpdateAccount(t, actor, f, upload, isEmail);
    if r.2.AccountUpdated? {
      var me := ById(t, actor.id).value;
      var k :| 0 <= k < |t| && t[k] == me;
      var update := AccountUpdater(f, NewPicture(upload));
      forall j | 0 <= j < |t| && j != k
        ensures update(t[k]).username != t[j].username && update(t[k]).email != t[j].email
      {
      }
      UpdateRowPreservesWellFormed(t, k, update);
    }
  }

  // -------------------------------------------------------------------- login

  datatype LoginOutcome = LoggedIn(id: UserId) | LoginFailed | LoginFormRejected(errors: set<FormError>)

  /**
    `login`: with a valid form, the user holding the address is logged in
    when the password checks against the stored hash; otherwise the attempt
    fails. The session the login creates is not modelled.
   */
  function Login(t: Table, f: LoginForm, isEmail: string -> bool, check: (string, string) -> bool): (r: LoginOutcome)
    ensures r.LoginFormRejected? <==> LoginErrors(f, isEmail) != {}
    ensures r.LoggedIn? <==>
      && LoginErrors(f, isEmail) == {} && EmailTaken(t, f.email)
      && check(ByEmail(t, f.email).value.passwordHash, f.password)
    ensures r.LoggedIn? ==> exists i :: 0 <= i < |t| && t[i].id == r.id && t[i].email == f.email
  {
    var errs := LoginErrors(f, isEmail);
    if errs != {} then LoginFormRejected(errs)
    else
      match ByEmail(t, f.email)
      case None => LoginFailed
      case Some(u) => if check(u.passwordHash, f.password) then LoggedIn(u.id) else LoginFailed
  }

  // -------------------------------------------------------------- delete_user

  datatype DeleteOutcome = DeleteLoginRedirect | DeleteNotFound | DeletedByOther | DeletedSelf | DeleteForbidden

  /** The post pictures removed with a user: every non-default picture of the user's posts. */
  function PostPictureRemovals(posts: seq<Post>, id: UserId): (files: seq<FilePath>)
    ensures forall f :: f in files <==>
      exists p :: p in posts && p.authorId == id && p.postPic != DefaultPostPic && f == FilePath(PostPics, p.postPic)
  {
    if |posts| == 0 then []
    else
      var p := posts[0];
      var rest := PostPictureRemovals(posts[1..], id);
      assert forall q :: q in posts <==> q == p || q in posts[1..];
      (if p.authorId == id then OptionToSeq(DeletePicture(p.postPic, "post")) else []) + rest
  }

  /**
    `delete_user` (login required, no administrator check): the target row is
    removed together with its non-default profile picture and post pictures.
    Deleting someone else is reported as an administrator deletion; deleting
    oneself also logs the actor out.
   */
  function DeleteUser(t: Table, posts: seq<Post>, actor: Actor, userId: UserId): (r: (Table, seq<FilePath>, DeleteOutcome))
    ensures actor.Anonymous? ==> r == (t, [], DeleteLoginRedirect)
    ensures actor.Authenticated? && !HasId(t, userId) ==> r == (t, [], DeleteNotFound)
    ensures actor.Authenticated? && HasId(t, userId) ==>
      && r.0 == RemoveRow(t, userId)
      && r.1 == OptionToSeq(DeletePicture(ById(t, userId).value.profilePic, "profile"))
                + PostPictureRemovals(posts, userId)
      && (r.2 == DeletedByOther <==> actor.id != userId)
      && (r.2 == DeletedSelf <==> actor.id == userId)
  {
    match actor
    case Anonymous => (t, [], DeleteLoginRedirect)
    case Authenticated(me, _) =>
      match ById(t, userId)
      case None => (t, [], DeleteNotFound)
      case Some(u) =>
        var removed := OptionToSeq(DeletePicture(u.profilePic, "profile")) + PostPictureRemovals(posts, userId);
        (RemoveRow(t, userId), removed, if me != userId then DeletedByOther else DeletedSelf)
  }

  /** Any logged-in user, whatever the flag, can delete any existing account. */
  lemma DeleteNeedsNoAdmin(t: Table, posts: seq<Post>, me: UserId, flag: Option<bool>, userId: UserId)
    requires HasId(t, userId)
    ensures !HasId(DeleteUser(t, posts, Authenticated(me, flag), userId).0, userId)
    ensures DeleteUser(t, posts, Authenticated(me, flag), userId).2 in {DeletedByOther, DeletedSelf}
  {
  }

  /** Deletion never removes a default picture. */
  lemma DeleteKeepsDefaultPictures(t: Table, posts: seq<Post>, actor: Actor, userId: UserId)
    ensures forall f :: f in DeleteUser(t, posts, actor, userId).1 ==>
      f != FilePath(ProfilePics, DefaultProfilePic) && f != FilePath(PostPics, DefaultPostPic)
  {
  }

  /** Concretely: a user whose flag is `False` deletes another user's account. */
  lemma NonAdminDeletesAnotherUser()
    ensures var alice := User(1, "alice", "alice@example.com", "h1", DefaultProfilePic, Some(true));
      var bob := User(2, "bobby", "bob@example.com", "h2", DefaultProfilePic, Some(false));
      DeleteUser([alice, bob], [], Authenticated(2, Some(false)), 1) == ([bob], [], DeletedByOther)
  {
    var alice := User(1, "alice", "alice@example.com", "h1", DefaultProfilePic, Some(true));
    var bob := User(2, "bobby", "bob@example.com", "h2", DefaultProfilePic, Some(false));
    var t := [alice, bob];
    assert HasId(t, 1) by { assert t[0].id == 1; }
    var u := ById(t, 1).value;
    assert u == alice;
    assert DeletePicture(u.profilePic, "profile") == None;
    assert PostPictureRemovals([], 1) == [];
    assert RemoveRow(t, 1) == [bob] by {
      assert t[1..] == [bob];
      assert [bob][1..] == [];
    }
    var r := DeleteUser(t, [], Authenticated(2, Some(false)), 1);
    assert r.0 == [bob];
    assert r.1 == [];
    assert r.2 == DeletedByOther;
  }

  /**
    `delete_user` with the check its administrator branch implies, using the
    same notion of administrator as the `admin_required` decorators: an actor
    whose flag is not `False` (`True` or unset). Another user's account is
    removed only by such an actor; anyone logged in may still remove their own.
   */
  function DeleteUserAdminChecked(t: Table, posts: seq<Post>, actor: Actor, userId: UserId): (r: (Table, seq<FilePath>, DeleteOutcome))
    ensures r.2 == DeleteForbidden <==>
      actor.Authenticated? && actor.id != userId && actor.admin == Some(false)
    ensures r.2 == DeleteForbidden ==> r.0 == t && r.1 == []
    ensures r.2 == DeletedByOther ==> actor.Authenticated? && actor.admin != Some(false)
    ensures r.0 != t ==>
      && actor.Authenticated? && HasId(t, userId)
      && (actor.id == userId || actor.admin != Some(false))
    ensures actor.Authenticated? && actor.id == userId && HasId(t, userId) ==>
      r.2 == DeletedSelf && !HasId(r.0, userId)
    ensures actor.Authenticated? && actor.admin != Some(false) && HasId(t, userId) ==>
      r.0 == RemoveRow(t, userId)
  {
    if actor.Authenticated? && actor.id != userId && actor.admin == Some(false) then (t, [], DeleteForbidden)
    else DeleteUser(t, posts, actor, userId)
  }

  /**
    The check changes the route's behaviour exactly on the requests it was
    meant to stop: a logged-in user whose flag is `False` deleting someone else.
   */
  lemma AdminCheckChangesOnlyForeignDeletes(t: Table, posts: seq<Post>, actor: Actor, userId: UserId)
    ensures DeleteUserAdminChecked(t, posts, actor, userId) == DeleteUser(t, posts, actor, userId) <==>
      actor.Anonymous? || actor.id == userId || actor.admin != Some(false)
  {
  }

  // ------------------------------------------------ make_user_admin / make_admin_user

  /**
    The administrator-status switches behind the flag-only decorator: the
    handler looks the target up (404 when absent) and sets its flag.
   */
  function ChangeAdminStatus(t: Table, actor: Actor, userId: UserId, flag: bool): (r: Gated<Result<Table, ()>>)
    ensures r.ServerError? <==> actor.Anonymous?
    ensures r.Forbidden? <==> actor.Authenticated? && actor.admin == Some(false)
    ensures r.Handled? ==> r.response == SetAdmin(t, userId, flag)
  {
    FlagOnlyAdminRequired(actor, (id: UserId) => SetAdmin(t, id, flag), userId)
  }

  /** `make_user_admin`. */
  function MakeUserAdmin(t: Table, actor: Actor, userId: UserId): (r: Gated<Result<Table, ()>>)
    ensures r.ServerError? <==> actor.Anonymous?
    ensures r.Forbidden? <==> actor.Authenticated? && actor.admin == Some(false)
    ensures r.Handled? ==> (r.response.Failure? <==> !HasId(t, userId))
    ensures actor.Authenticated? && actor.admin != Some(false) && HasId(t, userId) ==>
      r.Handled? && r.response.Success?
    ensures r.Handled? && r.response.Success? ==>
      && |r.response.value| == |t|
      && forall i :: 0 <= i < |t| ==>
        r.response.value[i] == (if t[i].id == userId then t[i].(admin := Some(true)) else t[i])
  {
    ChangeAdminStatus(t, actor, userId, true)
  }

  /** `make_admin_user`. */
  function MakeAdminUser(t: Table, actor: Actor, userId: UserId): (r: Gated<Result<Table, ()>>)
    ensures r.ServerError? <==> actor.Anonymous?
    ensures r.Forbidden? <==> actor.Authenticated? && actor.admin == Some(false)
    ensures r.Handled? ==> (r.response.Failure? <==> !HasId(t, userId))
    ensures actor.Authenticated? && actor.admin != Some(false) && HasId(t, userId) ==>
      r.Handled? && r.response.Success?
    ensures r.Handled? && r.response.Success? ==>
      && |r.response.value| == |t|
      && forall i :: 0 <= i < |t| ==>
        r.response.value[i] == (if t[i].id == userId then t[i].(admin := Some(false)) else t[i])
  {
    ChangeAdminStatus(t, actor, userId, false)
  }

  /** The table a gated status change leaves behind. */
  function TableAfter(t: Table, r: Gated<Result<Table, ()>>): Table {
    if r.Handled? && r.response.Success? then r.response.value else t
  }

  /** A user whose flag is `False` gets a 403 and the target's flag is untouched. */
  lemma NonAdminCannotChangeStatus(t: Table, me: UserId, userId: UserId, flag: bool)
    ensures ChangeAdminStatus(t, Authenticated(me, Some(false)), userId, flag) == Forbidden
    ensures TableAfter(t, ChangeAdminStatus(t, Authenticated(me, Some(false)), userId, flag)) == t
  {
  }

  /** Applying the same status change twice leaves the same table as applying it once. */
  lemma ChangeAdminStatusIdempotent(t: Table, actor: Actor, userId: UserId, flag: bool)
    ensures var once := TableAfter(t, ChangeAdminStatus(t, actor, userId, flag));
      TableAfter(once, ChangeAdminStatus(once, actor, userId, flag)) == once
  {
    if HasId(t, userId) && actor.Authenticated? && actor.admin != Some(false) {
      SetAdminIdempotent(t, userId, flag);
    }
  }
}
