/**
  The `user` table as a sequence of rows, with the lookups the handlers make
  (by id, by username, by email; a query's `.scalar()` yields the first
  matching row) and the row updates they perform. `WellFormed` is the
  uniqueness the schema promises: ids, usernames and emails are distinct.
 */
module UserTable {
  import opened Wrappers
  import opened Sequences
  import opened Entities

  type Table = seq<User>

  predicate UniqueIds(t: Table) {
    forall i, j :: 0 <= i < j < |t| ==> t[i].id != t[j].id
  }

  predicate UniqueUsernames(t: Table) {
    forall i, j :: 0 <= i < j < |t| ==> t[i].username != t[j].username
  }

  predicate UniqueEmails(t: Table) {
    forall i, j :: 0 <= i < j < |t| ==> t[i].email != t[j].email
  }

  predicate WellFormed(t: Table) {
    UniqueIds(t) && UniqueUsernames(t) && UniqueEmails(t)
  }

  /** Some row has this id. */
  predicate HasId(t: Table, id: UserId) {
    exists i :: 0 <= i < |t| && t[i].id == id
  }

  /** Some row holds this username. */
  predicate UsernameTaken(t: Table, name: string) {
    exists i :: 0 <= i < |t| && t[i].username == name
  }

  /** Some row holds this email. */
  predicate EmailTaken(t: Table, email: string) {
    exists i :: 0 <= i < |t| && t[i].email == email
  }

  /** `u` is the first row of `t` that satisfies `p`. */
  predicate FirstMatch(t: Table, p: User -> bool, u: User) {
    exists k :: 0 <= k < |t| && t[k] == u && forall i :: 0 <= i < k ==> !p(t[i])
  }

  /** The first row matching `p`, as `.scalar()` returns it. */
  function Scalar(t: Table, p: User -> bool): (r: Option<User>)
    ensures r.None? <==> forall i :: 0 <= i < |t| ==> !p(t[i])
    ensures r.Some? ==> r.value in t && p(r.value)
    ensures r.Some? ==> FirstMatch(t, p, r.value)
  {
    match FirstWhere(t, p)
    case None => None
    case Some(i) => Some(t[i])
  }

  /** `db.get_or_404(User, id)` / `User.query.get(id)`: the row with this id. */
  function ById(t: Table, id: UserId): (r: Option<User>)
    ensures r.Some? <==> HasId(t, id)
    ensures r.Some? ==> r.value in t && r.value.id == id
  {
    Scalar(t, (u: User) => u.id == id)
  }

  /** The row holding this email. */
  function ByEmail(t: Table, email: string): (r: Option<User>)
    ensures r.Some? <==> EmailTaken(t, email)
    ensures r.Some? ==> r.value in t && r.value.email == email
    ensures r.Some? ==> exists k :: 0 <= k < |t| && t[k] == r.value && forall i :: 0 <= i < k ==> t[i].email != email
  {
    Scalar(t, (u: User) => u.email == email)
  }

  /** The row holding this username. */
  function ByUsername(t: Table, name: string): (r: Option<User>)
    ensures r.Some? <==> UsernameTaken(t, name)
    ensures r.Some? ==> r.value in t && r.value.username == name
    ensures r.Some? ==> exists k :: 0 <= k < |t| && t[k] == r.value && forall i :: 0 <= i < k ==> t[i].username != name
  {
    Scalar(t, (u: User) => u.username == name)
  }

  /** The largest id in the table, or 0 when empty. */
  function MaxId(t: Table): (m: int)
    ensures forall i :: 0 <= i < |t| ==> t[i].id <= m
  {
    if |t| == 0 then 0
    else
      var rest := MaxId(t[1..]);
      assert forall i :: 1 <= i < |t| ==> t[i] == t[1..][i - 1];
      if t[0].id > rest then t[0].id else rest
  }

  /** The id the database assigns to a new row: one past the largest in use. */
  function NextId(t: Table): (id: UserId)
    ensures !HasId(t, id)
  {
    MaxId(t) + 1
  }

  /** Apply `f` to the row with this id, leaving every other row as it was. */
  function UpdateRow(t: Table, id: UserId, f: User -> User): (t': Table)
    ensures |t'| == |t|
    ensures forall i :: 0 <= i < |t| && t[i].id == id ==> t'[i] == f(t[i])
    ensures forall i :: 0 <= i < |t| && t[i].id != id ==> t'[i] == t[i]
  {
    seq(|t|, i requires 0 <= i < |t| => if t[i].id == id then f(t[i]) else t[i])
  }

  /** Every row except the one with this id, in order. */
  function RemoveRow(t: Table, id: UserId): (t': Table)
    ensures forall u :: u in t' <==> u in t && u.id != id
    ensures !HasId(t', id)
    ensures |t'| <= |t|
  {
    if |t| == 0 then []
    else if t[0].id == id then RemoveRow(t[1..], id)
    else [t[0]] + RemoveRow(t[1..], id)
  }

  /** Removing rows keeps every uniqueness property. */
  lemma {:induction false} RemoveRowPreservesWellFormed(t: Table, id: UserId)
    requires WellFormed(t)
    ensures WellFormed(RemoveRow(t, id))
  {
    if |t| > 0 {
      RemoveRowPreservesWellFormed(t[1..], id);
      var rest := RemoveRow(t[1..], id);
      if t[0].id != id {
        var t' := [t[0]] + rest;
        forall j | 0 < j < |t'|
          ensures t'[0].id != t'[j].id && t'[0].username != t'[j].username && t'[0].email != t'[j].email
        {
          assert t'[j] == rest[j - 1];
          assert t'[j] in t[1..];
        }
      }
    }
  }

  /**
    Set the administrator flag of the row with this id (`make_user_admin` sets
    it, `make_admin_user` clears it); a missing id is a 404 and changes nothing.
   */
  function SetAdmin(t: Table, id: UserId, flag: bool): (r: Result<Table, ()>)
    ensures r.Failure? <==> !HasId(t, id)
    ensures r.Success? ==> |r.value| == |t|
    ensures r.Success? ==> forall i :: 0 <= i < |t| && t[i].id == id ==> r.value[i].admin == Some(flag)
    ensures r.Success? ==> forall i :: 0 <= i < |t| ==>
      r.value[i] == t[i].(admin := r.value[i].admin)
    ensures r.Success? ==> forall i :: 0 <= i < |t| && t[i].id != id ==> r.value[i] == t[i]
  {
    match ById(t, id)
    case None => Failure(())
    case Some(_) => Success(UpdateRow(t, id, (u: User) => u.(admin := Some(flag))))
  }

  /** Changing only the flag keeps the table well formed. */
  lemma SetAdminPreservesWellFormed(t: Table, id: UserId, flag: bool)
    requires WellFormed(t) && HasId(t, id)
    ensures WellFormed(SetAdmin(t, id, flag).value)
  {
    var t' := SetAdmin(t, id, flag).value;
    assert forall i :: 0 <= i < |t| ==>
      t'[i].id == t[i].id && t'[i].username == t[i].username && t'[i].email == t[i].email;
  }

  /** Setting the same flag twice is the same as setting it once. */
  lemma SetAdminIdempotent(t: Table, id: UserId, flag: bool)
    requires HasId(t, id)
    ensures SetAdmin(SetAdmin(t, id, flag).value, id, flag) == SetAdmin(t, id, flag)
  {
    var once := SetAdmin(t, id, flag).value;
    assert HasId(once, id) by {
      var i :| 0 <= i < |t| && t[i].id == id;
      assert once[i].id == id;
    }
    var twice := SetAdmin(once, id, flag).value;
    assert twice == once;
  }

  /**
    Replacing one row keeps the table well formed when the new row keeps its
    id and takes no username or email held by another row.
   */
  lemma UpdateRowPreservesWellFormed(t: Table, k: nat, f: User -> User)
    requires WellFormed(t) && k < |t|
    requires f(t[k]).id == t[k].id
    requires forall j :: 0 <= j < |t| && j != k ==>
      f(t[k]).username != t[j].username && f(t[k]).email != t[j].email
    ensures WellFormed(UpdateRow(t, t[k].id, f))
  {
    var t' := UpdateRow(t, t[k].id, f);
    assert forall j :: 0 <= j < |t| && j != k ==> t'[j] == t[j];
    assert t'[k] == f(t[k]);
  }
}
