/** The `updateUser` mutation: an upsert over the users table keyed by the
    identity provider's user id. */
module Users {
  import opened Wrappers
  import DbIndex

  /** Document id the store assigns on insert. */
  type Id = nat

  /** A row of the users table. */
  datatype User = User(id: Id, userId: string, name: string, email: string, stripeConnectId: Option<string>)

  /** The table as a value: its rows in insertion order and the next id the
      store will hand out. */
  datatype Table = Table(rows: seq<User>, nextId: Id)

  /** What the store guarantees of its ids: every row's id was handed out
      before, and no two rows share one. */
  ghost predicate TableValid(t: Table) {
    && (forall i :: 0 <= i < |t.rows| ==> t.rows[i].id < t.nextId)
    && (forall i, j :: 0 <= i < j < |t.rows| ==> t.rows[i].id != t.rows[j].id)
  }

  /** The equality predicate of the `by_user_id` index. */
  function ByUserId(userId: string): User -> bool {
    (u: User) => u.userId == userId
  }

  /** The table after an upsert, and the id the mutation returns. */
  datatype Upserted = Upserted(table: Table, id: Id)

  /** Specification of `updateUser`: patch name and email of the first row whose
      userId matches, or insert a new row with no Stripe account. */
  function Upsert(t: Table, userId: string, name: string, email: string): (r: Upserted)
    ensures |t.rows| <= |r.table.rows| <= |t.rows| + 1
    ensures exists i :: 0 <= i < |r.table.rows| && r.table.rows[i] == User(r.id, userId, name, email, r.table.rows[i].stripeConnectId)
    ensures TableValid(t) ==> TableValid(r.table)
  {
    match DbIndex.FirstIndex(t.rows, ByUserId(userId))
    case Some(i) =>
      var rows := t.rows[i := t.rows[i].(name := name, email := email)];
      assert rows[i] == User(t.rows[i].id, userId, name, email, t.rows[i].stripeConnectId);
      Upserted(Table(rows, t.nextId), t.rows[i].id)
    case None =>
      var rows := t.rows + [User(t.nextId, userId, name, email, None)];
      assert rows[|t.rows|] == User(t.nextId, userId, name, email, None);
      Upserted(Table(rows, t.nextId + 1), t.nextId)
  }

  /** With a matching row: the first match gets the new name and email, keeps
      its id, userId and Stripe account, and its id is returned; no row is
      added and the id counter does not move. */
  lemma UpsertExisting(t: Table, userId: string, name: string, email: string, i: nat)
    requires i < |t.rows| && t.rows[i].userId == userId
    requires forall j :: 0 <= j < i ==> t.rows[j].userId != userId
    ensures var r := Upsert(t, userId, name, email);
      && |r.table.rows| == |t.rows| && r.table.nextId == t.nextId
      && r.id == t.rows[i].id
      && r.table.rows[i] == User(t.rows[i].id, userId, name, email, t.rows[i].stripeConnectId)
      && (forall j :: 0 <= j < |t.rows| && j != i ==> r.table.rows[j] == t.rows[j])
  {
  }

  /** Without a matching row: exactly one row is appended, carrying the given
      fields, a fresh id and no Stripe account; that id is returned. */
  lemma UpsertFresh(t: Table, userId: string, name: string, email: string)
    requires TableValid(t)
    requires forall j :: 0 <= j < |t.rows| ==> t.rows[j].userId != userId
    ensures var r := Upsert(t, userId, name, email);
      && r.table.rows == t.rows + [User(r.id, userId, name, email, None)]
      && (forall j :: 0 <= j < |t.rows| ==> t.rows[j].id != r.id)
      && TableValid(r.table)
  {
  }

  /** Rows of other users are never touched, and neither is any row but the
      one patched or appended. */
  lemma UpsertOthersUnchanged(t: Table, userId: string, name: string, email: string)
    ensures var r := Upsert(t, userId, name, email);
      && |t.rows| <= |r.table.rows| <= |t.rows| + 1
      && forall j :: 0 <= j < |t.rows| && t.rows[j].userId != userId ==> r.table.rows[j] == t.rows[j]
  {
  }

  /** After an upsert, the lookup by userId finds a row with the returned id
      and the new name and email. */
  lemma UpsertThenFind(t: Table, userId: string, name: string, email: string)
    ensures var r := Upsert(t, userId, name, email);
      var f := DbIndex.FirstIndex(r.table.rows, ByUserId(userId));
      && f.Some?
      && r.table.rows[f.value].id == r.id
      && r.table.rows[f.value].name == name && r.table.rows[f.value].email == email
  {
    var r := Upsert(t, userId, name, email);
    match DbIndex.FirstIndex(t.rows, ByUserId(userId))
    case Some(i) =>
      UpsertExisting(t, userId, name, email, i);
      var f := DbIndex.FirstIndex(r.table.rows, ByUserId(userId));
      assert ByUserId(userId)(r.table.rows[i]);
    case None =>
      var f := DbIndex.FirstIndex(r.table.rows, ByUserId(userId));
      assert ByUserId(userId)(r.table.rows[|t.rows|]);
  }

  /** Calling `updateUser` twice with the same arguments leaves the table as a
      single call does, and both calls return the same id. */
  lemma {:induction false} UpsertIdempotent(t: Table, userId: string, name: string, email: string)
    ensures var once := Upsert(t, userId, name, email);
      var twice := Upsert(once.table, userId, name, email);
      twice == Upserted(once.table, once.id)
  {
    var once := Upsert(t, userId, name, email);
    UpsertThenFind(t, userId, name, email);
    var f := DbIndex.FirstIndex(once.table.rows, ByUserId(userId));
    var row := once.table.rows[f.value];
    assert ByUserId(userId)(row);
    assert row.(name := name, email := email) == row;
    assert once.table.rows[f.value := row] == once.table.rows;
  }

  /** The users table as the mutation sees it: a sequence of rows that the
      handler patches or appends to. */
  class UsersDb {
    var rows: seq<User>
    var nextId: Id

    ghost function State(): Table
      reads this
    {
      Table(rows, nextId)
    }

    ghost predicate Valid()
      reads this
    {
      TableValid(State())
    }

    constructor ()
      ensures Valid() && rows == [] && nextId == 0
    {
      rows := [];
      nextId := 0;
    }

    /** The indexed scan `.withIndex("by_user_id", ...).first()`: position of the
        first row with this userId, or None. */
    method FindByUserId(userId: string) returns (r: Option<nat>)
      ensures r.Some? ==> r.value < |rows| && rows[r.value].userId == userId
      ensures r.Some? ==> forall j :: 0 <= j < r.value ==> rows[j].userId != userId
      ensures r.None? <==> forall j :: 0 <= j < |rows| ==> rows[j].userId != userId
    {
      var k := 0;
      while k < |rows|
        invariant 0 <= k <= |rows|
        invariant forall j :: 0 <= j < k ==> rows[j].userId != userId
      {
        if rows[k].userId == userId {
          return Some(k);
        }
        k := k + 1;
      }
      return None;
    }

    /** `updateUser`: patch the first matching row, or insert a new one. */
    method UpdateUser(userId: string, name: string, email: string) returns (id: Id)
      requires Valid()
      modifies this
      ensures Valid()
      ensures Upserted(State(), id) == Upsert(old(State()), userId, name, email)
    {
      var existing := FindByUserId(userId);
      if existing.Some? {
        var i := existing.value;
        UpsertExisting(State(), userId, name, email, i);
        id := rows[i].id;
        rows := rows[i := rows[i].(name := name, email := email)];
      } else {
        UpsertFresh(State(), userId, name, email);
        id := nextId;
        rows := rows + [User(nextId, userId, name, email, None)];
        nextId := nextId + 1;
      }
    }
  }
}
