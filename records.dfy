/** The `user` table behind both services, standing in for the Prisma client:
    an ordered sequence of rows (the order in which an unordered `findMany`
    returns them), the values a response or a cached page can hold, and the
    two client errors the services throw. */
module Records {
  import opened Wrappers

  datatype Role = Teacher | Student | OtherRole(name: string)

  /** One row of the `user` table. `address` and `phoneNumber` are absent
      when the creating request did not supply them. */
  datatype User = User(
    userId: string,
    fullName: string,
    username: string,
    password: string,
    address: Option<string>,
    phoneNumber: Option<string>,
    gender: string,
    dateOfBirth: string,
    role: Role)

  /** What a response carries and what Redis holds (JSON text is identified
      with the value it encodes). */
  datatype Json =
    | Record(user: User)
    | Rows(users: seq<User>)
    | Envelope(status: nat, message: string, data: Option<Json>, studentCount: Option<nat>)

  /** NestJS ConflictException and NotFoundException, with their messages. */
  datatype HttpError = Conflict(message: string) | NotFound(message: string)

  const OK: nat := 200
  const CREATED: nat := 201

  function Min(a: nat, b: nat): nat
  {
    if a <= b then a else b
  }

  /** The rows matching `where: { role }`, in table order. */
  function WithRole(rows: seq<User>, role: Role): (r: seq<User>)
    ensures |r| <= |rows|
    ensures forall u :: u in r ==> u in rows && u.role == role
    ensures forall u :: u in rows && u.role == role ==> u in r
  {
    if rows == [] then []
    else (if rows[0].role == role then [rows[0]] else []) + WithRole(rows[1..], role)
  }

  lemma {:induction false} WithRoleAppend(a: seq<User>, b: seq<User>, role: Role)
    ensures WithRole(a + b, role) == WithRole(a, role) + WithRole(b, role)
  {
    if a == [] {
      assert a + b == b;
    } else {
      assert (a + b)[1..] == a[1..] + b;
      WithRoleAppend(a[1..], b, role);
    }
  }

  /** `skip`/`take` applied to a sequence: at most `take` elements starting at `skip`. */
  function Window(s: seq<User>, skip: nat, take: nat): (r: seq<User>)
    ensures |r| == if skip >= |s| then 0 else Min(take, |s| - skip)
    ensures forall i :: 0 <= i < |r| ==> r[i] == s[skip + i]
  {
    if skip >= |s| then [] else s[skip..Min(|s|, skip + take)]
  }

  /** `findMany({ where: { role }, skip, take })`. */
  function Page(rows: seq<User>, role: Role, skip: nat, take: nat): (r: seq<User>)
    ensures |r| == if skip >= |WithRole(rows, role)| then 0 else Min(take, |WithRole(rows, role)| - skip)
    ensures |r| <= take
    ensures forall i :: 0 <= i < |r| ==> skip + i < |WithRole(rows, role)| && r[i] == WithRole(rows, role)[skip + i]
    ensures forall u :: u in r ==> u in rows && u.role == role
  {
    Window(WithRole(rows, role), skip, take)
  }

  /** Two adjacent windows make up the window spanning both. */
  lemma ConsecutiveWindows(s: seq<User>, skip: nat, a: nat, b: nat)
    ensures Window(s, skip, a) + Window(s, skip + a, b) == Window(s, skip, a + b)
  {
    if skip + a < |s| {
      assert s[skip..Min(|s|, skip + a + b)] == s[skip..skip + a] + s[skip + a..Min(|s|, skip + a + b)];
    }
  }

  /** Pages 1..n of size `limit`, concatenated. */
  function Pages(s: seq<User>, limit: nat, n: nat): seq<User>
  {
    if n == 0 then [] else Pages(s, limit, n - 1) + Window(s, (n - 1) * limit, limit)
  }

  /** Reading pages 1, 2, ..., n in turn yields the first n * limit rows,
      each exactly once and in order; once n * limit covers the rows, all of them. */
  lemma {:induction false} PagesTile(s: seq<User>, limit: nat, n: nat)
    ensures Pages(s, limit, n) == Window(s, 0, n * limit)
    ensures n * limit >= |s| ==> Pages(s, limit, n) == s
  {
    if n > 0 {
      PagesTile(s, limit, n - 1);
      ConsecutiveWindows(s, 0, (n - 1) * limit, limit);
      assert (n - 1) * limit + limit == n * limit;
    }
    if n * limit >= |s| {
      assert Window(s, 0, n * limit) == s[0..|s|];
    }
  }

  /** `findUnique({ where: { user_id } })`. */
  function RowById(rows: seq<User>, id: string): (r: Option<User>)
    ensures r.Some? ==> r.value in rows && r.value.userId == id
    ensures r.None? ==> forall u :: u in rows ==> u.userId != id
  {
    if rows == [] then None
    else if rows[0].userId == id then Some(rows[0])
    else RowById(rows[1..], id)
  }

  /** `findUnique({ where: { user_id, role } })`. */
  function RowByIdAndRole(rows: seq<User>, id: string, role: Role): (r: Option<User>)
    ensures r.Some? ==> r.value in rows && r.value.userId == id && r.value.role == role
  {
    match RowById(rows, id)
    case Some(u) => if u.role == role then Some(u) else None
    case None => None
  }

  /** With unique ids, the lookup finds every row by its id. */
  lemma {:induction false} RowByIdFinds(rows: seq<User>, u: User)
    requires UniqueKeys(rows) && u in rows
    ensures RowById(rows, u.userId) == Some(u)
  {
    if rows[0] != u {
      UniqueKeysCons(rows);
      assert u in rows[1..];
      RowByIdFinds(rows[1..], u);
    }
  }

  /** With unique ids, the lookup on id and role finds every row of that
      role, and finds nothing for an id whose row has another role. */
  lemma RowByIdAndRoleFinds(rows: seq<User>, u: User, role: Role)
    requires UniqueKeys(rows) && u in rows
    ensures u.role == role ==> RowByIdAndRole(rows, u.userId, role) == Some(u)
    ensures u.role != role ==> RowByIdAndRole(rows, u.userId, role) == None
  {
    RowByIdFinds(rows, u);
  }

  /** `findUnique({ where: { username } })`. */
  function RowByUsername(rows: seq<User>, username: string): (r: Option<User>)
    ensures r.Some? ==> r.value in rows && r.value.username == username
    ensures r.None? ==> forall u :: u in rows ==> u.username != username
  {
    if rows == [] then None
    else if rows[0].username == username then Some(rows[0])
    else RowByUsername(rows[1..], username)
  }

  /** `update({ where: { user_id }, data: { full_name } })`: an undefined
      `full_name` leaves the column as it is. */
  function Renamed(u: User, id: string, fullName: Option<string>): (r: User)
    ensures r.(fullName := u.fullName) == u
    ensures u.userId == id && fullName.Some? ==> r.fullName == fullName.value
    ensures u.userId != id || fullName.None? ==> r == u
  {
    if u.userId == id && fullName.Some? then u.(fullName := fullName.value) else u
  }

  function SetFullName(rows: seq<User>, id: string, fullName: Option<string>): (r: seq<User>)
    ensures |r| == |rows|
    ensures forall i :: 0 <= i < |rows| ==> r[i].(fullName := rows[i].fullName) == rows[i]
    ensures forall i :: 0 <= i < |rows| && (rows[i].userId != id || fullName.None?) ==> r[i] == rows[i]
    ensures forall i :: 0 <= i < |rows| && rows[i].userId == id && fullName.Some? ==> r[i].fullName == fullName.value
  {
    if rows == [] then [] else [Renamed(rows[0], id, fullName)] + SetFullName(rows[1..], id, fullName)
  }

  /** `delete({ where: { user_id } })`. */
  function RemoveById(rows: seq<User>, id: string): (r: seq<User>)
    ensures |r| <= |rows|
    ensures forall u :: u in r <==> u in rows && u.userId != id
  {
    if rows == [] then []
    else (if rows[0].userId == id then [] else [rows[0]]) + RemoveById(rows[1..], id)
  }

  /** The table's `@id` on `user_id` and `@unique` on `username`. */
  ghost predicate UniqueKeys(rows: seq<User>)
  {
    forall i, j :: 0 <= i < j < |rows| ==>
      rows[i].userId != rows[j].userId && rows[i].username != rows[j].username
  }

  /** No row of `rows` shares an id or a username with `u`. */
  ghost predicate DistinctFrom(u: User, rows: seq<User>)
  {
    forall v :: v in rows ==> v.userId != u.userId && v.username != u.username
  }

  /** Unique keys of a non-empty table: a first row distinct from the rest,
      and unique keys in the rest. */
  lemma UniqueKeysCons(rows: seq<User>)
    requires rows != []
    ensures UniqueKeys(rows) <==> DistinctFrom(rows[0], rows[1..]) && UniqueKeys(rows[1..])
  {
    if UniqueKeys(rows) {
      forall v | v in rows[1..] ensures v.userId != rows[0].userId && v.username != rows[0].username {
        var k :| 0 <= k < |rows[1..]| && rows[1..][k] == v;
        assert rows[k + 1] == v;
      }
      forall i, j | 0 <= i < j < |rows[1..]|
        ensures rows[1..][i].userId != rows[1..][j].userId && rows[1..][i].username != rows[1..][j].username
      {
        assert rows[1..][i] == rows[i + 1] && rows[1..][j] == rows[j + 1];
      }
    }
    if DistinctFrom(rows[0], rows[1..]) && UniqueKeys(rows[1..]) {
      forall i, j | 0 <= i < j < |rows| ensures rows[i].userId != rows[j].userId && rows[i].username != rows[j].username {
        assert rows[j] == rows[1..][j - 1];
        if i > 0 {
          assert rows[i] == rows[1..][i - 1];
        }
      }
    }
  }

  lemma {:induction false} RemoveByIdKeepsUnique(rows: seq<User>, id: string)
    requires UniqueKeys(rows)
    ensures UniqueKeys(RemoveById(rows, id))
  {
    if rows != [] {
      UniqueKeysCons(rows);
      RemoveByIdKeepsUnique(rows[1..], id);
      var tail := RemoveById(rows[1..], id);
      if rows[0].userId != id {
        var r := [rows[0]] + tail;
        assert r[1..] == tail;
        UniqueKeysCons(r);
      }
    }
  }

  /** With unique ids, deleting an existing id removes exactly one row. */
  lemma {:induction false} RemoveByIdRemovesOne(rows: seq<User>, id: string)
    requires UniqueKeys(rows)
    requires RowById(rows, id).Some?
    ensures |RemoveById(rows, id)| == |rows| - 1
  {
    UniqueKeysCons(rows);
    if rows[0].userId == id {
      RemoveAbsentId(rows[1..], id);
    } else {
      RemoveByIdRemovesOne(rows[1..], id);
    }
  }

  lemma {:induction false} RemoveAbsentId(rows: seq<User>, id: string)
    requires forall u :: u in rows ==> u.userId != id
    ensures RemoveById(rows, id) == rows
  {
    if rows != [] {
      assert rows[0] in rows;
      RemoveAbsentId(rows[1..], id);
    }
  }

  /** A write that touches only rows that do not have `role` leaves the
      `role` listing as it was: appending a row of another role, ... */
  lemma AppendKeepsOtherListing(rows: seq<User>, u: User, role: Role)
    requires u.role != role
    ensures WithRole(rows + [u], role) == WithRole(rows, role)
  {
    WithRoleAppend(rows, [u], role);
  }

  /** ... renaming a row of another role, ... */
  lemma {:induction false} RenameKeepsOtherListing(rows: seq<User>, id: string, fullName: Option<string>, role: Role)
    requires forall u :: u in rows && u.userId == id ==> u.role != role
    ensures WithRole(SetFullName(rows, id, fullName), role) == WithRole(rows, role)
  {
    if rows != [] {
      assert rows[0] in rows;
      assert SetFullName(rows, id, fullName)[1..] == SetFullName(rows[1..], id, fullName);
      RenameKeepsOtherListing(rows[1..], id, fullName, role);
    }
  }

  /** ... and deleting a row of another role. */
  lemma {:induction false} RemoveKeepsOtherListing(rows: seq<User>, id: string, role: Role)
    requires forall u :: u in rows && u.userId == id ==> u.role != role
    ensures WithRole(RemoveById(rows, id), role) == WithRole(rows, role)
  {
    if rows != [] {
      assert rows[0] in rows;
      var head := if rows[0].userId == id then [] else [rows[0]];
      WithRoleAppend(head, RemoveById(rows[1..], id), role);
      RemoveKeepsOtherListing(rows[1..], id, role);
    }
  }

  /** The Prisma `user` delegate. `roundTrips` counts the queries sent to
      the database, so that a cache hit can be stated to send none. */
  class UserTable {
    var rows: seq<User>
    ghost var roundTrips: nat

    ghost predicate Valid()
      reads this
    {
      UniqueKeys(rows)
    }

    constructor ()
      ensures rows == [] && roundTrips == 0 && Valid()
    {
      rows := [];
      roundTrips := 0;
    }

    method FindUniqueById(id: string) returns (u: Option<User>)
      modifies this`roundTrips
      ensures u == RowById(rows, id) && roundTrips == old(roundTrips) + 1
    {
      u := RowById(rows, id);
      roundTrips := roundTrips + 1;
    }

    method FindUniqueByIdAndRole(id: string, role: Role) returns (u: Option<User>)
      modifies this`roundTrips
      ensures u == RowByIdAndRole(rows, id, role) && roundTrips == old(roundTrips) + 1
    {
      u := RowByIdAndRole(rows, id, role);
      roundTrips := roundTrips + 1;
    }

    method FindUniqueByUsername(username: string) returns (u: Option<User>)
      modifies this`roundTrips
      ensures u == RowByUsername(rows, username) && roundTrips == old(roundTrips) + 1
    {
      u := RowByUsername(rows, username);
      roundTrips := roundTrips + 1;
    }

    method FindMany(role: Role, skip: nat, take: nat) returns (page: seq<User>)
      modifies this`roundTrips
      ensures page == Page(rows, role, skip, take) && roundTrips == old(roundTrips) + 1
    {
      page := Page(rows, role, skip, take);
      roundTrips := roundTrips + 1;
    }

    method Count(role: Role) returns (n: nat)
      modifies this`roundTrips
      ensures n == |WithRole(rows, role)| && roundTrips == old(roundTrips) + 1
    {
      n := |WithRole(rows, role)|;
      roundTrips := roundTrips + 1;
    }

    /** `create({ data })`; the database rejects a duplicate id or username,
        so callers must have ruled both out. */
    method Create(u: User) returns (created: User)
      requires Valid()
      requires RowById(rows, u.userId).None? && RowByUsername(rows, u.username).None?
      modifies this
      ensures Valid()
      ensures rows == old(rows) + [u] && created == u && roundTrips == old(roundTrips) + 1
    {
      rows := rows + [u];
      created := u;
      roundTrips := roundTrips + 1;
    }

    /** `update` throws on a missing record, so callers must have found it. */
    method UpdateFullName(id: string, fullName: Option<string>) returns (updated: User)
      requires Valid()
      requires RowById(rows, id).Some?
      modifies this
      ensures Valid()
      ensures rows == SetFullName(old(rows), id, fullName)
      ensures updated == Renamed(RowById(old(rows), id).value, id, fullName)
      ensures roundTrips == old(roundTrips) + 1
    {
      updated := Renamed(RowById(rows, id).value, id, fullName);
      rows := SetFullName(rows, id, fullName);
      roundTrips := roundTrips + 1;
    }

    /** `delete` throws on a missing record, so callers must have found it. */
    method Delete(id: string) returns (deleted: User)
      requires Valid()
      requires RowById(rows, id).Some?
      modifies this
      ensures Valid()
      ensures rows == RemoveById(old(rows), id) && |rows| == |old(rows)| - 1
      ensures deleted == RowById(old(rows), id).value
      ensures roundTrips == old(roundTrips) + 1
    {
      deleted := RowById(rows, id).value;
      RemoveByIdKeepsUnique(rows, id);
      RemoveByIdRemovesOne(rows, id);
      rows := RemoveById(rows, id);
      roundTrips := roundTrips + 1;
    }
  }
}
