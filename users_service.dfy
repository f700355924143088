/**
 * The user table and `UserService` (src/modules/users/service/users.service.ts).
 *
 * The repository is an in-memory table: a sequence of user records in
 * primary-key order, so that a `findOne` without an ordering yields the first
 * matching row. The lookups and the listing are pure functions of that table;
 * `create`, `update` and `delete` are methods of a class that owns it. Every
 * failure inside a service operation is re-thrown as a plain `Error` whose
 * message is the operation's prefix followed by the inner message.
 */
module Users {
  import opened Common
  import opened UserDto

  /** A stored user. The role relation is not part of this model. */
  datatype User = User(
    id: int,
    username: string,
    email: string,
    password: string,
    firstName: Option<string>,
    lastName: Option<string>,
    company: Option<string>)

  /** The fields an update supplies; `None` leaves the stored value in place.
      An optional column may also be supplied as `null`, written `Some(None)`. */
  datatype UserPatch = UserPatch(
    username: Option<string>,
    email: Option<string>,
    password: Option<string>,
    firstName: Option<Option<string>>,
    lastName: Option<Option<string>>,
    company: Option<Option<string>>)

  datatype SortOrder = Asc | Desc

  /** Rows are kept in strictly increasing id order, hence ids are unique. */
  ghost predicate IdsIncreasing(rows: seq<User>) {
    forall i, j :: 0 <= i < j < |rows| ==> rows[i].id < rows[j].id
  }

  /** No two stored users share a username, and none share an email. */
  ghost predicate CredentialsUnique(rows: seq<User>) {
    forall i, j :: 0 <= i < j < |rows| ==>
      rows[i].username != rows[j].username && rows[i].email != rows[j].email
  }

  /** Some stored user has this username or this email. */
  ghost predicate Clashes(rows: seq<User>, username: string, email: string) {
    exists u :: u in rows && (u.username == username || u.email == email)
  }

  // ---------------------------------------------------------------------
  // Lookups: findById, findByUsername, findByEmail
  // ---------------------------------------------------------------------

  /** The `where` clauses the service passes to `findOne`. */
  datatype Where =
    | IdIs(id: int)
    | UsernameIs(username: string)
    | EmailIs(email: string)
    | UsernameOrEmailIs(username: string, email: string)

  predicate Satisfies(u: User, w: Where) {
    match w
    case IdIs(id) => u.id == id
    case UsernameIs(username) => u.username == username
    case EmailIs(email) => u.email == email
    case UsernameOrEmailIs(username, email) => u.username == username || u.email == email
  }

  /** The index of the first row satisfying `w`, as `findOne` scans the table. */
  function FirstIndex(rows: seq<User>, w: Where): (r: Option<nat>)
    ensures r.Some? ==> r.value < |rows| && Satisfies(rows[r.value], w)
    ensures r.Some? ==> forall j :: 0 <= j < r.value ==> !Satisfies(rows[j], w)
    ensures r.None? ==> forall j :: 0 <= j < |rows| ==> !Satisfies(rows[j], w)
  {
    if rows == [] then None
    else if Satisfies(rows[0], w) then Some(0)
    else match FirstIndex(rows[1..], w)
      case None => None
      case Some(i) => Some(i + 1)
  }

  /** `findOne({ where })`, then `if (!user) throw new NotFoundException(notFound)`. */
  function FindOneOrNotFound(rows: seq<User>, w: Where, notFound: string): (r: Result<User>)
    ensures r.Success? <==> exists i :: 0 <= i < |rows| && Satisfies(rows[i], w)
    ensures r.Success? ==> r.value in rows && Satisfies(r.value, w)
    ensures r.Failure? ==> r.error == Error(NotFound, notFound)
  {
    match FirstIndex(rows, w)
    case Some(i) => Success(rows[i])
    case None => Failure(Error(NotFound, notFound))
  }

  /** `findOne` returns the first matching row: the one found lies at or
      before every row that matches. */
  lemma FindOneIsFirst(rows: seq<User>, w: Where, notFound: string)
    ensures var r := FindOneOrNotFound(rows, w, notFound);
      r.Success? ==> forall j :: 0 <= j < |rows| && Satisfies(rows[j], w) ==> r.value in rows[..j + 1]
  {
  }

  /** In a table kept in id order, a record is determined by its id. */
  lemma IdsDetermineRows(rows: seq<User>, u: User, v: User)
    requires IdsIncreasing(rows) && u in rows && v in rows && u.id == v.id
    ensures u == v
  {
  }

  /** The message of the `NotFoundException` thrown by `findById`. */
  function IdNotFound(id: int): (msg: string) {
    "User with ID " + IntToString(id) + " not found"
  }

  /** `findById`: the record with that id, or the wrapped not-found error. */
  function FindById(rows: seq<User>, id: int): (r: Result<User>)
    ensures r.Success? <==> exists u :: u in rows && u.id == id
    ensures r.Success? ==> r.value in rows && r.value.id == id
    ensures IdsIncreasing(rows) ==> forall u :: u in rows && u.id == id ==> r == Success(u)
    ensures r.Failure? ==> r.error == Error(Plain, "Error fetching user by ID: " + IdNotFound(id))
  {
    var r := Rewrap("Error fetching user by ID: ", FindOneOrNotFound(rows, IdIs(id), IdNotFound(id)));
    assert IdsIncreasing(rows) ==> forall u :: u in rows && u.id == id ==> r == Success(u) by {
      if IdsIncreasing(rows) {
        forall u | u in rows && u.id == id ensures r == Success(u) {
          IdsDetermineRows(rows, u, r.value);
        }
      }
    }
    r
  }

  /** `findByUsername`: the first record with that username, or the wrapped
      not-found error. */
  function FindByUsername(rows: seq<User>, username: string): (r: Result<User>)
    ensures r.Success? <==> exists u :: u in rows && u.username == username
    ensures r.Success? ==> r.value in rows && r.value.username == username
    ensures r.Success? ==> forall j :: 0 <= j < |rows| && rows[j].username == username ==> r.value in rows[..j + 1]
    ensures r.Failure? ==>
      r.error == Error(Plain, "Error fetching user by username: " + ("User with username " + username + " not found"))
  {
    FindOneIsFirst(rows, UsernameIs(username), "User with username " + username + " not found");
    Rewrap("Error fetching user by username: ",
           FindOneOrNotFound(rows, UsernameIs(username), "User with username " + username + " not found"))
  }

  /** `findByEmail`: the first record with that email, or the wrapped
      not-found error. */
  function FindByEmail(rows: seq<User>, email: string): (r: Result<User>)
    ensures r.Success? <==> exists u :: u in rows && u.email == email
    ensures r.Success? ==> r.value in rows && r.value.email == email
    ensures r.Success? ==> forall j :: 0 <= j < |rows| && rows[j].email == email ==> r.value in rows[..j + 1]
    ensures r.Failure? ==>
      r.error == Error(Plain, "Error fetching user by email: " + ("User with email " + email + " not found"))
  {
    FindOneIsFirst(rows, EmailIs(email), "User with email " + email + " not found");
    Rewrap("Error fetching user by email: ",
           FindOneOrNotFound(rows, EmailIs(email), "User with email " + email + " not found"))
  }

  /** Two failed id lookups carry the same message only for the same id. */
  lemma NotFoundMessageNamesId(rows: seq<User>, rows': seq<User>, a: int, b: int)
    requires FindById(rows, a).Failure? && FindById(rows', b).Failure?
    requires FindById(rows, a).error == FindById(rows', b).error
    ensures a == b
  {
    var p := "Error fetching user by ID: " + "User with ID ";
    var sa, sb := IntToString(a), IntToString(b);
    var ma := "Error fetching user by ID: " + IdNotFound(a);
    assert ma == p + sa + " not found";
    assert ma == p + sb + " not found";
    assert |sa| == |sb|;
    assert sa == ma[|p|..|p| + |sa|] == sb;
    IntToStringInjective(a, b);
  }

  // ---------------------------------------------------------------------
  // findAll: keyword filter, sort, skip/take page
  // ---------------------------------------------------------------------

  /** `users.username LIKE '%kw%' OR users.email LIKE '%kw%'`. */
  predicate MatchesKeyword(u: User, keyword: string) {
    Contains(u.username, keyword) || Contains(u.email, keyword)
  }

  function FilterByKeyword(rows: seq<User>, keyword: string): (r: seq<User>)
    ensures forall u :: u in r <==> u in rows && MatchesKeyword(u, keyword)
    ensures multiset(r) <= multiset(rows)
  {
    if rows == [] then []
    else
      var rest := FilterByKeyword(rows[1..], keyword);
      assert rows == [rows[0]] + rows[1..];
      if MatchesKeyword(rows[0], keyword) then [rows[0]] + rest else rest
  }

  /** `a` may stand before `b` in a listing ordered by `key`. */
  predicate Precedes(a: User, b: User, key: User -> int, order: SortOrder) {
    if order == Asc then key(a) <= key(b) else key(b) <= key(a)
  }

  predicate SortedBy(s: seq<User>, key: User -> int, order: SortOrder) {
    forall i, j :: 0 <= i < j < |s| ==> Precedes(s[i], s[j], key, order)
  }

  function InsertSorted(x: User, s: seq<User>, key: User -> int, order: SortOrder): (r: seq<User>)
    requires SortedBy(s, key, order)
    ensures SortedBy(r, key, order)
    ensures multiset(r) == multiset(s) + multiset{x}
  {
    if s == [] || Precedes(x, s[0], key, order) then
      forall j | 0 <= j < |s| ensures Precedes(x, s[j], key, order) {
        if j > 0 {
          assert Precedes(s[0], s[j], key, order);
        }
      }
      ConsSorted(x, s, key, order);
      [x] + s
    else
      var rest := InsertSorted(x, s[1..], key, order);
      assert s == [s[0]] + s[1..];
      forall i | 0 <= i < |rest| ensures Precedes(s[0], rest[i], key, order) {
        assert rest[i] in multiset(rest);
      }
      ConsSorted(s[0], rest, key, order);
      assert multiset([s[0]] + rest) == multiset{s[0]} + multiset(rest);
      [s[0]] + rest
  }

  /** A head that precedes every entry of a sorted tail gives a sorted sequence. */
  lemma ConsSorted(y: User, rest: seq<User>, key: User -> int, order: SortOrder)
    requires SortedBy(rest, key, order)
    requires forall i :: 0 <= i < |rest| ==> Precedes(y, rest[i], key, order)
    ensures SortedBy([y] + rest, key, order)
  {
    var r := [y] + rest;
    forall i, j | 0 <= i < j < |r| ensures Precedes(r[i], r[j], key, order) {
      assert r[j] == rest[j - 1];
      if i > 0 {
        assert r[i] == rest[i - 1];
      }
    }
  }

  /** `orderBy(users.<sortBy>, sortOrder)`, the column read through `key`. */
  function SortUsers(s: seq<User>, key: User -> int, order: SortOrder): (r: seq<User>)
    ensures SortedBy(r, key, order)
    ensures multiset(r) == multiset(s)
  {
    if s == [] then []
    else
      assert s == [s[0]] + s[1..];
      InsertSorted(s[0], SortUsers(s[1..], key, order), key, order)
  }

  function Min(a: int, b: int): (m: int) {
    if a <= b then a else b
  }

  /** `skip(skip).take(take)` on an ordered listing. */
  function Page(s: seq<User>, skip: nat, take: nat): (r: seq<User>)
    ensures |r| == if skip >= |s| then 0 else Min(take, |s| - skip)
    ensures forall i :: 0 <= i < |r| ==> r[i] == s[skip + i]
  {
    if skip >= |s| then [] else s[skip..Min(skip + take, |s|)]
  }

  /** The ordered listing every page of `findAll` is cut from. */
  function Listing(rows: seq<User>, keyword: string, key: User -> int, order: SortOrder): (l: seq<User>)
    ensures SortedBy(l, key, order)
    ensures forall u :: u in l <==> u in rows && MatchesKeyword(u, keyword)
    ensures multiset(l) == multiset(FilterByKeyword(rows, keyword))
  {
    var filtered := FilterByKeyword(rows, keyword);
    var l := SortUsers(filtered, key, order);
    assert forall u :: u in l <==> u in filtered by {
      forall u ensures u in l <==> u in filtered {
        assert u in l <==> u in multiset(l);
      }
    }
    l
  }

  /** A page holds only entries of the listing it is cut from, in its order. */
  lemma PageOfListing(listing: seq<User>, skip: nat, take: nat, key: User -> int, order: SortOrder)
    requires SortedBy(listing, key, order)
    ensures forall u :: u in Page(listing, skip, take) ==> u in listing
    ensures SortedBy(Page(listing, skip, take), key, order)
  {
  }

  /** `findAll(keyword, page, take, sortBy, sortOrder)`. A negative offset or
      limit is rejected by the database with the message `queryError`; a
      `take` of 0 sets no limit, so the whole listing is returned. */
  function FindAll(rows: seq<User>, keyword: string, page: int, take: int,
                   key: User -> int, order: SortOrder, queryError: string): (r: Result<seq<User>>)
    ensures r.Success? <==> (page - 1) * take >= 0 && take >= 0
    ensures r.Failure? ==> r.error == Error(Plain, "Error fetching users: " + queryError)
    ensures r.Success? && take > 0 ==> |r.value| <= take
    ensures take == 0 ==> r == Success(Listing(rows, keyword, key, order))
    ensures r.Success? ==> forall u :: u in r.value ==> u in rows && MatchesKeyword(u, keyword)
    ensures r.Success? ==> SortedBy(r.value, key, order)
    ensures r.Success? ==> forall i :: 0 <= i < |r.value| ==>
      && (page - 1) * take + i < |Listing(rows, keyword, key, order)|
      && r.value[i] == Listing(rows, keyword, key, order)[(page - 1) * take + i]
  {
    var skip := (page - 1) * take;
    if skip < 0 || take < 0 then
      Failure(Error(Plain, "Error fetching users: " + queryError))
    else if take == 0 then
      Success(Listing(rows, keyword, key, order))
    else
      PageOfListing(Listing(rows, keyword, key, order), skip, take, key, order);
      Success(Page(Listing(rows, keyword, key, order), skip, take))
  }

  lemma DivMod(k: nat, take: int)
    requires take > 0
    ensures 0 <= k / take && 0 <= k % take < take
    ensures (k / take + 1 - 1) * take + k % take == k
  {
  }

  /** Pages of a positive size partition the listing: the `k`-th matching user
      is entry `k % take` of page `k / take + 1`. */
  lemma PagesCoverListing(rows: seq<User>, keyword: string, take: int,
                          key: User -> int, order: SortOrder, queryError: string, k: nat)
    requires take > 0 && k < |Listing(rows, keyword, key, order)|
    ensures var r := FindAll(rows, keyword, k / take + 1, take, key, order, queryError);
            r.Success? && k % take < |r.value| && r.value[k % take] == Listing(rows, keyword, key, order)[k]
  {
    var page := k / take + 1;
    var i := k % take;
    DivMod(k, take);
    var skip := (page - 1) * take;
    assert skip + i == k;
    var r := FindAll(rows, keyword, page, take, key, order, queryError);
    assert r.Success?;
    assert |r.value| == Min(take, |Listing(rows, keyword, key, order)| - skip);
  }

  // ---------------------------------------------------------------------
  // Record construction and the row-level effect of update and delete
  // ---------------------------------------------------------------------

  /** `userRepository.create(dto)` once the database has assigned `id`; the
      password is stored exactly as given. */
  function NewUser(id: int, dto: CreateUserDto): (u: User)
    ensures u.id == id && u.password == dto.password
    ensures u.username == dto.username && u.email == dto.email
    ensures u.firstName == dto.firstName && u.lastName == dto.lastName && u.company == dto.company
  {
    User(id, dto.username, dto.email, dto.password, dto.firstName, dto.lastName, dto.company)
  }

  /** `userRepository.update(id, dto)` on one record: supplied fields are
      overwritten (an optional column supplied as `null` is cleared), the rest
      and the id are kept. */
  function ApplyPatch(u: User, p: UserPatch): (v: User)
    ensures v.id == u.id
    ensures v.username == (if p.username.Some? then p.username.value else u.username)
    ensures v.email == (if p.email.Some? then p.email.value else u.email)
    ensures v.password == (if p.password.Some? then p.password.value else u.password)
    ensures p.firstName.Some? ==> v.firstName == p.firstName.value
    ensures p.lastName.Some? ==> v.lastName == p.lastName.value
    ensures p.company.Some? ==> v.company == p.company.value
    ensures p.firstName.None? ==> v.firstName == u.firstName
    ensures p.lastName.None? ==> v.lastName == u.lastName
    ensures p.company.None? ==> v.company == u.company
  {
    User(u.id,
         p.username.GetOr(u.username),
         p.email.GetOr(u.email),
         p.password.GetOr(u.password),
         p.firstName.GetOr(u.firstName),
         p.lastName.GetOr(u.lastName),
         p.company.GetOr(u.company))
  }

  /** The patch of an update body that supplies no column. */
  const EmptyPatch := UserPatch(None, None, None, None, None, None)

  /** TypeORM's `UpdateValuesMissingError`, thrown by `update` when the
      patch names no column to set. */
  const UpdateValuesMissingMessage :=
    "Cannot perform update query because update values are not defined. Call \"qb.set(...)\" method to specify updated values."

  /** Applying a patch twice is applying it once; the empty patch changes nothing. */
  lemma ApplyPatchLaws(u: User, p: UserPatch)
    ensures ApplyPatch(ApplyPatch(u, p), p) == ApplyPatch(u, p)
    ensures ApplyPatch(u, EmptyPatch) == u
  {
  }

  /** The table after `update(id, patch)`: the record with that id patched,
      every other record and the order untouched. */
  function PatchRows(rows: seq<User>, id: int, p: UserPatch): (r: seq<User>)
    ensures |r| == |rows|
    ensures forall i :: 0 <= i < |rows| && rows[i].id != id ==> r[i] == rows[i]
    ensures forall i :: 0 <= i < |rows| && rows[i].id == id ==> r[i] == ApplyPatch(rows[i], p)
    ensures IdsIncreasing(rows) ==> IdsIncreasing(r)
  {
    seq(|rows|, i requires 0 <= i < |rows| => if rows[i].id == id then ApplyPatch(rows[i], p) else rows[i])
  }

  /** The table after `delete(id)`: every record without that id, in order. */
  function RemoveId(rows: seq<User>, id: int): (r: seq<User>)
    ensures forall u :: u in r <==> u in rows && u.id != id
    ensures IdsIncreasing(rows) ==> IdsIncreasing(r)
  {
    if rows == [] then []
    else
      var rest := RemoveId(rows[1..], id);
      assert rows == [rows[0]] + rows[1..];
      if rows[0].id == id then rest else [rows[0]] + rest
  }

  lemma TailIdsIncreasing(rows: seq<User>)
    requires |rows| > 0 && IdsIncreasing(rows)
    ensures IdsIncreasing(rows[1..])
    ensures forall u :: u in rows[1..] ==> rows[0].id < u.id
  {
  }

  /** Deleting an id no record carries leaves the table as it was. */
  lemma {:induction false} RemoveAbsentId(rows: seq<User>, id: int)
    requires forall u :: u in rows ==> u.id != id
    ensures RemoveId(rows, id) == rows
  {
    if rows != [] {
      assert rows[0] in rows;
      RemoveAbsentId(rows[1..], id);
    }
  }

  lemma RemoveIdKeepsHead(rows: seq<User>, id: int)
    requires |rows| > 0 && rows[0].id != id
    ensures RemoveId(rows, id) == [rows[0]] + RemoveId(rows[1..], id)
  {
  }

  lemma SpliceAfterHead(rows: seq<User>, k: nat)
    requires 0 < k < |rows|
    ensures [rows[0]] + (rows[1..][..k - 1] + rows[1..][k..]) == rows[..k] + rows[k + 1..]
  {
  }

  /** Deleting a stored id removes exactly that one record and keeps the
      order of the others. */
  lemma {:induction false} RemovePresentId(rows: seq<User>, id: int, k: nat)
    requires IdsIncreasing(rows) && k < |rows| && rows[k].id == id
    ensures RemoveId(rows, id) == rows[..k] + rows[k + 1..]
  {
    TailIdsIncreasing(rows);
    if k == 0 {
      RemoveAbsentId(rows[1..], id);
    } else {
      RemovePresentId(rows[1..], id, k - 1);
      RemoveIdKeepsHead(rows, id);
      SpliceAfterHead(rows, k);
    }
  }

  lemma InsertKeepsCredentialsUnique(rows: seq<User>, u: User)
    requires CredentialsUnique(rows) && !Clashes(rows, u.username, u.email)
    ensures CredentialsUnique(rows + [u])
  {
  }

  /** `update` performs no duplicate check: patching a username onto another
      record's username breaks uniqueness. */
  lemma UpdateCanBreakUniqueness()
    ensures var rows := [User(1, "alice", "alice@x.com", "h1", None, None, None),
                         User(2, "bob", "bob@x.com", "h2", None, None, None)];
            var p := EmptyPatch.(username := Some("alice"));
            CredentialsUnique(rows) && !CredentialsUnique(PatchRows(rows, 2, p))
  {
    var rows := [User(1, "alice", "alice@x.com", "h1", None, None, None),
                 User(2, "bob", "bob@x.com", "h2", None, None, None)];
    var p := EmptyPatch.(username := Some("alice"));
    var r := PatchRows(rows, 2, p);
    assert r[0].username == r[1].username;
  }

  // ---------------------------------------------------------------------
  // UserService: the table and its state-changing operations
  // ---------------------------------------------------------------------

  /** After patching the record at index `k`, looking its id up again finds
      the patched record. */
  lemma PatchedRecordIsFound(rows: seq<User>, id: int, p: UserPatch, k: nat)
    requires IdsIncreasing(rows) && k < |rows| && rows[k].id == id
    ensures FindById(PatchRows(rows, id, p), id) == Success(ApplyPatch(rows[k], p))
  {
  }

  /** Patching never changes an id, so every id stays below `nextId`. */
  lemma PatchKeepsIdsBelow(rows: seq<User>, id: int, p: UserPatch, nextId: int)
    requires forall u :: u in rows ==> u.id < nextId
    ensures forall u :: u in PatchRows(rows, id, p) ==> u.id < nextId
  {
    var r := PatchRows(rows, id, p);
    forall u | u in r ensures u.id < nextId {
      var i :| 0 <= i < |r| && r[i] == u;
      assert u.id == rows[i].id && rows[i] in rows;
    }
  }

  /** Deleting the record at index `k` keeps the table in id order below
      `nextId`, and that record is the only one with its id. */
  lemma DeleteKeepsTable(rows: seq<User>, nextId: int, id: int, k: nat)
    requires IdsIncreasing(rows) && (forall u :: u in rows ==> u.id < nextId)
    requires k < |rows| && rows[k].id == id
    ensures IdsIncreasing(RemoveId(rows, id))
    ensures forall u :: u in RemoveId(rows, id) ==> u.id < nextId
    ensures forall j :: 0 <= j < |rows| && rows[j].id == id ==> RemoveId(rows, id) == rows[..j] + rows[j + 1..]
  {
    forall j | 0 <= j < |rows| && rows[j].id == id ensures j == k {
      assert !(j < k) && !(k < j);
    }
    RemovePresentId(rows, id, k);
  }

  /** The message of the `ConflictException` thrown by `create`. */
  const DuplicateMessage := "Username or email already exists"

  class UserService {
    /** The user table, in primary-key order. */
    var rows: seq<User>
    /** The id the database assigns to the next inserted row. */
    var nextId: int

    ghost predicate Valid()
      reads this
    {
      && IdsIncreasing(rows)
      && forall u :: u in rows ==> u.id < nextId
    }

    constructor ()
      ensures Valid() && rows == [] && nextId == 1
    {
      rows := [];
      nextId := 1;
    }

    /** `create(dto)`: refuse a clashing username or email, otherwise store
        exactly one new record carrying the DTO's fields. */
    method Create(dto: CreateUserDto) returns (r: Result<User>)
      requires Valid()
      modifies this
      ensures Valid()
      ensures Clashes(old(rows), dto.username, dto.email) ==>
        && r == Failure(Error(Plain, "Error creating user: " + DuplicateMessage))
        && rows == old(rows) && nextId == old(nextId)
      ensures !Clashes(old(rows), dto.username, dto.email) ==>
        && r == Success(NewUser(old(nextId), dto))
        && rows == old(rows) + [r.value] && nextId == old(nextId) + 1
      ensures CredentialsUnique(old(rows)) ==> CredentialsUnique(rows)
    {
      var existing := FirstIndex(rows, UsernameOrEmailIs(dto.username, dto.email));
      if existing.Some? {
        assert rows[existing.value] in rows;
        r := Rewrap("Error creating user: ", Failure(Error(Conflict, DuplicateMessage)));
        return;
      }
      assert !Clashes(rows, dto.username, dto.email) by {
        forall u | u in rows ensures u.username != dto.username && u.email != dto.email {
          var i :| 0 <= i < |rows| && rows[i] == u;
        }
      }
      var newUser := NewUser(nextId, dto);
      if CredentialsUnique(rows) {
        InsertKeepsCredentialsUnique(rows, newUser);
      }
      rows := rows + [newUser];
      nextId := nextId + 1;
      r := Success(newUser);
    }

    /** `update(id, patch)`: check the id exists, overwrite the supplied
        fields of that record, return it re-read. A patch that supplies no
        field makes the repository's update throw before anything is
        written. */
    method Update(id: int, patch: UserPatch) returns (r: Result<User>)
      requires Valid()
      modifies this
      ensures Valid() && nextId == old(nextId)
      ensures (forall u :: u in old(rows) ==> u.id != id) ==>
        && rows == old(rows)
        && r == Failure(Error(Plain, "Error updating user: " + ("Error fetching user by ID: " + IdNotFound(id))))
      ensures (exists u :: u in old(rows) && u.id == id) && patch == EmptyPatch ==>
        && rows == old(rows)
        && r == Failure(Error(Plain, "Error updating user: " + UpdateValuesMissingMessage))
      ensures forall k :: 0 <= k < |old(rows)| && old(rows)[k].id == id && patch != EmptyPatch ==>
        && rows == PatchRows(old(rows), id, patch)
        && r == Success(ApplyPatch(old(rows)[k], patch))
    {
      var found := FindById(rows, id);
      if found.Failure? {
        forall j | 0 <= j < |rows| ensures rows[j].id != id {
          assert rows[j] in rows;
        }
        r := Rewrap("Error updating user: ", found);
        return;
      }
      if patch == EmptyPatch {
        r := Rewrap("Error updating user: ", Failure(Error(Plain, UpdateValuesMissingMessage)));
        return;
      }
      ghost var k :| 0 <= k < |rows| && rows[k] == found.value;
      forall j | 0 <= j < |rows| && rows[j].id == id ensures j == k {
        assert !(j < k) && !(k < j);
      }
      PatchedRecordIsFound(rows, id, patch, k);
      PatchKeepsIdsBelow(rows, id, patch, nextId);
      rows := PatchRows(rows, id, patch);
      r := Rewrap("Error updating user: ", FindById(rows, id));
    }

    /** `delete(id)`: check the id exists, then remove exactly that record. */
    method Delete(id: int) returns (r: Result<()>)
      requires Valid()
      modifies this
      ensures Valid() && nextId == old(nextId)
      ensures (forall u :: u in old(rows) ==> u.id != id) ==>
        && rows == old(rows)
        && r == Failure(Error(Plain, "Error deleting user: " + ("Error fetching user by ID: " + IdNotFound(id))))
      ensures forall k :: 0 <= k < |old(rows)| && old(rows)[k].id == id ==>
        && rows == old(rows)[..k] + old(rows)[k + 1..]
        && r == Success(())
    {
      var found := FindById(rows, id);
      if found.Failure? {
        forall j | 0 <= j < |rows| ensures rows[j].id != id {
          assert rows[j] in rows;
        }
        r := Rewrap("Error deleting user: ", Failure(found.error));
        return;
      }
      ghost var k :| 0 <= k < |rows| && rows[k] == found.value;
      DeleteKeepsTable(rows, nextId, id, k);
      rows := RemoveId(rows, id);
      r := Success(());
    }
  }
}
