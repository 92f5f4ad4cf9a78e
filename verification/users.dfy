/** UserServiceImpl: e-mail uniqueness, registration, listing and deletion of users. */
module UserService {
  import opened Wrappers
  import opened Paging

  datatype User = User(id: int, name: string, email: string)

  datatype NewUserRequest = NewUserRequest(email: string, name: string)

  /** The user table in id order, and its identity counter. */
  datatype UserStore = UserStore(users: seq<User>, nextId: int)

  predicate Ascending(us: seq<User>) {
    forall i, j | 0 <= i < j < |us| :: us[i].id < us[j].id
  }

  predicate UniqueEmails(us: seq<User>) {
    forall i, j | 0 <= i < j < |us| :: us[i].email != us[j].email
  }

  predicate Valid(s: UserStore) {
    && Ascending(s.users) && UniqueEmails(s.users)
    && forall i | 0 <= i < |s.users| :: s.users[i].id < s.nextId
  }

  /** Some user other than `userId` holds `email`. */
  predicate UsedByOther(us: seq<User>, email: string, userId: int) {
    exists i | 0 <= i < |us| :: us[i].id != userId && us[i].email == email
  }

  /** `emailUsageCheck`: a scan of every user, failing at the first other user with the same
      e-mail. */
  method EmailUsageCheck(us: seq<User>, email: string, userId: int) returns (r: Outcome)
    ensures r.Fail? <==> UsedByOther(us, email, userId)
    ensures r.Fail? ==> r.error == DataConflict
  {
    var i := 0;
    while i < |us|
      invariant 0 <= i <= |us|
      invariant forall k | 0 <= k < i :: !(us[k].id != userId && us[k].email == email)
    {
      if userId != us[i].id && us[i].email == email {
        return Fail(DataConflict);
      }
      i := i + 1;
    }
    return Pass;
  }

  /** `addUser`: the user is saved with the next id and then checked; a clash rolls the whole
      call back, so the store is kept only on success. */
  function AddUser(s: UserStore, req: NewUserRequest): (r: Result<(UserStore, User)>)
    ensures r.Ok? <==> !UsedByOther(s.users + [User(s.nextId, req.name, req.email)], req.email, s.nextId)
    ensures r.Err? ==> r.error == DataConflict
    ensures r.Ok? ==>
      && r.value.1 == User(s.nextId, req.name, req.email)
      && r.value.0 == UserStore(s.users + [r.value.1], s.nextId + 1)
  {
    var user := User(s.nextId, req.name, req.email);
    var saved := s.users + [user];
    if UsedByOther(saved, user.email, user.id) then Err(DataConflict)
    else Ok((UserStore(saved, s.nextId + 1), user))
  }

  /** On a valid store the check after saving amounts to "nobody has this e-mail yet". */
  lemma AddUserRefusesTakenEmail(s: UserStore, req: NewUserRequest)
    requires Valid(s)
    ensures AddUser(s, req).Ok? <==> forall i | 0 <= i < |s.users| :: s.users[i].email != req.email
  {
    var saved := s.users + [User(s.nextId, req.name, req.email)];
    if exists i | 0 <= i < |s.users| :: s.users[i].email == req.email {
      var i :| 0 <= i < |s.users| && s.users[i].email == req.email;
      assert saved[i] == s.users[i];
    }
  }

  lemma AddUserKeepsValid(s: UserStore, req: NewUserRequest)
    requires Valid(s) && AddUser(s, req).Ok?
    ensures Valid(AddUser(s, req).value.0)
  {
    AddUserRefusesTakenEmail(s, req);
  }

  /** `findAllByIdIn`: the users whose id is listed, in table order. */
  function WithIds(us: seq<User>, ids: seq<int>): (r: seq<User>)
    ensures |r| <= |us|
    ensures forall k | 0 <= k < |r| :: r[k].id in ids
  {
    if us == [] then []
    else (if us[0].id in ids then [us[0]] else []) + WithIds(us[1..], ids)
  }

  /** The id filter keeps exactly the stored users whose id is listed. */
  lemma {:induction false} WithIdsExact(us: seq<User>, ids: seq<int>)
    ensures forall u | u in WithIds(us, ids) :: u in us && u.id in ids
    ensures forall u | u in us && u.id in ids :: u in WithIds(us, ids)
  {
    if us != [] {
      WithIdsExact(us[1..], ids);
      assert us == [us[0]] + us[1..];
    }
  }

  lemma {:induction false} WithIdsAscending(us: seq<User>, ids: seq<int>)
    requires Ascending(us)
    ensures Ascending(WithIds(us, ids))
  {
    if us != [] {
      var tail := us[1..];
      WithIdsAscending(tail, ids);
      WithIdsAbove(tail, ids, us[0].id);
      var rest := WithIds(tail, ids);
      var r := WithIds(us, ids);
      if us[0].id in ids {
        assert r == [us[0]] + rest;
        AscendingCons(us[0], rest);
      } else {
        assert r == rest;
      }
    }
  }

  lemma AscendingCons(u: User, us: seq<User>)
    requires Ascending(us) && forall i | 0 <= i < |us| :: u.id < us[i].id
    ensures Ascending([u] + us)
  {
    var r := [u] + us;
    forall i, j | 0 <= i < j < |r| ensures r[i].id < r[j].id {
      assert r[j] == us[j - 1];
      if 0 < i {
        assert r[i] == us[i - 1];
      }
    }
  }

  /** A bound below every id of the table is a bound below every id the filter keeps. */
  lemma {:induction false} WithIdsAbove(us: seq<User>, ids: seq<int>, bound: int)
    requires forall i | 0 <= i < |us| :: bound < us[i].id
    ensures forall i | 0 <= i < |WithIds(us, ids)| :: bound < WithIds(us, ids)[i].id
  {
    if us != [] {
      WithIdsAbove(us[1..], ids, bound);
      var rest := WithIds(us[1..], ids);
      assert WithIds(us, ids) == (if us[0].id in ids then [us[0]] else []) + rest;
    }
  }

  /** `getUsers`: no ids (null or empty) lists everyone, otherwise the listed ids; either way
      in id order, and `from` is the page INDEX, not an offset. */
  function GetUsers(s: UserStore, ids: Option<seq<int>>, from: int, size: int): (r: Result<seq<User>>)
    ensures r.Err? <==> from < 0 || size < 1
    ensures r.Ok? && (ids.None? || ids == Some([])) ==>
              forall k | 0 <= k < |r.value| :: from * size + k < |s.users| && r.value[k] == s.users[from * size + k]
    ensures r.Ok? && ids.Some? && ids.value != [] ==>
              forall k | 0 <= k < |r.value| :: from * size + k < |WithIds(s.users, ids.value)|
                && r.value[k] == WithIds(s.users, ids.value)[from * size + k]
    ensures r.Ok? && ids.Some? && ids.value != [] ==> forall u | u in r.value :: u in s.users && u.id in ids.value
  {
    if ids.None? || ids.value == [] then PageOf(s.users, from, size)
    else
      var rows := WithIds(s.users, ids.value);
      WithIdsExact(s.users, ids.value);
      var r := PageOf(rows, from, size);
      assert r.Ok? ==> forall u | u in r.value :: u in rows by {
        if r.Ok? {
          forall u | u in r.value ensures u in rows {
            var k :| 0 <= k < |r.value| && r.value[k] == u;
            assert rows[from * size + k] == u;
          }
        }
      }
      r
  }

  /** The listing is in ascending id order. */
  lemma GetUsersAscending(s: UserStore, ids: Option<seq<int>>, from: int, size: int)
    requires Valid(s) && GetUsers(s, ids, from, size).Ok?
    ensures Ascending(GetUsers(s, ids, from, size).value)
  {
    var rows := if ids.None? || ids.value == [] then s.users else WithIds(s.users, ids.value);
    if ids.Some? && ids.value != [] {
      WithIdsAscending(s.users, ids.value);
    }
    PageAscending(rows, from, size);
  }

  lemma PageAscending(rows: seq<User>, from: int, size: int)
    requires Ascending(rows) && PageOf(rows, from, size).Ok?
    ensures Ascending(PageOf(rows, from, size).value)
  {
    var page := PageOf(rows, from, size).value;
    forall i, j | 0 <= i < j < |page| ensures page[i].id < page[j].id {
      assert page[i] == rows[from * size + i] && page[j] == rows[from * size + j];
    }
  }

  /** `deleteUser`: an unknown id is NotFound; otherwise exactly that user goes. */
  function DeleteUser(s: UserStore, userId: int): (r: Result<UserStore>)
    ensures r.Ok? <==> exists i | 0 <= i < |s.users| :: s.users[i].id == userId
    ensures r.Err? ==> r.error == NotFound
    ensures r.Ok? ==> r.value.nextId == s.nextId
    ensures r.Ok? ==> forall u | u in r.value.users :: u in s.users && u.id != userId
    ensures r.Ok? ==> forall u | u in s.users && u.id != userId :: u in r.value.users
  {
    if exists i | 0 <= i < |s.users| :: s.users[i].id == userId then
      Ok(s.(users := WithoutId(s.users, userId)))
    else Err(NotFound)
  }

  function WithoutId(us: seq<User>, userId: int): (r: seq<User>)
    ensures forall u | u in r :: u in us && u.id != userId
    ensures forall u | u in us && u.id != userId :: u in r
  {
    if us == [] then []
    else (if us[0].id != userId then [us[0]] else []) + WithoutId(us[1..], userId)
  }
}
