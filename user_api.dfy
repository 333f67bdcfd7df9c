/**
 The in-memory user store of the user-management API and its five route
 handlers: GET /users (a page of the list), GET /users/{id}, POST /users,
 PUT /users/{id} and DELETE /users/{id}.

 The store is an ordered list of users in insertion order. Listing and lookup
 only read it and are functions; create, update and delete change it and are
 methods of the `Store` class. Every operation is sequential and atomic here.
 */
module UserApi {

  datatype Option<T> = None | Some(value: T) {
    /** The value, or `default` when there is none (C#'s `??=`). */
    function GetOr(default: T): (r: T)
      ensures Some? ==> r == value
      ensures None? ==> r == default
    {
      match this
      case Some(v) => v
      case None => default
    }
  }

  /** A stored user record. */
  datatype User = User(Id: int, Name: string, Email: string)

  /** The JSON body of POST and PUT. A field absent from the body (C# `null`)
      is `None`. Both handlers ignore any `Id` the body carries. */
  datatype UserBody = UserBody(Name: Option<string>, Email: Option<string>)

  /** What a handler answers: the status kind and its payload. */
  datatype Response =
    | OkList(users: seq<User>)    // 200 with the page as a JSON array
    | OkUser(user: User)          // 200 with one user
    | Created(user: User)         // 201 with the new user (and its Location)
    | NoContent                   // 204
    | NotFound                    // 404
    | BadRequest(message: string) // 400 with a message

  const DefaultPageSize := 10
  const RequiredMessage := "Name and Email are required."
  const InvalidEmailMessage := "Invalid email format."

  // ---------------------------------------------------------------------
  // 32-bit integers
  // ---------------------------------------------------------------------

  const Int32Min := -0x8000_0000
  const Int32Max := 0x7FFF_FFFF

  predicate IsInt32(x: int) {
    Int32Min <= x <= Int32Max
  }

  /** The value C#'s unchecked `int` arithmetic gives for the mathematical result `x`. */
  function Wrap32(x: int): (r: int)
    ensures IsInt32(r)
    ensures (r - x) % 0x1_0000_0000 == 0
    ensures IsInt32(x) ==> r == x
  {
    (x + 0x8000_0000) % 0x1_0000_0000 - 0x8000_0000
  }

  // ---------------------------------------------------------------------
  // Sequence operations the handlers use (LINQ and List<T>)
  // ---------------------------------------------------------------------

  /** `n` clamped to the range 0 .. len. */
  function Clamp(n: int, len: nat): (r: nat)
    ensures r <= len
    ensures 0 < n <= len ==> r == n
  {
    if n <= 0 then 0 else if n < len then n else len
  }

  /** LINQ `Skip`: drops the first `n` elements, one at a time; a count of
      zero or less drops nothing. */
  function Skip<T>(s: seq<T>, n: int): (r: seq<T>)
    ensures r == s[Clamp(n, |s|)..]
    decreases |s|
  {
    if n <= 0 || s == [] then s else Skip(s[1..], n - 1)
  }

  /** LINQ `Take`: keeps the first `n` elements, one at a time; a count of
      zero or less keeps nothing. */
  function Take<T>(s: seq<T>, n: int): (r: seq<T>)
    ensures r == s[..Clamp(n, |s|)]
    decreases |s|
  {
    if n <= 0 || s == [] then [] else [s[0]] + Take(s[1..], n - 1)
  }

  /** `users.Remove(user)`: List<T>.Remove deletes the first element equal to
      `user`. The handler passes the element `FirstOrDefault` found, so that
      first element is the one at the index `i` of `FindFirst`, and the list
      loses exactly that element. */
  function RemoveAt<T>(s: seq<T>, i: nat): (r: seq<T>)
    requires i < |s|
    ensures |r| == |s| - 1
    ensures forall k | 0 <= k < |r| :: r[k] == if k < i then s[k] else s[k + 1]
  {
    s[..i] + s[i + 1..]
  }

  /** The index of the element `FirstOrDefault(u => u.Id == id)` returns,
      scanning from the front; None when it returns null. */
  function FindFirst(s: seq<User>, id: int): (r: Option<nat>)
    ensures r.None? <==> forall i | 0 <= i < |s| :: s[i].Id != id
    ensures r.Some? ==> r.value < |s| && s[r.value].Id == id
    ensures r.Some? ==> forall j | 0 <= j < r.value :: s[j].Id != id
    decreases |s|
  {
    if s == [] then None
    else if s[0].Id == id then Some(0)
    else match FindFirst(s[1..], id)
      case None => None
      case Some(k) => Some(k + 1)
  }

  /** `Max(u => u.Id)` over a non-empty list. */
  function MaxId(s: seq<User>): (m: int)
    requires s != []
    ensures forall i | 0 <= i < |s| :: s[i].Id <= m
    ensures exists i | 0 <= i < |s| :: s[i].Id == m
    decreases |s|
  {
    if |s| == 1 then s[0].Id
    else
      var m := MaxId(s[..|s| - 1]);
      if s[|s| - 1].Id > m then s[|s| - 1].Id else m
  }

  /** The Id POST gives a new user: one more than the largest Id in the
      store, or 1 when the store is empty. */
  function NextId(s: seq<User>): (r: int)
    ensures forall i | 0 <= i < |s| :: s[i].Id < r
    ensures s == [] ==> r == 1
    ensures s != [] ==> exists i | 0 <= i < |s| :: s[i].Id == r - 1
  {
    if |s| > 0 then MaxId(s) + 1 else 1
  }

  /** No two users in `s` share an Id. */
  ghost predicate DistinctIds(s: seq<User>) {
    forall i, j | 0 <= i < j < |s| :: s[i].Id != s[j].Id
  }

  // ---------------------------------------------------------------------
  // Input validation
  // ---------------------------------------------------------------------

  /** .NET `char.IsWhiteSpace`: the Unicode space, line and paragraph
      separators, the controls U+0009 to U+000D, and U+0085. */
  function IsWhiteSpace(c: char): (r: bool)
    ensures c == ' ' || c == '\t' || c == '\n' || c == '\r' ==> r
    ensures r ==> c < 'A' || '\U{7F}' < c
    ensures '0' <= c <= '9' || 'A' <= c <= 'Z' || 'a' <= c <= 'z' || c == '@' || c == '.' ==> !r
  {
    || '\t' <= c <= '\r'
    || c == ' '
    || c == '\U{85}'
    || c == '\U{A0}'
    || c == '\U{1680}'
    || '\U{2000}' <= c <= '\U{200A}'
    || c == '\U{2028}'
    || c == '\U{2029}'
    || c == '\U{202F}'
    || c == '\U{205F}'
    || c == '\U{3000}'
  }

  /** The scan inside `string.IsNullOrWhiteSpace`: true unless some character
      is not white space. */
  function AllWhiteSpace(s: string): (r: bool)
    ensures r <==> forall i | 0 <= i < |s| :: IsWhiteSpace(s[i])
    decreases |s|
  {
    s == [] || (IsWhiteSpace(s[0]) && AllWhiteSpace(s[1..]))
  }

  /** `string.IsNullOrWhiteSpace`: null, empty, or white space only. */
  function IsNullOrWhiteSpace(s: Option<string>): (r: bool)
    ensures s.None? || s == Some("") ==> r
    ensures !r <==> s.Some? && exists i | 0 <= i < |s.value| :: !IsWhiteSpace(s.value[i])
  {
    s.None? || AllWhiteSpace(s.value)
  }

  /** The first check of POST and PUT: both fields are present and each holds
      a character that is not white space. */
  function HasNameAndEmail(body: UserBody): (r: bool)
    ensures r ==> body.Name.Some? && body.Email.Some?
    ensures r ==> |body.Name.value| > 0 && |body.Email.value| > 0
    ensures r <==>
      && body.Name.Some? && (exists i | 0 <= i < |body.Name.value| :: !IsWhiteSpace(body.Name.value[i]))
      && body.Email.Some? && (exists i | 0 <= i < |body.Email.value| :: !IsWhiteSpace(body.Email.value[i]))
  {
    !IsNullOrWhiteSpace(body.Name) && !IsNullOrWhiteSpace(body.Email)
  }

  /** The body passes both checks POST and PUT make before touching the store:
      the first check, then the email check on the (then present) Email. */
  function Acceptable(body: UserBody, validEmail: string -> bool): (r: bool)
    ensures r ==> body.Name.Some? && body.Email.Some? && validEmail(body.Email.value)
    ensures !HasNameAndEmail(body) ==> !r
    ensures HasNameAndEmail(body) ==> (r <==> validEmail(body.Email.value))
  {
    HasNameAndEmail(body) && validEmail(body.Email.value)
  }

  // ---------------------------------------------------------------------
  // The store and its handlers
  // ---------------------------------------------------------------------

  class Store {
    /** The users, in insertion order. */
    var users: seq<User>
    /** The program's `IsValidEmail`, left uninterpreted. */
    const validEmail: string -> bool

    /** Ids are distinct and positive: POST is the only way in, and it
        hands out max + 1 (or 1). */
    ghost predicate Valid()
      reads this
    {
      && DistinctIds(users)
      && forall i | 0 <= i < |users| :: users[i].Id > 0
    }

    /** The empty store the program starts with. */
    constructor (validEmail: string -> bool)
      ensures Valid()
      ensures users == [] && this.validEmail == validEmail
    {
      users := [];
      this.validEmail := validEmail;
    }

    /** GET /users?page=&pageSize=: skips `(page - 1) * pageSize` users
        (32-bit arithmetic) and takes `pageSize`, with page defaulting to 1
        and pageSize to 10. */
    function List(page: Option<int>, pageSize: Option<int>): (r: Response)
      reads this
      requires page.Some? ==> IsInt32(page.value)
      requires pageSize.Some? ==> IsInt32(pageSize.value)
      ensures r.OkList?
      ensures
        var size := pageSize.GetOr(DefaultPageSize);
        var from := Clamp(Wrap32((page.GetOr(1) - 1) * size), |users|);
        && |r.users| == Clamp(size, |users| - from)
        && forall k | 0 <= k < |r.users| :: r.users[k] == users[from + k]
    {
      var size := pageSize.GetOr(DefaultPageSize);
      var skip := Wrap32((page.GetOr(1) - 1) * size);
      OkList(Take(Skip(users, skip), size))
    }

    /** GET /users/{id}: the first user with that Id, or 404. */
    function Get(id: int): (r: Response)
      reads this
      ensures r.NotFound? || r.OkUser?
      ensures r.NotFound? <==> forall i | 0 <= i < |users| :: users[i].Id != id
      ensures r.OkUser? ==> r.user.Id == id
      ensures r.OkUser? ==>
        exists i | 0 <= i < |users| ::
          users[i] == r.user && forall j | 0 <= j < i :: users[j].Id != id
    {
      match FindFirst(users, id)
      case None => NotFound
      case Some(i) => OkUser(users[i])
    }

    /** POST /users: validates, then appends the user with the next Id. */
    method Create(body: UserBody) returns (r: Response)
      requires Valid()
      modifies this
      ensures Valid()
      ensures !HasNameAndEmail(body) ==>
        r == BadRequest(RequiredMessage) && users == old(users)
      ensures HasNameAndEmail(body) && !validEmail(body.Email.value) ==>
        r == BadRequest(InvalidEmailMessage) && users == old(users)
      ensures Acceptable(body, validEmail) ==>
        && r == Created(User(NextId(old(users)), body.Name.value, body.Email.value))
        && users == old(users) + [r.user]
      ensures r.Created? ==>
        && r.user.Id > 0
        && (forall i | 0 <= i < |old(users)| :: old(users)[i].Id != r.user.Id)
        && Get(r.user.Id) == OkUser(r.user)
    {
      if IsNullOrWhiteSpace(body.Name) || IsNullOrWhiteSpace(body.Email) {
        return BadRequest(RequiredMessage);
      }
      if !validEmail(body.Email.value) {
        return BadRequest(InvalidEmailMessage);
      }
      var user := User(NextId(users), body.Name.value, body.Email.value);
      NextIdPositive(users);
      AppendFreshId(users, user);
      users := users + [user];
      r := Created(user);
    }

    /** PUT /users/{id}: validates first, then overwrites Name and Email of
        the first user with that Id. */
    method Update(id: int, body: UserBody) returns (r: Response)
      requires Valid()
      modifies this
      ensures Valid()
      ensures !HasNameAndEmail(body) ==>
        r == BadRequest(RequiredMessage) && users == old(users)
      ensures HasNameAndEmail(body) && !validEmail(body.Email.value) ==>
        r == BadRequest(InvalidEmailMessage) && users == old(users)
      ensures Acceptable(body, validEmail) && FindFirst(old(users), id).None? ==>
        r == NotFound && users == old(users)
      ensures Acceptable(body, validEmail) && FindFirst(old(users), id).Some? ==>
        var i := FindFirst(old(users), id).value;
        && users == old(users)[i := old(users)[i].(Name := body.Name.value, Email := body.Email.value)]
        && r == OkUser(users[i])
      ensures r.OkUser? ==> Get(id) == r
    {
      if IsNullOrWhiteSpace(body.Name) || IsNullOrWhiteSpace(body.Email) {
        return BadRequest(RequiredMessage);
      }
      if !validEmail(body.Email.value) {
        return BadRequest(InvalidEmailMessage);
      }
      var found := FindFirst(users, id);
      if found.None? {
        return NotFound;
      }
      var i := found.value;
      var user := users[i].(Name := body.Name.value, Email := body.Email.value);
      ghost var before := users;
      users := users[i := user];
      FindFirstAfterUpdate(before, i, user);
      r := OkUser(user);
    }

    /** DELETE /users/{id}: removes the first user with that Id, or 404. */
    method Delete(id: int) returns (r: Response)
      requires Valid()
      modifies this
      ensures Valid()
      ensures FindFirst(old(users), id).None? ==>
        r == NotFound && users == old(users)
      ensures FindFirst(old(users), id).Some? ==>
        r == NoContent && users == RemoveAt(old(users), FindFirst(old(users), id).value)
      ensures r == NoContent ==> Get(id) == NotFound
    {
      var found := FindFirst(users, id);
      if found.None? {
        return NotFound;
      }
      RemoveKeepsDistinct(users, found.value);
      users := RemoveAt(users, found.value);
      r := NoContent;
    }
  }

  // ---------------------------------------------------------------------
  // Lemmas
  // ---------------------------------------------------------------------

  /** Ids handed out to a store of positive Ids are positive. */
  lemma NextIdPositive(s: seq<User>)
    requires forall i | 0 <= i < |s| :: s[i].Id > 0
    ensures NextId(s) > 0
  {
  }

  /** Appending a user with the next Id keeps the Ids distinct, and a lookup
      of that Id then finds the new user at the end. */
  lemma {:induction false} AppendFreshId(s: seq<User>, u: User)
    requires DistinctIds(s)
    requires u.Id == NextId(s)
    ensures DistinctIds(s + [u])
    ensures FindFirst(s + [u], u.Id) == Some(|s|)
  {
    var t := s + [u];
    forall a, b | 0 <= a < b < |t| ensures t[a].Id != t[b].Id {
      assert t[a] == s[a];
      if b < |s| {
        assert t[b] == s[b];
      }
    }
    assert t[|s|].Id == u.Id;
    assert forall k | 0 <= k < |s| :: t[k] == s[k];
  }

  /** Overwriting the record at the first match for its Id, without changing
      its Id, keeps it the first match. */
  lemma FindFirstAfterUpdate(s: seq<User>, i: nat, u: User)
    requires i < |s|
    requires FindFirst(s, s[i].Id) == Some(i)
    requires u.Id == s[i].Id
    ensures FindFirst(s[i := u], u.Id) == Some(i)
    ensures DistinctIds(s) ==> DistinctIds(s[i := u])
  {
    var t := s[i := u];
    assert t[i].Id == u.Id;
  }

  /** Removing a record keeps the remaining Ids distinct, and the removed Id
      is then absent. */
  lemma RemoveKeepsDistinct(s: seq<User>, i: nat)
    requires i < |s|
    requires DistinctIds(s)
    ensures DistinctIds(RemoveAt(s, i))
    ensures forall k | 0 <= k < |s| - 1 :: RemoveAt(s, i)[k].Id != s[i].Id
  {
    var t := RemoveAt(s, i);
    forall a, b | 0 <= a < b < |t| ensures t[a].Id != t[b].Id {
      var a' := if a < i then a else a + 1;
      var b' := if b < i then b else b + 1;
      assert t[a] == s[a'] && t[b] == s[b'];
    }
    forall k | 0 <= k < |t| ensures t[k].Id != s[i].Id {
      var k' := if k < i then k else k + 1;
      assert t[k] == s[k'];
    }
  }

  /** Deleting a user leaves the next Id unchanged exactly when that user did
      not hold the largest Id; deleting the holder of the largest Id makes
      the next Id smaller, so that Id can be handed out again. */
  lemma {:induction false} NextIdAfterDelete(s: seq<User>, i: nat)
    requires i < |s|
    requires DistinctIds(s)
    requires forall k | 0 <= k < |s| :: s[k].Id > 0
    ensures NextId(RemoveAt(s, i)) <= NextId(s)
    ensures NextId(RemoveAt(s, i)) == NextId(s) <==> s[i].Id + 1 != NextId(s)
  {
    if s[i].Id + 1 == NextId(s) {
      DeleteMaxLowersNextId(s, i);
    } else {
      DeleteOtherKeepsNextId(s, i);
    }
  }

  /** Deleting a user that does not hold the largest Id keeps the largest Id. */
  lemma {:induction false} DeleteOtherKeepsNextId(s: seq<User>, i: nat)
    requires i < |s|
    requires s[i].Id + 1 != NextId(s)
    ensures NextId(RemoveAt(s, i)) == NextId(s)
  {
    var t := RemoveAt(s, i);
    var j :| 0 <= j < |s| && s[j].Id == NextId(s) - 1;
    var j' := if j < i then j else j - 1;
    assert t[j'] == s[j];
    forall k | 0 <= k < |t| ensures t[k].Id < NextId(s) {
      var k' := if k < i then k else k + 1;
      assert t[k] == s[k'];
    }
    var m :| 0 <= m < |t| && t[m].Id == NextId(t) - 1;
  }

  /** Deleting the holder of the largest Id brings the next Id down to at most
      that Id. */
  lemma {:induction false} DeleteMaxLowersNextId(s: seq<User>, i: nat)
    requires i < |s|
    requires DistinctIds(s)
    requires forall k | 0 <= k < |s| :: s[k].Id > 0
    requires s[i].Id + 1 == NextId(s)
    ensures NextId(RemoveAt(s, i)) <= s[i].Id
  {
    var t := RemoveAt(s, i);
    if t != [] {
      forall k | 0 <= k < |t| ensures t[k].Id < s[i].Id {
        var k' := if k < i then k else k + 1;
        assert t[k] == s[k'];
        assert s[k'].Id != s[i].Id;
      }
      var m :| 0 <= m < |t| && t[m].Id == NextId(t) - 1;
    }
  }

  /** The documented renumbering: with Ids 1 to 5, deleting Id 5 makes the
      next POST hand out 5 again. */
  lemma IdReuseAfterDeletingMax(s: seq<User>)
    requires |s| == 5
    requires forall i | 0 <= i < 5 :: s[i].Id == i + 1
    ensures NextId(s) == 6
    ensures FindFirst(s, 5) == Some(4)
    ensures NextId(RemoveAt(s, 4)) == 5
  {
  }

  /** The largest Id can grow while the store does not: a POST followed by
      the DELETE of the oldest user leaves the store's size unchanged and
      raises the next Id by one. */
  lemma CreateThenDeleteOldest(s: seq<User>, name: string, email: string)
    requires s != []
    requires DistinctIds(s)
    ensures
      var t := RemoveAt(s + [User(NextId(s), name, email)], 0);
      |t| == |s| && NextId(t) == NextId(s) + 1
  {
    var u := User(NextId(s), name, email);
    var s' := s + [u];
    assert s'[|s|] == u;
    assert NextId(s') == NextId(s) + 1 by {
      forall k | 0 <= k < |s'| ensures s'[k].Id <= u.Id {
        if k < |s| {
          assert s'[k] == s[k];
        }
      }
    }
    assert s'[0] == s[0];
    DeleteOtherKeepsNextId(s', 0);
  }

  /** A page is empty when the page size is not positive or the skip count
      reaches the end of the store. */
  lemma ListEmpty(st: Store, page: Option<int>, pageSize: Option<int>)
    requires page.Some? ==> IsInt32(page.value)
    requires pageSize.Some? ==> IsInt32(pageSize.value)
    requires
      var size := pageSize.GetOr(DefaultPageSize);
      size <= 0 || Wrap32((page.GetOr(1) - 1) * size) >= |st.users|
    ensures st.List(page, pageSize) == OkList([])
  {
  }

  /** Without parameters the list is the first ten users (or all of them),
      in insertion order. */
  lemma ListDefaults(st: Store)
    ensures st.List(None, None) == OkList(st.users[..Clamp(DefaultPageSize, |st.users|)])
  {
  }

  /** Page 2 of size 2 over five users is the users at indices 2 and 3. */
  lemma ListSecondPage(st: Store)
    requires |st.users| == 5
    ensures st.List(Some(2), Some(2)) == OkList([st.users[2], st.users[3]])
  {
  }

  /** When `(page - 1) * pageSize` fits in 32 bits, a page number of zero or
      less is the first page: with a non-negative size the skip count is not
      positive and skips nothing; with a negative size nothing is taken. */
  lemma ListNonPositivePage(st: Store, page: int, pageSize: int)
    requires IsInt32(page) && page <= 0
    requires IsInt32(pageSize)
    requires IsInt32((page - 1) * pageSize)
    ensures st.List(Some(page), Some(pageSize)) == OkList(st.users[..Clamp(pageSize, |st.users|)])
  {
    if pageSize >= 0 {
      var skip := (page - 1) * pageSize;
      NegativeTimesNonNegative(page - 1, pageSize);
      assert Wrap32(skip) <= 0;
      var r := st.List(Some(page), Some(pageSize));
      assert r.users == st.users[..Clamp(pageSize, |st.users|)];
    }
  }

  /** The one non-linear step of `ListNonPositivePage`, kept apart so that the
      solver meets the product in a small context. */
  lemma NegativeTimesNonNegative(a: int, b: int)
    requires a < 0 <= b
    ensures a * b <= 0
  {
  }

  /** The skip count is computed in 32 bits: page 2^30 of size 4 wraps to a
      skip count of -4 and so returns the first page. */
  lemma ListOffsetWraps(st: Store)
    requires |st.users| >= 4
    ensures st.List(Some(0x4000_0000), Some(4)) == OkList(st.users[..4])
  {
    assert Wrap32((0x4000_0000 - 1) * 4) == -4;
  }

  /** An overflowing product can also wrap to a large positive skip count:
      page 0x6000_0000 of size 4 skips 0x7FFF_FFFC users, so the page is
      empty. */
  lemma ListOffsetWrapsPositive(st: Store)
    requires |st.users| < 0x7FFF_FFFC
    ensures st.List(Some(0x6000_0000), Some(4)) == OkList([])
  {
    assert Wrap32((0x6000_0000 - 1) * 4) == 0x7FFF_FFFC;
  }
}
