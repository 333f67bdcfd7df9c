# User store of the user-management API, in Dafny

This project models the in-memory user store of a small ASP.NET minimal API
(`Program.cs`) and proves what its five route handlers do to it.

The store is an ordered list of `User {Id, Name, Email}` records, kept in
insertion order. The handlers are:

- `GET /users?page=&pageSize=`: a page of the list. It skips
  `(page - 1) * pageSize` users and takes `pageSize`. `page` defaults to 1 and
  `pageSize` to 10.
- `GET /users/{id}`: the first user with that Id, or 404.
- `POST /users`: rejects a missing or blank Name or Email, then an Email the
  program's email check refuses (400 with a message). Otherwise it gives the
  user the Id `max(Id) + 1` (1 on an empty store), appends it, and answers 201.
- `PUT /users/{id}`: the same two checks first, then 404 for an unknown Id.
  Otherwise it overwrites Name and Email of the first user with that Id and
  answers 200 with it.
- `DELETE /users/{id}`: 404 for an unknown Id, else removes the first user with
  that Id and answers 204.

Everything lives in module `UserApi` (`user_api.dfy`):

- `User`, `UserBody` (the request body, where an absent field is `None`, C#'s
  `null`) and `Response` (the status kind and payload of a handler's answer) are
  datatypes.
- `Store` is a class. Its field `users: seq<User>` is the list the handlers
  share. Its `const validEmail: string -> bool` is the program's `IsValidEmail`,
  left uninterpreted.
- `Store.List` and `Store.Get` only read the list and are functions.
- `Store.Create`, `Store.Update` and `Store.Delete` change it and are methods.
  Each states the whole new list in terms of the old one and keeps the object
  invariant `Valid()`: Ids are distinct and positive.
- LINQ's `Skip`, `Take`, `FirstOrDefault` and `Max`, and `List<T>.Remove`, are
  modelled element by element (`Skip`, `Take`, `FindFirst`, `MaxId`,
  `RemoveAt`). Each is proved equal to a slice or characterised by what it
  returns.
- The skip count `(page - 1) * pageSize` is computed with C#'s unchecked 32-bit
  arithmetic (`Wrap32`). An overflowing product wraps to some 32-bit value:
  a negative one gives the first page (`ListOffsetWraps`), a positive one can
  give an empty page (`ListOffsetWrapsPositive`).

An Id is `max(Id) + 1`, not a counter. Deleting the user with the largest Id
therefore lets that Id be handed out again (`NextIdAfterDelete`,
`IdReuseAfterDeletingMax`).

## Model

| member | source | states |
|---|---|---|
| `UserApi.Store.constructor` | Program.cs:35 | the program starts with an empty list, which satisfies the invariant (distinct, positive Ids) |
| `UserApi.Wrap32` | Program.cs:45 | 32-bit unchecked result: in the int range, congruent to the exact value modulo 2^32, and equal to it when it fits |
| `UserApi.Skip` | Program.cs:45 | LINQ `Skip(n)` drops exactly `n` leading elements, none when `n <= 0`, all when `n >= length` |
| `UserApi.Take` | Program.cs:46 | LINQ `Take(n)` keeps exactly `n` leading elements, none when `n <= 0`, all when `n >= length` |
| `UserApi.Store.List` | Program.cs:38-50 | the page starts at index `max(0, (page-1)*pageSize)` (32-bit product) of the list, has `min(max(0, pageSize), remaining)` users, and keeps insertion order; defaults page 1 and size 10 |
| `UserApi.ListEmpty` | Program.cs:44-47 | the page is empty when pageSize is zero or negative, or the skip count reaches the end of the list |
| `UserApi.ListDefaults` | Program.cs:40-42 | with neither parameter the answer is the first ten users (or all of them) in insertion order |
| `UserApi.ListSecondPage` | Program.cs:44-47 | page 2 of size 2 over five users is exactly the users at indices 2 and 3 |
| `UserApi.ListNonPositivePage` | Program.cs:45 | when `(page-1)*pageSize` fits in 32 bits, a page number of 0 or less gives the first `pageSize` users (none for a negative size) |
| `UserApi.ListOffsetWraps` | Program.cs:45 | page 2^30 of size 4 overflows to a skip count of -4 and so returns the first four users |
| `UserApi.ListOffsetWrapsPositive` | Program.cs:45 | page 0x6000_0000 of size 4 overflows to a skip count of 0x7FFF_FFFC and so returns an empty page |
| `UserApi.Option.GetOr` | Program.cs:41-42 | `??=`: a given value is kept, a missing one becomes the default |
| `UserApi.IsWhiteSpace` | Program.cs:65 | `char.IsWhiteSpace` holds for space, tab, line feed and carriage return, and never for ASCII letters, digits, `@` or `.` |
| `UserApi.AllWhiteSpace` | Program.cs:65 | the character scan is true exactly when every character is white space |
| `UserApi.IsNullOrWhiteSpace` | Program.cs:65 | `string.IsNullOrWhiteSpace` holds for null and the empty string, and fails exactly when the string has a character that is not white space |
| `UserApi.HasNameAndEmail` | Program.cs:65 | the first check passes exactly when Name and Email are both present and each has a character that is not white space |
| `UserApi.Acceptable` | Program.cs:65-73 | a body passes both checks only with Name and Email present and the email check true; with the first check failed it never passes; with it passed it passes exactly when the email check holds |
| `UserApi.FindFirst` | Program.cs:54 | `FirstOrDefault(u => u.Id == id)`: absent exactly when no user has that Id; otherwise an index holding that Id with no earlier one |
| `UserApi.Store.Get` | Program.cs:52-61 | 404 exactly when no user has the Id; otherwise 200 with the first user in the list whose Id matches |
| `UserApi.MaxId` | Program.cs:77 | `Max(u => u.Id)` is an upper bound of every Id and is the Id of some user |
| `UserApi.NextId` | Program.cs:77 | the assigned Id exceeds every Id in the store; it is 1 on an empty store, and otherwise one more than an Id in the store |
| `UserApi.NextIdPositive` | Program.cs:77 | over positive Ids, the assigned Id is positive |
| `UserApi.AppendFreshId` | Program.cs:77-78 | appending the user with the assigned Id keeps Ids distinct, and a lookup of that Id finds the new, last user |
| `UserApi.Store.Create` | Program.cs:63-81 | blank or missing Name/Email gives 400 "Name and Email are required."; then a refused Email gives 400 "Invalid email format."; both leave the list unchanged; otherwise the user with Id max+1 (or 1) is appended and returned with 201, its Id is positive and new, and GET of that Id returns it |
| `UserApi.FindFirstAfterUpdate` | Program.cs:95-99 | overwriting the first match for an Id without changing its Id keeps it the first match and keeps Ids distinct |
| `UserApi.Store.Update` | Program.cs:83-101 | validation comes before the lookup: blank or invalid input gives 400 even for an unknown Id; a valid body for an unknown Id gives 404; in those cases the list is unchanged; otherwise only Name and Email of the first user with that Id change (same Id, length, order and other users) and the updated user is returned, which GET then returns |
| `UserApi.RemoveAt` | Program.cs:114 | `users.Remove(user)` with `user` the element found at index i: one shorter, earlier elements in place, later ones shifted down by one |
| `UserApi.RemoveKeepsDistinct` | Program.cs:107-114 | removing a user keeps the remaining Ids distinct and leaves no user with the removed Id |
| `UserApi.Store.Delete` | Program.cs:103-117 | unknown Id gives 404 and the list is unchanged; otherwise exactly the first user with that Id is removed, the others keep their order, the answer is 204, and GET of that Id is then 404 |
| `UserApi.NextIdAfterDelete` | Program.cs:77 | after a deletion the next Id never grows, and it stays the same exactly when the deleted user did not hold the largest Id |
| `UserApi.DeleteOtherKeepsNextId` | Program.cs:77 | deleting a user that does not hold the largest Id leaves the next Id unchanged |
| `UserApi.DeleteMaxLowersNextId` | Program.cs:77 | deleting the holder of the largest Id brings the next Id down to at most that Id, so it can be reused |
| `UserApi.IdReuseAfterDeletingMax` | Program.cs:77 | with Ids 1 to 5 the next Id is 6; after deleting Id 5 it is 5 again |
| `UserApi.CreateThenDeleteOldest` | Program.cs:77-78 | a POST followed by the DELETE of the oldest user keeps the store's size and raises the next Id by one, so Ids grow without the store growing |

Listing and lookup are functions of the store, so they never change it.

## Left out

- Host setup: the builder, Swagger, HTTPS redirection, authorization, controller mapping, the `/` route and `app.Run()` (Program.cs:1-33, 132). It is framework configuration with no logic of its own.
- The lock `usersLock` and the unlocked update path. Every operation is modelled as sequential and atomic, so the race between PUT and POST/DELETE is not represented.
- The logger calls. They are output only and do not affect any answer.
- `IsValidEmail`'s body, which relies on `System.Net.Mail.MailAddress` parsing. It is the uninterpreted `Store.validEmail`, so facts such as "`a@b.com` is valid" are not stated.
- `UserApi.IsWhiteSpace` follows the documented set of .NET's `char.IsWhiteSpace`. That library is not part of this model and its set depends on the Unicode version.
- Query-string binding. A `page` or `pageSize` that is not a 32-bit integer is rejected by the framework before the handler runs. `Store.List` therefore requires both values to be in the `int` range.
- `UserApi.NextId`: does not model 32-bit wrap-around of `max(Id) + 1`. Reaching it takes 2^31−1 successful POSTs, deletions in between included, since a POST followed by a DELETE raises the largest Id without growing the store (`CreateThenDeleteOldest`). After that every POST gets `int.MinValue`, so Ids repeat and are negative; the model does not capture this, and `Store.Valid()` (distinct, positive Ids) holds only because Ids are unbounded here.
- Object identity of users. In C# a `User` is a reference, and PUT mutates the object shared by the list. The model replaces the record in the sequence by value, which gives the same answers because each handler serialises its result.
- The `Location` header of the 201 answer and the JSON encoding of bodies. Only the status kind and payload are kept.
- The error-interceptor, bearer-token and access-logging middleware. They are not part of `Program.cs`, so they are not part of this model.
