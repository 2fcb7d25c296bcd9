# Account registry of community-backend, modelled in Dafny

The service keeps a `users` table. Each row has a generated integer `id`, a
unique `username` and a `password`, and the password is stored as given. Three
HTTP handlers act on the table:

- `signup` inserts a row, but only when the username is not registered yet.
- `signin` looks the username up and compares the password by exact equality.
- `clear` drops the table and recreates it empty.

Signup and signin always answer `{success, message}`, with one fixed message
per outcome. Clear answers `{message}`.

The model is split into three modules.

- `Accounts` (accounts.dfy) has the table as a value. `Db` holds a map from
  username to `Row(id, password)` and the id the next row will receive. The
  handlers' decisions are the pure functions `Signup`, `Signin` and `Clear`.
  The table is a map keyed by username, so the unique constraint on the
  username column holds by construction. The id invariant `Valid` says that
  for n rows the ids are exactly 1..n, pairwise distinct. Insertion order
  comes from `Signup`, which gives the new row the current `nextId`.
- `Store` (user_store.dfy) has the table as the class `UserStore`, with fields
  `rows` and `nextId`. `Signup` and `Clear` update those fields in place.
  `Signin` only reads them. Each method is proved against the matching
  function in `Accounts`.
- `Traces` (traces.dfy) runs sequences of requests (`Run`). `Accepted` is a
  reference definition, read off the request sequence without running it, of
  which password signin accepts afterwards: the first signup for that username
  after the last clear; or, when there is no clear, the password the username
  already had. The lemmas prove that running the handlers agrees with that
  definition. They also prove that between two clears a username can sign up
  successfully at most once.

The `id` column is modelled as a counter that starts at 1 and restarts at 1
when the table is recreated. SQLite gives a new row the largest rowid plus
one, and the handlers never delete a single row. So the counter and SQLite
hand out the same ids.

The request body type declares both fields as plain `str`. Nothing requires a
non-empty username or password, so the model accepts any strings, the empty
ones included. Usernames and passwords are compared exactly, as SQLite's
default binary collation and Python's `!=` do.

## Model

| member | source | states |
|---|---|---|
| `Accounts.Lookup` | main.py:51 | the lookup by username finds a row exactly when the username is registered, and gives that row's stored password |
| `Accounts.Empty` | main.py:29 | a newly created table registers no username, satisfies the id invariant and gives its first row id 1. |
| `Accounts.TextDistinct` | main.py:53-91 | `Accounts.Text` renders each of the six messages as the literal the handlers return, and the lemma proves those literals pairwise different, so the message alone identifies the outcome. |
| `Accounts.Signup` | main.py:51-60 | success exactly when the username was absent; success carries "회원 가입이 완료되었습니다."; failure carries "이미 등록된 사용자입니다." and leaves the table unchanged; afterwards the username maps to the given password if it was new, and to its old password otherwise; the key set grows by exactly this username; every other row is kept; the id invariant is preserved |
| `Accounts.Signin` | main.py:77-85 | success exactly when the username is registered with exactly the given password; an unregistered username gets "등록되지 않은 사용자입니다." whatever the password; a registered one with another password gets "잘못된 비밀번호입니다."; success carries "로그인 성공" |
| `Accounts.Clear` | main.py:32-34 | after dropping and recreating the table, no username is registered, ids restart at 1, the invariant holds, and the answer is "Database cleared." |
| `Accounts.SigninSeesOnlyPasswords` | main.py:77-85 | the signin answer depends only on the password stored for that username |
| `Accounts.SignupThenSignin` | main.py:51-85 | a successful signup followed by signin with the same credentials succeeds |
| `Accounts.SecondSignupKeepsPassword` | main.py:51-53 | a second signup for a registered username, with any password, is refused and does not change what signin accepts for it |
| `Accounts.SignupKeepsOthers` | main.py:56-58 | a signup does not change any other user's signin answers |
| `Accounts.ClearThenSignin` | main.py:32-34 | after clear, signin for any username answers "not registered" |
| `Store.UserStore.constructor` | main.py:29 | opening the database keeps an existing valid table as it is |
| `Store.UserStore.Signup` | main.py:48-60 | the method updates the fields as `Accounts.Signup` says: on a duplicate the fields are unchanged; otherwise exactly one row (the username, the next id, the password) is added and the counter advances; the id invariant is preserved |
| `Store.UserStore.Signin` | main.py:74-85 | the method changes nothing and answers as `Accounts.Signin` does; success exactly when the stored password for the username equals the given one |
| `Store.UserStore.Clear` | main.py:88-91 | the table becomes empty, the counter restarts at 1, and the answer is "Database cleared." |
| `Traces.Step` | main.py:37-91 | a request other than clear never unregisters a username; signin leaves the table as it was |
| `Traces.Run` | main.py:37-91 | a sequence of requests gets exactly one reply per request |
| `Traces.RunSnoc` | main.py:37-91 | running one more request is one more handler step after the others |
| `Traces.ReplyAt` | main.py:37-91 | the reply to the k-th request is what its handler answers against the table left by the requests before it |
| `Traces.RunValid` | main.py:16-21 | every sequence of requests preserves the id invariant |
| `Traces.RunStoresAccepted` | main.py:32-85 | after any sequence of requests, the stored password for each username is the one that `Accepted` reads off the sequence |
| `Traces.SigninAfter` | main.py:77-85 | after any sequence of requests, signin succeeds exactly for the password `Accepted` names, and answers "not registered" exactly when it names none |
| `Traces.SignupReply` | main.py:51-60 | a signup in a sequence succeeds exactly when no password is accepted for its username at that point |
| `Traces.RegisteredUntilClear` | main.py:56-58 | once a username has signed up, it stays registered until a clear |
| `Traces.SignupRefusedAfterSignup` | main.py:51-53 | between two clears, any later signup for a username that has already signed up is refused as "already registered" |
| `Traces.Example` | main.py:37-91 | the example exchange: signup(alice, pw1) succeeds, signup(alice, pw2) is refused, signin(alice, pw1) succeeds, signin(alice, wrong) gets "wrong password", and after clear signin(alice, pw1) gets "not registered" |

## Left out

- The web framework is not modelled: the FastAPI application, the route decorators, the HTTP status codes and the JSON serialisation. The model works on the response values only.
- The request body type `UserCreate` (main.py:24-26) is not modelled beyond its two string fields. Its type validation is library behaviour.
- The SQLAlchemy engine, the session factory, the query and commit calls and the `users.db` file are not modelled. They become the in-memory `Db` value and the `UserStore` object. A file that already holds a table is the constructor's argument.
- Store.UserStore.constructor: requires the existing table to satisfy the id invariant, so the model assumes the database file was only ever written by these handlers. No handler reads an id, so no answer of the model depends on this assumption.
- The sessions the handlers open and never close are not modelled. This is a resource concern.
- Concurrent requests are not modelled. Without them the check-then-insert in signup cannot race, so the model assumes each request runs alone.
- Storage faults are not modelled. An unhandled fault would surface as a server error.
- The post table and its create, read, update and delete endpoints are not part of this model, because main.py does not define them. Neither does the credential check those endpoints depend on.
- Password hashing is not modelled, because the source has none: passwords are stored and compared verbatim.
