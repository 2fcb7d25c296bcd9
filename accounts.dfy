/** The account registry of the service: the `users` table and the decision
    logic of the signup, signin and clear handlers, as values and functions.
    The table is a map from username to row, so the unique constraint on
    the username column holds by construction. */
module Accounts {

  datatype Option<+T> = None | Some(value: T)

  /** The fixed messages the handlers answer with. */
  datatype Msg =
    | AlreadyRegistered
    | SignupDone
    | NotRegistered
    | WrongPassword
    | SigninOk
    | DatabaseCleared

  /** The text of each message, as the handlers put it in the response body. */
  function Text(m: Msg): (s: string)
  {
    match m
    case AlreadyRegistered => "이미 등록된 사용자입니다."
    case SignupDone => "회원 가입이 완료되었습니다."
    case NotRegistered => "등록되지 않은 사용자입니다."
    case WrongPassword => "잘못된 비밀번호입니다."
    case SigninOk => "로그인 성공"
    case DatabaseCleared => "Database cleared."
  }

  /** A client can tell every outcome apart by the message text alone. */
  lemma TextDistinct(m1: Msg, m2: Msg)
    ensures Text(m1) == Text(m2) ==> m1 == m2
  {
  }

  /** The body `{success, message}` of a signup or signin response. */
  datatype Response = Response(success: bool, message: Msg)

  /** One row of the `users` table: the generated id and the password,
      stored verbatim. The username is the row's key in the table. */
  datatype Row = Row(id: nat, password: string)

  /** The `users` table and the id the next inserted row receives. */
  datatype Db = Db(rows: map<string, Row>, nextId: nat)

  /** The ids in use are exactly 1 .. n for n rows: each row's id is below
      nextId, no two rows share an id, and nextId is one past the number of
      rows (rows are only ever removed all at once, by recreating the table). */
  ghost predicate Valid(db: Db)
  {
    && db.nextId == |db.rows| + 1
    && (forall u :: u in db.rows ==> 1 <= db.rows[u].id < db.nextId)
    && (forall u, v :: u in db.rows && v in db.rows && u != v ==> db.rows[u].id != db.rows[v].id)
  }

  /** The password stored for a username, if that username is registered. */
  function Lookup(db: Db, u: string): (r: Option<string>)
    ensures r.Some? <==> u in db.rows
    ensures r.Some? ==> r.value == db.rows[u].password
  {
    if u in db.rows then Some(db.rows[u].password) else None
  }

  /** A freshly created, empty table. */
  function Empty(): (db: Db)
    ensures Valid(db)
    ensures forall u :: Lookup(db, u) == None
    ensures db.nextId == 1
  {
    Db(map[], 1)
  }

  /** The signup handler: look the username up; if it is taken, answer
      "already registered" and change nothing; otherwise insert a row with
      the next id and the password as given, and answer "signup done". */
  function Signup(db: Db, u: string, p: string): (res: (Db, Response))
    ensures res.1.success <==> u !in db.rows
    ensures res.1.message == if res.1.success then SignupDone else AlreadyRegistered
    ensures !res.1.success ==> res.0 == db
    ensures Lookup(res.0, u) == if u in db.rows then Lookup(db, u) else Some(p)
    ensures res.0.rows.Keys == db.rows.Keys + {u}
    ensures forall v :: v != u && v in db.rows ==> res.0.rows[v] == db.rows[v]
    ensures Valid(db) ==> Valid(res.0)
  {
    if u in db.rows then
      (db, Response(false, AlreadyRegistered))
    else
      (Db(db.rows[u := Row(db.nextId, p)], db.nextId + 1), Response(true, SignupDone))
  }

  /** The signin handler: an unknown username is rejected before any
      password is looked at; a known one succeeds exactly when the given
      password equals the stored one character for character. */
  function Signin(db: Db, u: string, p: string): (r: Response)
    ensures r.success <==> Lookup(db, u) == Some(p)
    ensures u !in db.rows ==> r == Response(false, NotRegistered)
    ensures u in db.rows && db.rows[u].password != p ==> r == Response(false, WrongPassword)
    ensures r.success ==> r.message == SigninOk
  {
    if u !in db.rows then
      Response(false, NotRegistered)
    else if p != db.rows[u].password then
      Response(false, WrongPassword)
    else
      Response(true, SigninOk)
  }

  /** The clear handler: drop and recreate the table, whatever it held. */
  function Clear(): (res: (Db, Msg))
    ensures Valid(res.0)
    ensures forall u :: Lookup(res.0, u) == None
    ensures res.0.nextId == 1
    ensures res.1 == DatabaseCleared
  {
    (Empty(), DatabaseCleared)
  }

  /** Signing in never changes the table: it is a function of the table
      alone, and its answer depends only on the stored password. */
  lemma SigninSeesOnlyPasswords(db1: Db, db2: Db, u: string, p: string)
    requires Lookup(db1, u) == Lookup(db2, u)
    ensures Signin(db1, u, p) == Signin(db2, u, p)
  {
  }

  /** Signing up with new credentials and then signing in with them succeeds. */
  lemma SignupThenSignin(db: Db, u: string, p: string)
    requires u !in db.rows
    ensures Signup(db, u, p).1 == Response(true, SignupDone)
    ensures Signin(Signup(db, u, p).0, u, p) == Response(true, SigninOk)
  {
  }

  /** A second signup for a registered username, with any password, does not
      change what signin answers for that username. */
  lemma SecondSignupKeepsPassword(db: Db, u: string, p: string, q: string)
    requires u in db.rows
    ensures Signup(db, u, p).1 == Response(false, AlreadyRegistered)
    ensures Signin(Signup(db, u, p).0, u, q) == Signin(db, u, q)
  {
  }

  /** Signup leaves every other user's signin answers as they were. */
  lemma SignupKeepsOthers(db: Db, u: string, p: string, v: string, q: string)
    requires v != u
    ensures Signin(Signup(db, u, p).0, v, q) == Signin(db, v, q)
  {
  }

  /** After clear, every username is unregistered. */
  lemma ClearThenSignin(u: string, p: string)
    ensures Signin(Clear().0, u, p) == Response(false, NotRegistered)
  {
  }
}
