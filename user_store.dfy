/** The persisted `users` table as an object that the signup and clear
    handlers update in place, and that the signin handler only reads. */
module Store {
  import opened Accounts

  class UserStore {
    /** username -> row; at most one row per username */
    var rows: map<string, Row>
    /** the id the next inserted row receives */
    var nextId: nat

    /** The table as a value. */
    function State(): Db
      reads this
    {
      Db(rows, nextId)
    }

    ghost predicate Valid()
      reads this
    {
      Accounts.Valid(State())
    }

    /** Opening the database at process start keeps a table that already
        exists in the file. */
    constructor (existing: Db)
      requires Accounts.Valid(existing)
      ensures Valid()
      ensures State() == existing
    {
      rows := existing.rows;
      nextId := existing.nextId;
    }

    method Signup(username: string, password: string) returns (r: Response)
      requires Valid()
      modifies this
      ensures Valid()
      ensures (State(), r) == Accounts.Signup(old(State()), username, password)
      ensures r.success <==> username !in old(rows)
      ensures !r.success ==> r.message == AlreadyRegistered && rows == old(rows) && nextId == old(nextId)
      ensures r.success ==> r.message == SignupDone
      ensures r.success ==> rows == old(rows)[username := Row(old(nextId), password)] && nextId == old(nextId) + 1
    {
      if username in rows {
        return Response(false, AlreadyRegistered);
      }
      rows := rows[username := Row(nextId, password)];
      nextId := nextId + 1;
      r := Response(true, SignupDone);
    }

    method Signin(username: string, password: string) returns (r: Response)
      ensures r == Accounts.Signin(State(), username, password)
      ensures r.success <==> username in rows && rows[username].password == password
    {
      if username !in rows {
        return Response(false, NotRegistered);
      }
      if password != rows[username].password {
        return Response(false, WrongPassword);
      }
      r := Response(true, SigninOk);
    }

    method Clear() returns (m: Msg)
      modifies this
      ensures Valid()
      ensures (State(), m) == Accounts.Clear()
      ensures rows == map[] && nextId == 1
    {
      rows := map[];
      nextId := 1;
      m := DatabaseCleared;
    }
  }
}
