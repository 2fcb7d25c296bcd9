/** Sequences of requests to the three handlers, run one after another
    against the table, and what they leave behind. */
module Traces {
  import opened Accounts

  datatype Request =
    | SignupReq(username: string, password: string)
    | SigninReq(username: string, password: string)
    | ClearReq

  /** What a handler answers: signup and signin answer `{success, message}`,
      clear answers only a message. */
  datatype Reply = AccountReply(response: Response) | ClearReply(message: Msg)

  /** One request handled against the table. */
  function Step(db: Db, req: Request): (res: (Db, Reply))
    ensures !req.ClearReq? ==> db.rows.Keys <= res.0.rows.Keys
    ensures req.SigninReq? ==> res.0 == db
  {
    match req
    case SignupReq(u, p) =>
      var (db', r) := Signup(db, u, p);
      (db', AccountReply(r))
    case SigninReq(u, p) => (db, AccountReply(Signin(db, u, p)))
    case ClearReq =>
      var (db', m) := Clear();
      (db', ClearReply(m))
  }

  /** The requests handled in order: the final table and one reply per request. */
  function Run(db: Db, reqs: seq<Request>): (res: (Db, seq<Reply>))
    ensures |res.1| == |reqs|
    decreases |reqs|
  {
    if reqs == [] then
      (db, [])
    else
      var (db1, reply) := Step(db, reqs[0]);
      var (db2, replies) := Run(db1, reqs[1..]);
      (db2, [reply] + replies)
  }

  /** Running one more request is one more step after the rest. */
  lemma {:induction false} RunSnoc(db: Db, reqs: seq<Request>, req: Request)
    ensures Run(db, reqs + [req]).0 == Step(Run(db, reqs).0, req).0
    ensures Run(db, reqs + [req]).1 == Run(db, reqs).1 + [Step(Run(db, reqs).0, req).1]
    decreases |reqs|
  {
    if reqs == [] {
      assert [] + [req] == [req];
      assert [req][1..] == [];
    } else {
      var db1 := Step(db, reqs[0]).0;
      assert (reqs + [req])[0] == reqs[0];
      assert (reqs + [req])[1..] == reqs[1..] + [req];
      RunSnoc(db1, reqs[1..], req);
    }
  }

  /** The reply to the k-th request is what its handler answers against the
      table the requests before it left behind. */
  lemma {:induction false} ReplyAt(db: Db, reqs: seq<Request>, k: nat)
    requires k < |reqs|
    ensures Run(db, reqs).1[k] == Step(Run(db, reqs[..k]).0, reqs[k]).1
    decreases k
  {
    if k > 0 {
      var db1 := Step(db, reqs[0]).0;
      ReplyAt(db1, reqs[1..], k - 1);
      assert reqs[..k][0] == reqs[0];
      assert reqs[..k][1..] == reqs[1..][..k - 1];
    }
  }

  /** Every sequence of requests keeps the id invariant of the table. */
  lemma {:induction false} RunValid(db: Db, reqs: seq<Request>)
    requires Valid(db)
    ensures Valid(Run(db, reqs).0)
    decreases |reqs|
  {
    if reqs != [] {
      RunValid(Step(db, reqs[0]).0, reqs[1..]);
    }
  }

  /** Whether the requests contain a clear. */
  function HasClear(reqs: seq<Request>): (b: bool)
    ensures b <==> exists i :: 0 <= i < |reqs| && reqs[i].ClearReq?
  {
    if reqs == [] then
      false
    else
      var last := |reqs| - 1;
      assert forall i :: 0 <= i < last ==> reqs[..last][i] == reqs[i];
      reqs[last].ClearReq? || HasClear(reqs[..last])
  }

  /** The requests after the last clear; all of them when there is no clear. */
  function SinceLastClear(reqs: seq<Request>): (s: seq<Request>)
    ensures forall i :: 0 <= i < |s| ==> !s[i].ClearReq?
    ensures !HasClear(reqs) ==> s == reqs
  {
    if reqs == [] then
      []
    else
      var last := |reqs| - 1;
      if reqs[last].ClearReq? then
        []
      else
        assert reqs == reqs[..last] + [reqs[last]];
        SinceLastClear(reqs[..last]) + [reqs[last]]
  }

  /** The password of the first signup for u among the requests, if any. */
  function FirstSignup(reqs: seq<Request>, u: string): (r: Option<string>)
    ensures r.Some? <==> exists i :: 0 <= i < |reqs| && reqs[i].SignupReq? && reqs[i].username == u
  {
    if reqs == [] then
      None
    else if reqs[0].SignupReq? && reqs[0].username == u then
      Some(reqs[0].password)
    else
      var r := FirstSignup(reqs[1..], u);
      assert forall i :: 0 < i < |reqs| ==> reqs[1..][i - 1] == reqs[i];
      r
  }

  /** Appending a request changes the first signup for u only when there was
      none before and the new request is a signup for u. */
  lemma {:induction false} FirstSignupSnoc(reqs: seq<Request>, req: Request, u: string)
    ensures FirstSignup(reqs + [req], u) ==
      if FirstSignup(reqs, u).Some? then FirstSignup(reqs, u)
      else if req.SignupReq? && req.username == u then Some(req.password)
      else None
  {
    if reqs == [] {
      assert [] + [req] == [req];
      assert [req][1..] == [];
    } else {
      assert (reqs + [req])[0] == reqs[0];
      assert (reqs + [req])[1..] == reqs[1..] + [req];
      FirstSignupSnoc(reqs[1..], req, u);
    }
  }

  /** The password signin accepts for u after the requests, read off the
      requests without running them: the password of the first signup for
      u after the last clear, unless there was no clear and u already had
      a password before, which then stays. */
  function Accepted(before: Option<string>, reqs: seq<Request>, u: string): (r: Option<string>)
  {
    var survivor := if HasClear(reqs) then None else before;
    if survivor.Some? then survivor else FirstSignup(SinceLastClear(reqs), u)
  }

  /** Running the requests stores exactly the password the reference
      definition names. */
  lemma {:induction false} RunStoresAccepted(db: Db, reqs: seq<Request>, u: string)
    ensures Lookup(Run(db, reqs).0, u) == Accepted(Lookup(db, u), reqs, u)
  {
    if reqs != [] {
      var last := |reqs| - 1;
      var init, req := reqs[..last], reqs[last];
      assert reqs == init + [req];
      RunStoresAccepted(db, init, u);
      RunSnoc(db, init, req);
      if !req.ClearReq? {
        assert SinceLastClear(reqs) == SinceLastClear(init) + [req];
        FirstSignupSnoc(SinceLastClear(init), req, u);
        assert HasClear(reqs) == HasClear(init);
      }
    }
  }

  /** Signin after a sequence of requests succeeds exactly for the password
      the reference definition names, and answers "not registered" exactly
      when it names none. */
  lemma SigninAfter(db: Db, reqs: seq<Request>, u: string, p: string)
    ensures Signin(Run(db, reqs).0, u, p).success <==> Accepted(Lookup(db, u), reqs, u) == Some(p)
    ensures Signin(Run(db, reqs).0, u, p).message == NotRegistered <==> Accepted(Lookup(db, u), reqs, u) == None
  {
    RunStoresAccepted(db, reqs, u);
  }

  /** A signup in a sequence succeeds exactly when no password is accepted
      for its username at that point. */
  lemma SignupReply(db: Db, reqs: seq<Request>, k: nat)
    requires k < |reqs| && reqs[k].SignupReq?
    ensures Run(db, reqs).1[k].AccountReply?
    ensures Run(db, reqs).1[k].response.success <==> Accepted(Lookup(db, reqs[k].username), reqs[..k], reqs[k].username) == None
  {
    ReplyAt(db, reqs, k);
    RunStoresAccepted(db, reqs[..k], reqs[k].username);
  }

  /** Once a username has signed up, it stays registered until a clear. */
  lemma {:induction false} RegisteredUntilClear(db: Db, reqs: seq<Request>, i: nat, j: nat)
    requires i < j <= |reqs|
    requires reqs[i].SignupReq?
    requires forall k :: i < k < j ==> !reqs[k].ClearReq?
    ensures reqs[i].username in Run(db, reqs[..j]).0.rows
  {
    RunSnoc(db, reqs[..j - 1], reqs[j - 1]);
    assert reqs[..j] == reqs[..j - 1] + [reqs[j - 1]];
    if j - 1 > i {
      RegisteredUntilClear(db, reqs, i, j - 1);
    }
  }

  /** Between two clears a username signs up successfully at most once: a
      later signup for it is refused as already registered. */
  lemma SignupRefusedAfterSignup(db: Db, reqs: seq<Request>, i: nat, j: nat)
    requires i < j < |reqs|
    requires reqs[i].SignupReq? && reqs[j].SignupReq? && reqs[i].username == reqs[j].username
    requires forall k :: i < k < j ==> !reqs[k].ClearReq?
    ensures Run(db, reqs).1[j] == AccountReply(Response(false, AlreadyRegistered))
  {
    ReplyAt(db, reqs, j);
    RegisteredUntilClear(db, reqs, i, j);
  }

  /** The example exchange, run from an empty table. */
  lemma Example()
    ensures Run(Empty(), [SignupReq("alice", "pw1"), SignupReq("alice", "pw2"),
                          SigninReq("alice", "pw1"), SigninReq("alice", "wrong"),
                          ClearReq, SigninReq("alice", "pw1")]).1 ==
            [AccountReply(Response(true, SignupDone)), AccountReply(Response(false, AlreadyRegistered)),
             AccountReply(Response(true, SigninOk)), AccountReply(Response(false, WrongPassword)),
             ClearReply(DatabaseCleared), AccountReply(Response(false, NotRegistered))]
  {
  }
}
