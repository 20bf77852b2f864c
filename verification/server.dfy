/** The account endpoints as one single-threaded state machine over the user
    store, which starts empty (server.js:14) and is changed only by register. */
module Server {
  import opened Wrappers
  import opened Seqs
  import opened Decimal
  import opened AuthHeader
  import opened Accounts

  /** A request to one of the account endpoints. Clock readings taken by the
      register handler travel with the request. */
  datatype Request =
    | RegisterRequest(email: string, password: string, name: string,
                      company: Option<string>, now: nat, createdAt: int)
    | LoginRequest(email: string, password: string)
    | MeRequest(authorization: Option<string>)

  /** Everything the store keeps invariant: unique emails and digit ids. */
  predicate WellFormed(users: Store)
  {
    UniqueEmails(users) && DigitIds(users)
  }

  /** Dispatches one request. */
  function Handle(users: Store, req: Request): (r: Reply)
    ensures !req.RegisterRequest? ==> r.users == users
    ensures r.response.Failure? ==> r.users == users
    ensures r.response.Issued? && req.RegisterRequest? ==> |r.users| == |users| + 1
    ensures users <= r.users
    ensures WellFormed(users) ==> WellFormed(r.users)
  {
    match req
    case RegisterRequest(email, password, name, company, now, createdAt) =>
      Register(users, email, password, name, company, now, createdAt)
    case LoginRequest(email, password) =>
      Reply(Login(users, email, password), users)
    case MeRequest(header) =>
      Reply(Me(users, header), users)
  }

  /** The responses to a sequence of requests handled one after another, and
      the store they leave behind. */
  datatype Trace = Trace(responses: seq<Response>, users: Store)

  function Run(users: Store, reqs: seq<Request>): (t: Trace)
    ensures |t.responses| == |reqs|
    ensures users <= t.users
    decreases |reqs|
  {
    if |reqs| == 0 then Trace([], users)
    else
      var r := Handle(users, reqs[0]);
      var rest := Run(r.users, reqs[1..]);
      Trace([r.response] + rest.responses, rest.users)
  }

  /** Any sequence of calls keeps emails unique and ids numeric. */
  lemma {:induction false} RunPreservesWellFormed(users: Store, reqs: seq<Request>)
    requires WellFormed(users)
    ensures WellFormed(Run(users, reqs).users)
    decreases |reqs|
  {
    if |reqs| > 0 {
      RunPreservesWellFormed(Handle(users, reqs[0]).users, reqs[1..]);
    }
  }

  /** Starting from the empty store, every reachable store is well formed. */
  lemma ReachableWellFormed(reqs: seq<Request>)
    ensures WellFormed(Run([], reqs).users)
  {
    RunPreservesWellFormed([], reqs);
  }

  /** The store is append-only: earlier users are never changed or removed. */
  lemma RunAppendOnly(users: Store, reqs: seq<Request>)
    ensures users <= Run(users, reqs).users
  {
  }

  /** Login and `/me` calls alone never change the store. */
  lemma {:induction false} ReadOnlyRun(users: Store, reqs: seq<Request>)
    requires forall i :: 0 <= i < |reqs| ==> !reqs[i].RegisterRequest?
    ensures Run(users, reqs).users == users
    decreases |reqs|
  {
    if |reqs| > 0 {
      ReadOnlyRun(users, reqs[1..]);
    }
  }

  /** Registering the same email twice: success, then "User already exists"
      with the store left as the first call made it. */
  lemma RegisterTwice(users: Store, email: string, password: string, name: string,
                      company: Option<string>, now: nat, createdAt: int,
                      password2: string, name2: string, company2: Option<string>,
                      now2: nat, createdAt2: int)
    requires !HasEmail(users, email)
    ensures
      var first := Register(users, email, password, name, company, now, createdAt);
      && first.response.Issued?
      && Register(first.users, email, password2, name2, company2, now2, createdAt2)
         == Reply(UserExists, first.users)
  {
  }

  /** The token returned by a registration whose clock reading is fresh,
      presented as `<scheme> <token>`, resolves on `/me` to the new user. */
  lemma RegisterThenMe(users: Store, email: string, password: string, name: string,
                       company: Option<string>, now: nat, createdAt: int, scheme: string)
    requires !HasEmail(users, email)
    requires !HasId(users, DecimalString(now))
    requires ' ' !in scheme
    ensures
      var r := Register(users, email, password, name, company, now, createdAt);
      && r.response.Issued?
      && Me(r.users, Some(scheme + " " + r.response.token)) == Profile(r.response.user)
  {
    var r := Register(users, email, password, name, company, now, createdAt);
    var id := DecimalString(now);
    assert ' ' !in id by {
      assert forall k :: 0 <= k < |id| ==> IsDigit(id[k]);
    }
    GateAcceptsIssued(scheme, id);
    var n := |users|;
    assert IsFirst(r.users, ById(id), n) by {
      forall j | 0 <= j < n
        ensures r.users[j].id != id
      {
        assert r.users[j] == users[j];
      }
    }
    var me := Me(r.users, Some(scheme + " " + r.response.token));
    assert me.Profile?;
    var i :| IsFirst(r.users, ById(id), i) && me.user == View(r.users[i]);
    IsFirstUnique(r.users, ById(id), i, n);
  }

  /** The token returned by a login resolves on `/me` to the user who logged
      in, provided ids are digit strings and no earlier user shares that id. */
  lemma LoginThenMe(users: Store, email: string, password: string, scheme: string)
    requires DigitIds(users)
    requires ' ' !in scheme
    requires forall i :: IsFirst(users, ByEmail(email), i) ==> IsFirst(users, ById(users[i].id), i)
    requires Login(users, email, password).Issued?
    ensures
      var r := Login(users, email, password);
      Me(users, Some(scheme + " " + r.token)) == Profile(r.user)
  {
    var r := Login(users, email, password);
    var i :| IsFirst(users, ByEmail(email), i) && users[i].password == password;
    var id := users[i].id;
    assert ' ' !in id by {
      assert forall k :: 0 <= k < |id| ==> IsDigit(id[k]);
    }
    GateAcceptsIssued(scheme, id);
    var me := Me(users, Some(scheme + " " + r.token));
    var k :| IsFirst(users, ById(id), k) && me.user == View(users[k]);
    IsFirstUnique(users, ById(id), i, k);
  }

  /** Every stored id was made from a clock reading earlier than `now`. */
  predicate IdsBefore(users: Store, now: nat)
  {
    forall i :: 0 <= i < |users| ==> AllDigits(users[i].id) && ParseDecimal(users[i].id) < now
  }

  /** When every stored id comes from an earlier clock reading, the id made
      from `now` is fresh. */
  lemma FreshClockId(users: Store, now: nat)
    requires IdsBefore(users, now)
    ensures !HasId(users, DecimalString(now))
  {
    ParseDecimalString(now);
  }

  /** Registering at `now` keeps every stored id earlier than any later reading. */
  lemma RegisterKeepsIdsBefore(users: Store, email: string, password: string, name: string,
                               company: Option<string>, now: nat, createdAt: int, later: nat)
    requires IdsBefore(users, now)
    requires now < later
    ensures IdsBefore(Register(users, email, password, name, company, now, createdAt).users, later)
  {
    ParseDecimalString(now);
  }
}
