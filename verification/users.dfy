/** The in-memory user store behind `/register` and `/login` (app.py). The store is a
    Python dict from username to password, seeded with one administrator account and
    never persisted. A request body field that is absent reads as `None`, which is a
    legal dict key and value, so usernames and passwords are optional strings. */
module Users {
  import opened Wrappers

  /** The `users` dict. */
  type Store = map<Option<string>, Option<string>>

  /** The store at start-up: the single account `admin` / `password123`. */
  const Initial: Store := map[Some("admin") := Some("password123")]

  /** HTTP status codes the two endpoints answer with. */
  const Ok := 200
  const Created := 201
  const BadRequest := 400
  const Unauthorized := 401

  /** The store after a request, and the status code of its response. */
  datatype Reply = Reply(store: Store, status: int)

  /** `POST /register`: an existing username is refused with 400 and changes nothing;
      a new one is stored with its password and answered with 201. No registration
      ever changes a stored password. */
  function Register(store: Store, username: Option<string>, password: Option<string>): (r: Reply)
    ensures r.status == Created <==> username !in store
    ensures r.status == Created || r.status == BadRequest
    ensures username in store ==> r.store == store
    ensures r.store.Keys == store.Keys + {username}
    ensures forall u :: u in store ==> r.store[u] == store[u]
    ensures username !in store ==> r.store[username] == password
  {
    if username in store then Reply(store, BadRequest)
    else Reply(store[username := password], Created)
  }

  /** `POST /login`: 200 exactly when the username is stored with an equal password,
      401 otherwise; the store is left as it was. */
  function Login(store: Store, username: Option<string>, password: Option<string>): (r: Reply)
    ensures r.status == Ok <==> username in store && store[username] == password
    ensures r.status == Ok || r.status == Unauthorized
    ensures r.store == store
  {
    if username !in store || store[username] != password then Reply(store, Unauthorized)
    else Reply(store, Ok)
  }

  /** A request to one of the two endpoints, with the body fields it reads. */
  datatype Request =
    | RegisterRequest(username: Option<string>, password: Option<string>)
    | LoginRequest(username: Option<string>, password: Option<string>)

  /** Routes a request to its endpoint: the answer is one of the four statuses, and the
      store only gains the request's username, keeping every stored password. */
  function Handle(store: Store, req: Request): (r: Reply)
    ensures r.status in {Ok, Created, BadRequest, Unauthorized}
    ensures r.store.Keys <= store.Keys + {req.username}
    ensures forall u :: u in store ==> u in r.store && r.store[u] == store[u]
  {
    match req
    case RegisterRequest(u, p) => Register(store, u, p)
    case LoginRequest(u, p) => Login(store, u, p)
  }

  /** The store after a sequence of requests, and the status of each response in order. */
  datatype Session = Session(store: Store, statuses: seq<int>)

  function Serve(store: Store, reqs: seq<Request>): (s: Session)
    ensures |s.statuses| == |reqs|
    ensures forall i :: 0 <= i < |reqs| ==> s.statuses[i] in {Ok, Created, BadRequest, Unauthorized}
    decreases |reqs|
  {
    if |reqs| == 0 then Session(store, [])
    else
      var before := Serve(store, reqs[..|reqs| - 1]);
      var r := Handle(before.store, reqs[|reqs| - 1]);
      Session(r.store, before.statuses + [r.status])
  }

  /** Requests only add accounts: every stored username keeps its password. */
  lemma {:induction false} PasswordsStable(store: Store, reqs: seq<Request>)
    ensures var final := Serve(store, reqs).store;
            forall u :: u in store ==> u in final && final[u] == store[u]
    decreases |reqs|
  {
    if |reqs| > 0 {
      PasswordsStable(store, reqs[..|reqs| - 1]);
    }
  }

  /** Whatever requests come in, the administrator can still log in. */
  lemma {:induction false} AdminAlwaysLogsIn(reqs: seq<Request>)
    ensures Login(Serve(Initial, reqs).store, Some("admin"), Some("password123")).status == Ok
  {
    PasswordsStable(Initial, reqs);
    assert Some("admin") in Initial;
  }

  /** A fresh username can log in with the password it registered with and no other;
      registering it a second time is refused. */
  lemma {:induction false} RegisterThenLogin(store: Store, u: Option<string>, p: Option<string>, q: Option<string>)
    requires u !in store
    ensures Register(store, u, p).status == Created
    ensures Login(Register(store, u, p).store, u, q).status == Ok <==> q == p
    ensures Register(Register(store, u, p).store, u, q) == Reply(Register(store, u, p).store, BadRequest)
  {
  }

  /** The number of `201 Created` answers. */
  function CreatedCount(statuses: seq<int>): nat
    decreases |statuses|
  {
    if |statuses| == 0 then 0
    else CreatedCount(statuses[..|statuses| - 1]) + (if statuses[|statuses| - 1] == Created then 1 else 0)
  }

  /** Each `201` adds exactly one account and nothing else adds any. */
  lemma {:induction false} AccountsCounted(store: Store, reqs: seq<Request>)
    ensures var s := Serve(store, reqs);
            |s.store.Keys| == |store.Keys| + CreatedCount(s.statuses)
    decreases |reqs|
  {
    if |reqs| > 0 {
      var init := reqs[..|reqs| - 1];
      var before := Serve(store, init);
      var s := Serve(store, reqs);
      AccountsCounted(store, init);
      assert s.statuses[..|s.statuses| - 1] == before.statuses;
      match reqs[|reqs| - 1]
      case RegisterRequest(u, p) =>
        if u !in before.store {
          assert s.store.Keys == before.store.Keys + {u};
        }
      case LoginRequest(_, _) =>
    }
  }

  /** For a username absent at the start, login with password `p` succeeds after a
      sequence of requests exactly when one of them registered that username with `p`
      and was answered `201`. */
  lemma {:induction false} LoginMeansRegistered(store: Store, reqs: seq<Request>, u: Option<string>, p: Option<string>)
    requires u !in store
    ensures var s := Serve(store, reqs);
            (Login(s.store, u, p).status == Ok) <==>
              (exists i :: 0 <= i < |reqs| && reqs[i] == RegisterRequest(u, p) && s.statuses[i] == Created)
    decreases |reqs|
  {
    if |reqs| > 0 {
      var n := |reqs| - 1;
      LoginMeansRegistered(store, reqs[..n], u, p);
      LoginStep(store, reqs, u, p);
    }
  }

  /** One more request: a login for `u` with `p` starts to succeed exactly when that
      request registers `u` with `p` and is answered `201`. */
  lemma {:induction false} LoginStep(store: Store, reqs: seq<Request>, u: Option<string>, p: Option<string>)
    requires |reqs| > 0
    requires var s := Serve(store, reqs[..|reqs| - 1]);
             (Login(s.store, u, p).status == Ok) <==>
               (exists i :: 0 <= i < |reqs| - 1 && reqs[i] == RegisterRequest(u, p) && s.statuses[i] == Created)
    ensures var s := Serve(store, reqs);
            (Login(s.store, u, p).status == Ok) <==>
              (exists i :: 0 <= i < |reqs| && reqs[i] == RegisterRequest(u, p) && s.statuses[i] == Created)
  {
    var n := |reqs| - 1;
    var before := Serve(store, reqs[..n]);
    var s := Serve(store, reqs);
    assert forall i :: 0 <= i < n ==> s.statuses[i] == before.statuses[i];
    var last := reqs[n];
    if last.RegisterRequest? && last.username == u && u !in before.store {
      assert s.statuses[n] == Created;
      if last.password == p {
        assert reqs[n] == RegisterRequest(u, p);
      }
    } else {
      assert s.statuses[n] != Created || reqs[n] != RegisterRequest(u, p);
    }
  }
}
