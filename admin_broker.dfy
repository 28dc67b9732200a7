/** The admin-approval worker: it drains tuq:admin_requests, inserts an
    unconfirmed administrator for each request, records the username and
    email in the deduplication sets and queues a confirmation email; a request
    whose try block raises is copied into tuq:admin_request_fails. */
module AdminBroker {
  import opened Wrappers
  import opened Text
  import opened Stores

  /** Seconds the worker sleeps after finding no pending request. */
  const SleepSeconds := 60
  /** Seconds the worker waits before its first poll. */
  const StartupDelaySeconds := 10

  /** What `json.loads` makes of a stored request: each field as `.get`
      returns it, `None` when absent. */
  datatype AdminRequest = AdminRequest(
    fullname: Option<string>,
    address: Option<string>,
    email: Option<string>,
    mobile: Option<string>,
    username: Option<string>,
    alias: Option<string>,
    password: Option<string>,
    nationality: Option<string>)

  /** What `json.loads` makes of a stored payload: text that is not JSON,
      a JSON value without `.get` (a list, a string, a number, null), or an
      object. */
  datatype Payload = NotJson | NotAnObject | Request(info: AdminRequest)

  /** The worker formats into byte strings (`'...{}'.format(v)`), which
      encodes a unicode argument as ASCII: a value with a character beyond
      ASCII raises UnicodeEncodeError; `None` formats as `None`. */
  predicate FormatsAsBytes(v: Option<string>)
  {
    v.None? || forall i :: 0 <= i < |v.value| ==> v.value[i] as int < 128
  }

  /** The users row save_to_database builds, given the id the database gives it. */
  function NewAdministrator(info: AdminRequest, id: nat): UserRecord
  {
    UserRecord(
      id := id,
      username := info.username,
      fullname := info.fullname,
      email := info.email,
      phoneNumber := info.mobile,
      alias := info.alias,
      password := info.password,
      address := info.address,
      role := Administrator,
      isConfirmed := Some(false),
      isActivePremium := false,
      displayPicture := DefaultPicture,
      otherInfo := Some("Nationality: " + Show(info.nationality)))
  }

  /** The value queued under the new administrator's email:
      `'{} %% {}'.format(user_id, fullname)`. */
  function PendingEmailValue(id: nat, fullname: Option<string>): string
  {
    DecimalString(id) + " %% " + Show(fullname)
  }

  /** The queued value starts with the user id's digits, followed by the
      separator and the full name, and is at least five characters long. */
  lemma PendingEmailValueShape(id: nat, fullname: Option<string>)
    ensures var v := PendingEmailValue(id, fullname);
            var n := |DecimalString(id)|;
            && |v| >= 5
            && v[..n] == DecimalString(id)
            && v[n..n + 4] == " %% "
            && v[n + 4..] == Show(fullname)
  {
  }

  datatype AdminState = AdminState(
    requests: map<string, string>,
    fails: map<string, string>,
    pendingEmails: map<string, string>,
    usernames: set<string>,
    emails: set<string>,
    phones: set<string>,
    users: seq<UserRecord>,
    nextUserId: nat)

  /** What one cycle depends on besides the store: the JSON decoding library
      and the keys whose users-row insert or commit raises in the database. */
  datatype Env = Env(decode: string -> Payload, faults: set<string>)

  /** save_to_database commits the row: the payload is an object, its
      nationality formats, and the database accepts the row. */
  predicate Committed(env: Env, key: string, p: Payload)
  {
    p.Request? && key !in env.faults && FormatsAsBytes(p.info.nationality)
  }

  /** The whole try block runs: the row is committed and the full name
      formats into the queued confirmation value. */
  predicate Completed(env: Env, key: string, p: Payload)
  {
    Committed(env, key, p) && FormatsAsBytes(p.info.fullname)
  }

  /** The part of the try block up to and including the set updates: the new
      row, the two deduplication sets, and the phone set (added to only when
      the phone is already in it). */
  function Commit(s: AdminState, info: AdminRequest): AdminState
  {
    s.(users := s.users + [NewAdministrator(info, s.nextUserId)],
       nextUserId := s.nextUserId + 1,
       usernames := s.usernames + {Show(info.username)},
       emails := s.emails + {Show(info.email)},
       phones := if info.mobile.Some? && info.mobile.value in s.phones then s.phones + {info.mobile.value} else s.phones)
  }

  /** One iteration of the worker's for loop; `None` when it raises outside
      the try block, in `json.loads` (also when the key has vanished). A try
      block that raises before the commit leaves only a fails entry; one that
      raises after it keeps the row and the set members, queues no email and
      writes a fails entry. */
  function Step(env: Env, s: AdminState, key: string): Option<AdminState>
  {
    if key !in s.requests then None
    else
      var data := s.requests[key];
      var p := env.decode(data);
      if p.NotJson? then None
      else
        var committed := if Committed(env, key, p) then Commit(s, p.info) else s;
        var after :=
          if Completed(env, key, p) then
            committed.(pendingEmails := s.pendingEmails[Show(p.info.email) := PendingEmailValue(s.nextUserId, p.info.fullname)])
          else
            committed.(fails := s.fails[key := data]);
        Some(after.(requests := s.requests - {key}))
  }

  /** One pass of the worker's for loop over a snapshot of keys. */
  function Cycle(env: Env, s: AdminState, keys: seq<string>): CycleEnd<AdminState>
    decreases |keys|
  {
    if keys == [] then Drained(s)
    else
      match Step(env, s, keys[0])
      case None => Halted(s, keys[0])
      case Some(next) => Cycle(env, next, keys[1..])
  }

  /** A request whose try block raises before the commit (a payload that is
      not an object, a nationality that does not format, or the insert
      raising) changes nothing but the two request hashes: the sets, the users
      table and the pending emails stay as they were. */
  lemma FailedInsert(env: Env, s: AdminState, key: string)
    requires key in s.requests && !env.decode(s.requests[key]).NotJson?
    requires !Committed(env, key, env.decode(s.requests[key]))
    ensures Step(env, s, key) == Some(s.(requests := s.requests - {key}, fails := s.fails[key := s.requests[key]]))
  {
  }

  /** A request whose full name does not format is committed, with its set
      members, but queues no email and also lands in the fails hash. */
  lemma FailedAfterCommit(env: Env, s: AdminState, key: string)
    requires key in s.requests && Committed(env, key, env.decode(s.requests[key]))
    requires !FormatsAsBytes(env.decode(s.requests[key]).info.fullname)
    ensures var info := env.decode(s.requests[key]).info;
            var t := Step(env, s, key).value;
            && t.users == s.users + [NewAdministrator(info, s.nextUserId)]
            && t.nextUserId == s.nextUserId + 1
            && t.usernames == s.usernames + {Show(info.username)} && t.emails == s.emails + {Show(info.email)}
            && t.phones == s.phones
            && t.pendingEmails == s.pendingEmails
            && t.fails == s.fails[key := s.requests[key]] && t.requests == s.requests - {key}
  {
  }

  /** A request whose try block runs to its end adds the administrator row
      with the next id, both names to the deduplication sets, and queues
      "<id> %% <full name>" under the email; the fails hash is untouched. */
  lemma SuccessfulInsert(env: Env, s: AdminState, key: string)
    requires key in s.requests && Completed(env, key, env.decode(s.requests[key]))
    ensures var info := env.decode(s.requests[key]).info;
            var t := Step(env, s, key).value;
            && t.users == s.users + [NewAdministrator(info, s.nextUserId)]
            && t.nextUserId == s.nextUserId + 1
            && t.usernames == s.usernames + {Show(info.username)} && t.emails == s.emails + {Show(info.email)}
            && t.phones == s.phones
            && t.pendingEmails == s.pendingEmails[Show(info.email) := PendingEmailValue(s.nextUserId, info.fullname)]
            && t.fails == s.fails && t.requests == s.requests - {key}
  {
  }

  /** This worker never grows tuq:phones, however a cycle ends. */
  lemma {:induction false} PhonesNeverGrow(env: Env, s: AdminState, keys: seq<string>)
    ensures Cycle(env, s, keys).state.phones == s.phones
    decreases |keys|
  {
    if keys != [] {
      var next := Step(env, s, keys[0]);
      if next.Some? {
        PhonesNeverGrow(env, next.value, keys[1..]);
      }
    }
  }

  /** `json.loads` accepts the pending payload of `k`. */
  predicate Decodes(env: Env, requests: map<string, string>, k: string)
  {
    k in requests && !env.decode(requests[k]).NotJson?
  }

  /** The decoded requests of a snapshot whose row is committed, in order. */
  function Approved(env: Env, requests: map<string, string>, keys: seq<string>): seq<AdminRequest>
  {
    if keys == [] then []
    else
      (if keys[0] in requests && Committed(env, keys[0], env.decode(requests[keys[0]]))
       then [env.decode(requests[keys[0]]).info] else [])
      + Approved(env, requests, keys[1..])
  }

  lemma {:induction false} ApprovedAgree(env: Env, p: map<string, string>, q: map<string, string>, keys: seq<string>)
    requires forall k :: k in keys ==> k in p && k in q && p[k] == q[k]
    ensures Approved(env, p, keys) == Approved(env, q, keys)
  {
    if keys != [] {
      ApprovedAgree(env, p, q, keys[1..]);
    }
  }

  /** The rows inserted for approved requests, each taking the next value of
      the id counter. */
  function Rows(infos: seq<AdminRequest>, firstId: nat): seq<UserRecord>
  {
    if infos == [] then [] else [NewAdministrator(infos[0], firstId)] + Rows(infos[1..], firstId + 1)
  }

  /** Every inserted row is the administrator built from its request with
      the next free id: an administrator, unconfirmed, not premium, its
      nationality in other_info. */
  lemma {:induction false} RowsAreAdministrators(infos: seq<AdminRequest>, firstId: nat)
    ensures |Rows(infos, firstId)| == |infos|
    ensures forall i :: 0 <= i < |infos| ==>
              var u := Rows(infos, firstId)[i];
              && u == NewAdministrator(infos[i], firstId + i)
              && u.role == Administrator && u.isConfirmed == Some(false) && !u.isActivePremium
              && u.otherInfo == Some("Nationality: " + Show(infos[i].nationality))
  {
    if infos != [] {
      RowsAreAdministrators(infos[1..], firstId + 1);
      forall i | 1 <= i < |infos|
        ensures Rows(infos, firstId)[i] == NewAdministrator(infos[i], firstId + i)
      {
        assert Rows(infos, firstId)[i] == Rows(infos[1..], firstId + 1)[i - 1];
      }
    }
  }

  /** The confirmation emails queued for committed requests whose full name
      formats, a later request overwriting an earlier one with the same
      email. */
  function Jobs(infos: seq<AdminRequest>, firstId: nat): map<string, string>
  {
    if infos == [] then map[] else Job(infos[0], firstId) + Jobs(infos[1..], firstId + 1)
  }

  /** The confirmation email one committed request queues, if its full name
      formats. */
  function Job(info: AdminRequest, id: nat): map<string, string>
  {
    if FormatsAsBytes(info.fullname) then map[Show(info.email) := PendingEmailValue(id, info.fullname)] else map[]
  }

  /** Queuing one request's email, then the later ones, is adding its job
      and the later jobs in one go. */
  lemma QueueJob(m: map<string, string>, info: AdminRequest, id: nat, rest: map<string, string>)
    ensures (if FormatsAsBytes(info.fullname) then m[Show(info.email) := PendingEmailValue(id, info.fullname)] else m) + rest
            == m + (Job(info, id) + rest)
  {
    if FormatsAsBytes(info.fullname) {
      QueueOne(m, Show(info.email), PendingEmailValue(id, info.fullname));
      MapUnionAssociates(m, Job(info, id), rest);
    } else {
      assert Job(info, id) + rest == rest;
    }
  }

  /** The try block of `k` raises, before or after the commit. */
  predicate FailsOn(env: Env, requests: map<string, string>, k: string)
  {
    Decodes(env, requests, k) && !Completed(env, k, env.decode(requests[k]))
  }

  /** A cycle over a snapshot of pending keys whose payloads all decode:
      every snapshot key leaves tuq:admin_requests and nothing else does; a
      key lands in tuq:admin_request_fails with its payload verbatim exactly
      when its try block raised, and every other fails entry stays as it was. */
  lemma {:induction false} DrainedRequests(env: Env, s: AdminState, keys: seq<string>)
    requires Distinct(keys)
    requires forall k :: k in keys ==> Decodes(env, s.requests, k)
    ensures Cycle(env, s, keys).Drained?
    ensures var t := Cycle(env, s, keys).state;
      && t.requests == s.requests - (set k | k in keys)
      && (forall k :: k in keys && FailsOn(env, s.requests, k) ==> k in t.fails && t.fails[k] == s.requests[k])
      && (forall k :: (k !in keys || !FailsOn(env, s.requests, k)) ==>
            (k in t.fails <==> k in s.fails) && (k in t.fails ==> t.fails[k] == s.fails[k]))
    decreases |keys|
  {
    if keys != [] {
      DistinctTail(keys);
      var next := Step(env, s, keys[0]).value;
      DrainedRequests(env, next, keys[1..]);
    }
  }

  /** What a drained cycle does to the users table and the derived data: it
      inserts one row per committed request, in snapshot order, each taking
      the next value of the id counter; the username and email sets gain
      exactly the committed requests' values; the phone set is unchanged; and
      each committed email whose full name formats is queued with its row's
      id and full name. */
  lemma DrainedApprovals(env: Env, s: AdminState, keys: seq<string>)
    requires Distinct(keys)
    requires forall k :: k in keys ==> Decodes(env, s.requests, k)
    ensures Cycle(env, s, keys).Drained?
    ensures var t := Cycle(env, s, keys).state;
      var infos := Approved(env, s.requests, keys);
      && t.users == s.users + Rows(infos, s.nextUserId)
      && t.nextUserId == s.nextUserId + |infos|
      && t.usernames == s.usernames + (set r | r in infos :: Show(r.username))
      && t.emails == s.emails + (set r | r in infos :: Show(r.email))
      && t.phones == s.phones
      && t.pendingEmails == s.pendingEmails + Jobs(infos, s.nextUserId)
  {
    DrainedUsers(env, s, keys);
    DrainedSets(env, s, keys);
    DrainedJobs(env, s, keys);
    PhonesNeverGrow(env, s, keys);
  }

  /** The facts about one step of a drained cycle its inductive proofs share:
      the step succeeds, and the remaining keys are still pending with the
      same payload. */
  lemma StepFacts(env: Env, s: AdminState, keys: seq<string>)
    requires Distinct(keys) && keys != []
    requires forall k :: k in keys ==> Decodes(env, s.requests, k)
    ensures Step(env, s, keys[0]).Some?
    ensures var next := Step(env, s, keys[0]).value;
      && Distinct(keys[1..])
      && (forall k :: k in keys[1..] ==> k in next.requests && next.requests[k] == s.requests[k]
                                         && Decodes(env, next.requests, k))
      && Approved(env, s.requests, keys[1..]) == Approved(env, next.requests, keys[1..])
      && Approved(env, s.requests, keys) ==
           (if Committed(env, keys[0], env.decode(s.requests[keys[0]])) then [env.decode(s.requests[keys[0]]).info] else [])
           + Approved(env, s.requests, keys[1..])
    ensures var next := Step(env, s, keys[0]).value;
      var p := env.decode(s.requests[keys[0]]);
      && Cycle(env, s, keys) == Cycle(env, next, keys[1..])
      && (Committed(env, keys[0], p) ==>
            && next.users == s.users + [NewAdministrator(p.info, s.nextUserId)]
            && next.nextUserId == s.nextUserId + 1
            && next.usernames == s.usernames + {Show(p.info.username)}
            && next.emails == s.emails + {Show(p.info.email)})
      && (!Committed(env, keys[0], p) ==>
            && next.users == s.users && next.nextUserId == s.nextUserId
            && next.usernames == s.usernames && next.emails == s.emails)
      && next.pendingEmails ==
           (if Completed(env, keys[0], p)
            then s.pendingEmails[Show(p.info.email) := PendingEmailValue(s.nextUserId, p.info.fullname)]
            else s.pendingEmails)
  {
    DistinctTail(keys);
    var next := Step(env, s, keys[0]).value;
    ApprovedAgree(env, s.requests, next.requests, keys[1..]);
  }

  lemma {:induction false} DrainedUsers(env: Env, s: AdminState, keys: seq<string>)
    requires Distinct(keys)
    requires forall k :: k in keys ==> Decodes(env, s.requests, k)
    ensures Cycle(env, s, keys).Drained?
    ensures var t := Cycle(env, s, keys).state;
      var infos := Approved(env, s.requests, keys);
      && t.users == s.users + Rows(infos, s.nextUserId)
      && t.nextUserId == s.nextUserId + |infos|
    decreases |keys|
  {
    if keys != [] {
      StepFacts(env, s, keys);
      var next := Step(env, s, keys[0]).value;
      DrainedUsers(env, next, keys[1..]);
      var tail := Approved(env, s.requests, keys[1..]);
      var infos := Approved(env, s.requests, keys);
      if Committed(env, keys[0], env.decode(s.requests[keys[0]])) {
        var info := env.decode(s.requests[keys[0]]).info;
        assert infos == [info] + tail;
        assert infos[1..] == tail;
      } else {
        assert infos == tail;
      }
    }
  }

  lemma {:induction false} DrainedSets(env: Env, s: AdminState, keys: seq<string>)
    requires Distinct(keys)
    requires forall k :: k in keys ==> Decodes(env, s.requests, k)
    ensures Cycle(env, s, keys).Drained?
    ensures var t := Cycle(env, s, keys).state;
      var infos := Approved(env, s.requests, keys);
      && t.usernames == s.usernames + (set r | r in infos :: Show(r.username))
      && t.emails == s.emails + (set r | r in infos :: Show(r.email))
    decreases |keys|
  {
    if keys != [] {
      StepFacts(env, s, keys);
      var next := Step(env, s, keys[0]).value;
      DrainedSets(env, next, keys[1..]);
      var tail := Approved(env, s.requests, keys[1..]);
      var infos := Approved(env, s.requests, keys);
      if Committed(env, keys[0], env.decode(s.requests[keys[0]])) {
        var info := env.decode(s.requests[keys[0]]).info;
        assert infos == [info] + tail;
        assert (set r | r in infos :: Show(r.username)) == {Show(info.username)} + (set r | r in tail :: Show(r.username));
        assert (set r | r in infos :: Show(r.email)) == {Show(info.email)} + (set r | r in tail :: Show(r.email));
      } else {
        assert infos == tail;
      }
    }
  }

  lemma {:induction false} DrainedJobs(env: Env, s: AdminState, keys: seq<string>)
    requires Distinct(keys)
    requires forall k :: k in keys ==> Decodes(env, s.requests, k)
    ensures Cycle(env, s, keys).Drained?
    ensures var t := Cycle(env, s, keys).state;
      t.pendingEmails == s.pendingEmails + Jobs(Approved(env, s.requests, keys), s.nextUserId)
    decreases |keys|
  {
    if keys != [] {
      StepFacts(env, s, keys);
      var next := Step(env, s, keys[0]).value;
      DrainedJobs(env, next, keys[1..]);
      var p := env.decode(s.requests[keys[0]]);
      var tail := Approved(env, s.requests, keys[1..]);
      var infos := Approved(env, s.requests, keys);
      if Committed(env, keys[0], p) {
        assert infos == [p.info] + tail;
        assert infos[1..] == tail;
        assert Jobs(infos, s.nextUserId) == Job(p.info, s.nextUserId) + Jobs(tail, s.nextUserId + 1);
        QueueJob(s.pendingEmails, p.info, s.nextUserId, Jobs(tail, s.nextUserId + 1));
      } else {
        assert infos == tail;
      }
    }
  }

  lemma QueueOne(m: map<string, string>, k: string, v: string)
    ensures m[k := v] == m + map[k := v]
  {
  }

  lemma MapUnionAssociates(a: map<string, string>, b: map<string, string>, c: map<string, string>)
    ensures (a + b) + c == a + (b + c)
  {
  }

  /** A cycle stops at the first snapshot key whose payload does not decode,
      in the state the keys before it left: that key keeps its request entry
      and gets no fails entry, and the keys after it are not touched. */
  lemma {:induction false} HaltedCycle(env: Env, s: AdminState, keys: seq<string>, j: nat)
    requires Distinct(keys)
    requires forall k :: k in keys ==> k in s.requests
    requires j < |keys| && !Decodes(env, s.requests, keys[j])
    requires forall i :: 0 <= i < j ==> Decodes(env, s.requests, keys[i])
    ensures Cycle(env, s, keys[..j]).Drained?
    ensures Cycle(env, s, keys) == Halted(Cycle(env, s, keys[..j]).state, keys[j])
    decreases j
  {
    if j > 0 {
      DistinctTail(keys);
      var next := Step(env, s, keys[0]).value;
      assert forall i :: 0 <= i < |keys[1..]| ==> keys[1..][i] == keys[i + 1];
      HaltedCycle(env, next, keys[1..], j - 1);
      assert keys[..j][0] == keys[0] && keys[..j][1..] == keys[1..][..j - 1];
    }
  }

  function View(store: Store, db: Database): AdminState
    reads store, db
  {
    AdminState(store.adminRequests, store.adminRequestFails, store.pendingEmails,
               store.usernames, store.emails, store.phones, db.users, db.nextUserId)
  }

  /** save_to_database: build the administrator row, which raises when the
      nationality does not format, then insert it and commit, returning its
      id; `commitFails` is the insert or commit raising. A raise leaves the
      table as it was. */
  method SaveToDatabase(db: Database, info: AdminRequest, commitFails: bool) returns (saved: bool, id: nat)
    modifies db`users, db`nextUserId
    ensures saved == (FormatsAsBytes(info.nationality) && !commitFails)
    ensures saved ==> id == old(db.nextUserId) && db.nextUserId == id + 1
                      && db.users == old(db.users) + [NewAdministrator(info, id)]
    ensures !saved ==> db.users == old(db.users) && db.nextUserId == old(db.nextUserId)
  {
    if !FormatsAsBytes(info.nationality) || commitFails {
      return false, 0;
    }
    id := db.nextUserId;
    db.users := db.users + [NewAdministrator(info, id)];
    db.nextUserId := id + 1;
    saved := true;
  }

  /** One iteration of the worker's for loop for a key whose payload
      `json.loads` accepts: the try block, then the `hdel`. */
  method HandleRequest(store: Store, db: Database, env: Env, key: string)
    requires key in store.adminRequests && !env.decode(store.adminRequests[key]).NotJson?
    modifies store`adminRequests, store`adminRequestFails, store`pendingEmails
    modifies store`usernames, store`emails, store`phones, db`users, db`nextUserId
    ensures Step(env, old(View(store, db)), key) == Some(View(store, db))
  {
    var data := store.adminRequests[key];
    var decoded := env.decode(data);
    if decoded.NotAnObject? {
      store.adminRequestFails := store.adminRequestFails[key := data];
    } else {
      var info := decoded.info;
      var saved, userId := SaveToDatabase(db, info, key in env.faults);
      if saved {
        var email := Show(info.email);
        var phone := info.mobile;
        store.usernames := store.usernames + {Show(info.username)};
        store.emails := store.emails + {email};
        if phone.Some? && phone.value in store.phones {
          store.phones := store.phones + {phone.value};
        }
        if FormatsAsBytes(info.fullname) {
          store.pendingEmails := store.pendingEmails[email := PendingEmailValue(userId, info.fullname)];
        } else {
          store.adminRequestFails := store.adminRequestFails[key := data];
        }
      } else {
        store.adminRequestFails := store.adminRequestFails[key := data];
      }
    }
    store.adminRequests := store.adminRequests - {key};
  }

  /** One wake of the worker's main loop: sleep if the snapshot is empty,
      then for every key insert the administrator and fan out to the sets and
      the confirmation-email hash, copying the request to the fails hash when
      any of that raises, and delete the request. */
  method RunCycle(store: Store, db: Database, snapshot: seq<string>,
                  decode: string -> Payload, faults: set<string>)
    returns (slept: nat, halt: Option<string>)
    modifies store`adminRequests, store`adminRequestFails, store`pendingEmails
    modifies store`usernames, store`emails, store`phones, db`users, db`nextUserId
    ensures slept == if snapshot == [] then SleepSeconds else 0
    ensures Cycle(Env(decode, faults), old(View(store, db)), snapshot) == Finish(View(store, db), halt)
  {
    var env := Env(decode, faults);
    slept := if snapshot == [] then SleepSeconds else 0;
    halt := None;
    var i := 0;
    while i < |snapshot|
      invariant 0 <= i <= |snapshot|
      invariant Cycle(env, old(View(store, db)), snapshot) == Cycle(env, View(store, db), snapshot[i..])
    {
      var key := snapshot[i];
      assert snapshot[i..][0] == key && snapshot[i..][1..] == snapshot[i + 1..];
      if key !in store.adminRequests || decode(store.adminRequests[key]).NotJson? {
        halt := Some(key);
        return;
      }
      HandleRequest(store, db, env, key);
      i := i + 1;
    }
  }
}
