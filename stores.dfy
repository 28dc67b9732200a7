/** The two stores every worker and handler talks to.

    `Store` is the redis instance: one field per hash the workers use (a hash
    is a map from field name to string value) and one per deduplication set.
    `Database` is the relational store, reduced to the tables the workers
    insert into and read from, each an append-only sequence of rows. */
module Stores {
  import opened Wrappers

  /** How one poll-process-acknowledge cycle of a worker ends: having handled
      every key of its snapshot, or stopped at the key whose payload raised
      outside the per-item try block, which ends the worker's thread. */
  datatype CycleEnd<S> = Drained(state: S) | Halted(state: S, at: string)

  function Finish<S>(state: S, halt: Option<string>): CycleEnd<S>
  {
    if halt.Some? then Halted(state, halt.value) else Drained(state)
  }

  /** The keys of a snapshot taken with hgetall are pairwise different. */
  ghost predicate Distinct(keys: seq<string>)
  {
    forall i, j :: 0 <= i < j < |keys| ==> keys[i] != keys[j]
  }

  /** Dropping the first key of a snapshot leaves pairwise different keys,
      none of them the first. */
  lemma DistinctTail(keys: seq<string>)
    requires Distinct(keys) && keys != []
    ensures Distinct(keys[1..])
    ensures forall k :: k in keys[1..] ==> k in keys && k != keys[0]
    ensures (set k | k in keys) == {keys[0]} + (set k | k in keys[1..])
  {
    forall k | k in keys[1..] ensures k in keys && k != keys[0] {
      var j :| 0 <= j < |keys[1..]| && keys[1..][j] == k;
      assert keys[j + 1] == k;
    }
    forall i, j | 0 <= i < j < |keys[1..]| ensures keys[1..][i] != keys[1..][j] {
      assert keys[1..][i] == keys[i + 1] && keys[1..][j] == keys[j + 1];
    }
  }

  class Store {
    /** tuq:admin_requests: username -> JSON text of an admin signup request */
    var adminRequests: map<string, string>
    /** tuq:admin_request_fails: username -> the request text that failed */
    var adminRequestFails: map<string, string>
    /** tuq:pending_confirmation_emails: email -> "<user id> %% <full name>" */
    var pendingEmails: map<string, string>
    /** tuq:failed_confirmation_emails: email -> what was taken as the user id */
    var failedEmails: map<string, string>
    /** tuq:pending_papers: user identifier -> JSON text of a submitted paper */
    var pendingPapers: map<string, string>
    /** tuq:error_unmarked_papers: user identifier -> the paper text that failed */
    var errorPapers: map<string, string>
    /** The deduplication sets tuq:usernames, tuq:emails, tuq:phones. */
    var usernames: set<string>
    var emails: set<string>
    var phones: set<string>

    constructor ()
      ensures adminRequests == adminRequestFails == pendingEmails == failedEmails == map[]
      ensures pendingPapers == errorPapers == map[]
      ensures usernames == emails == phones == {}
    {
      adminRequests, adminRequestFails := map[], map[];
      pendingEmails, failedEmails := map[], map[];
      pendingPapers, errorPapers := map[], map[];
      usernames, emails, phones := {}, {}, {};
    }
  }

  /** User.ADMINISTRATOR and User.NORMAL_USER. */
  const Administrator := 4
  const NormalUser := 2

  /** The value of a user's display_picture column. */
  datatype Picture = DefaultPicture | Uploaded(location: string)

  /** A row of the users table, with the columns the handlers and workers set.
      Columns a writer leaves to the schema's default are `None`. */
  datatype UserRecord = UserRecord(
    id: nat,
    username: Option<string>,
    fullname: Option<string>,
    email: Option<string>,
    phoneNumber: Option<string>,
    alias: Option<string>,
    password: Option<string>,
    address: Option<string>,
    role: int,
    isConfirmed: Option<bool>,
    isActivePremium: bool,
    displayPicture: Picture,
    otherInfo: Option<string>)

  /** A row of the courses table, as the marking worker sees it: the id it is
      looked up by, its name, and the answer key held in its solution file,
      each entry being what `int()` makes of it (`None` when `int()` raises). */
  datatype CourseRow = CourseRow(id: int, name: string, answerKey: seq<Option<int>>)

  /** A row of the exams_taken table. */
  datatype ExamTaken = ExamTaken(
    courseId: int,
    participantId: int,
    courseOwner: int,
    dateTaken: Option<string>,
    score: nat,
    totalScore: nat,
    otherData: string)

  class Database {
    var users: seq<UserRecord>
    /** The id the next inserted user receives. */
    var nextUserId: nat
    var courses: seq<CourseRow>
    var exams: seq<ExamTaken>

    constructor (courses: seq<CourseRow>)
      ensures this.courses == courses
      ensures users == [] && exams == [] && nextUserId == 1
    {
      this.courses := courses;
      users, exams, nextUserId := [], [], 1;
    }
  }
}
