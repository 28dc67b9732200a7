/** The paper-marking worker: it drains tuq:pending_papers, scores each
    submitted paper against its course's answer key, stores an ExamTaken row
    for each paper it could mark and copies every paper it could not mark into
    tuq:error_unmarked_papers. */
module PaperMarker {
  import opened Wrappers
  import opened Stores

  /** Seconds the worker sleeps after finding no pending paper. */
  const SleepSeconds := 60
  /** Seconds the worker waits before its first poll. */
  const StartupDelaySeconds := 10

  /** What `json.loads` and `long()` make of one pending paper, outside the
      try block: the three ids, the date as given, the `data` string itself,
      and what `json.loads(data)` yields. That is `None` when it has no
      `len()`; otherwise its entries, each as `int()` converts it (`None` where
      `int()` raises). */
  datatype PaperRequest = PaperRequest(
    courseId: int,
    userId: int,
    ownerId: int,
    dateTaken: Option<string>,
    answersText: string,
    answers: Option<seq<Option<int>>>)

  /** grab_course_data: the first course row with the given id; `None` stands
      for the ValueError raised when there is none. */
  function GrabCourseData(courses: seq<CourseRow>, id: int): (r: Option<CourseRow>)
    ensures r.None? <==> forall j :: 0 <= j < |courses| ==> courses[j].id != id
    ensures r.Some? ==> r.value.id == id && r.value in courses
  {
    if courses == [] then None
    else if courses[0].id == id then Some(courses[0])
    else GrabCourseData(courses[1..], id)
  }

  datatype MarkError = NoLength | ArityMismatch | NotAnInteger

  datatype Score = Score(score: nat, total: nat)

  predicate AllIntegers(answers: seq<Option<int>>)
  {
    forall i :: 0 <= i < |answers| ==> answers[i].Some?
  }

  /** Two answer entries agree when both are integers and equal. */
  predicate Agree(a: Option<int>, b: Option<int>)
  {
    a.Some? && b.Some? && a.value == b.value
  }

  /** The number of positions at which two equally long answer lists agree. */
  function Matches(expected: seq<Option<int>>, submitted: seq<Option<int>>): (n: nat)
    requires |expected| == |submitted|
    ensures n <= |expected|
  {
    if expected == [] then 0
    else
      var last := |expected| - 1;
      Matches(expected[..last], submitted[..last]) + (if Agree(expected[last], submitted[last]) then 1 else 0)
  }

  /** mark_paper as a value: the arity check first, then an `int()` of every
      entry of both lists, then the count of agreeing positions out of the
      arity. */
  function Mark(expected: seq<Option<int>>, submitted: Option<seq<Option<int>>>): Result<Score, MarkError>
  {
    if submitted.None? then Failure(NoLength)
    else if |expected| != |submitted.value| then Failure(ArityMismatch)
    else if !(AllIntegers(expected) && AllIntegers(submitted.value)) then Failure(NotAnInteger)
    else Success(Score(Matches(expected, submitted.value), |expected|))
  }

  /** The positions at which `int(expected[i]) == int(submitted[i])`. */
  ghost function MatchingPositions(expected: seq<Option<int>>, submitted: seq<Option<int>>): set<nat>
    requires |expected| == |submitted|
  {
    set i: nat | i < |expected| && Agree(expected[i], submitted[i])
  }

  /** The score counts exactly the agreeing positions. */
  lemma {:induction false} MatchesCountsPositions(expected: seq<Option<int>>, submitted: seq<Option<int>>)
    requires |expected| == |submitted|
    ensures Matches(expected, submitted) == |MatchingPositions(expected, submitted)|
  {
    if expected != [] {
      var last := |expected| - 1;
      var e, s := expected[..last], submitted[..last];
      MatchesCountsPositions(e, s);
      var before := MatchingPositions(e, s);
      var all := MatchingPositions(expected, submitted);
      if Agree(expected[last], submitted[last]) {
        assert all == before + {last};
        assert last !in before;
      } else {
        assert all == before;
      }
    }
  }

  /** Full marks exactly when every position agrees. */
  lemma {:induction false} FullMarks(expected: seq<Option<int>>, submitted: seq<Option<int>>)
    requires |expected| == |submitted|
    ensures Matches(expected, submitted) == |expected| <==>
            forall i :: 0 <= i < |expected| ==> Agree(expected[i], submitted[i])
  {
    if expected != [] {
      var last := |expected| - 1;
      var e, s := expected[..last], submitted[..last];
      FullMarks(e, s);
      if forall i :: 0 <= i < |expected| ==> Agree(expected[i], submitted[i]) {
        assert forall i :: 0 <= i < |e| ==> Agree(e[i], s[i]) by {
          forall i | 0 <= i < |e| ensures Agree(e[i], s[i]) {
            assert e[i] == expected[i] && s[i] == submitted[i];
          }
        }
      }
    }
  }

  /** The outcome of mark_paper: an arity mismatch always raises, with no
      partial score; when it does not raise, the score is the number of
      positions whose integer values agree and the total is the arity. */
  lemma MarkOutcome(expected: seq<Option<int>>, submitted: Option<seq<Option<int>>>)
    ensures submitted.Some? && |expected| != |submitted.value| ==> Mark(expected, submitted) == Failure(ArityMismatch)
    ensures Mark(expected, submitted).Success? <==>
            submitted.Some? && |expected| == |submitted.value| && AllIntegers(expected) && AllIntegers(submitted.value)
    ensures Mark(expected, submitted).Success? ==>
              var m := Mark(expected, submitted).value;
              && m.total == |expected| == |submitted.value|
              && m.score == |MatchingPositions(expected, submitted.value)|
              && 0 <= m.score <= m.total
  {
    if submitted.Some? && |expected| == |submitted.value| {
      MatchesCountsPositions(expected, submitted.value);
    }
  }

  /** mark_paper: reads the course's answer key, checks the arity, then
      counts in a loop the positions whose integer values agree. */
  method MarkPaper(course: CourseRow, submitted: Option<seq<Option<int>>>) returns (r: Result<Score, MarkError>)
    ensures r == Mark(course.answerKey, submitted)
  {
    var expected := course.answerKey;
    var arity := |expected|;
    if submitted.None? {
      return Failure(NoLength);
    }
    var answers := submitted.value;
    if arity != |answers| {
      return Failure(ArityMismatch);
    }
    var score := 0;
    var i := 0;
    while i < arity
      invariant 0 <= i <= arity
      invariant AllIntegers(expected[..i]) && AllIntegers(answers[..i])
      invariant score == Matches(expected[..i], answers[..i])
    {
      if expected[i].None? || answers[i].None? {
        return Failure(NotAnInteger);
      }
      assert expected[..i + 1][..i] == expected[..i] && answers[..i + 1][..i] == answers[..i];
      if expected[i].value == answers[i].value {
        score := score + 1;
      }
      i := i + 1;
    }
    assert expected[..arity] == expected && answers[..arity] == answers;
    r := Success(Score(score, arity));
  }

  /** Why a paper went to the error hash. */
  datatype PaperError = UnknownCourse | Unmarkable(reason: MarkError) | ExternalFault

  /** What one cycle depends on besides the two hashes: the JSON decoding
      library, the courses table, and the keys whose solution file cannot be
      read or whose ExamTaken row cannot be committed. */
  datatype Env = Env(decode: string -> Option<PaperRequest>, courses: seq<CourseRow>, faults: set<string>)

  /** The try block of the worker for one decoded paper. */
  function TryMark(env: Env, key: string, req: PaperRequest): Result<ExamTaken, PaperError>
  {
    match GrabCourseData(env.courses, req.courseId)
    case None => Failure(UnknownCourse)
    case Some(course) =>
      match Mark(course.answerKey, req.answers)
      case Failure(e) => Failure(Unmarkable(e))
      case Success(m) =>
        if key in env.faults then Failure(ExternalFault)
        else Success(ExamTaken(req.courseId, req.userId, req.ownerId, req.dateTaken, m.score, m.total, req.answersText))
  }

  /** A stored ExamTaken row belongs to an existing course and carries the
      request's ids, date and raw answers, its score and its total. */
  lemma MarkedPaperRow(env: Env, key: string, req: PaperRequest)
    requires TryMark(env, key, req).Success?
    ensures GrabCourseData(env.courses, req.courseId).Some?
    ensures var exam := TryMark(env, key, req).value;
            var course := GrabCourseData(env.courses, req.courseId).value;
            && req.answers.Some?
            && exam.courseId == req.courseId && exam.participantId == req.userId
            && exam.courseOwner == req.ownerId && exam.dateTaken == req.dateTaken
            && exam.otherData == req.answersText
            && exam.totalScore == |course.answerKey| == |req.answers.value|
            && exam.score == |MatchingPositions(course.answerKey, req.answers.value)|
            && exam.score <= exam.totalScore
  {
    var course := GrabCourseData(env.courses, req.courseId).value;
    MarkOutcome(course.answerKey, req.answers);
  }

  /** One paper from its raw text: `None` when decoding raises outside the
      try block, else the try block's result. */
  function Process(env: Env, key: string, raw: string): Option<Result<ExamTaken, PaperError>>
  {
    match env.decode(raw)
    case None => None
    case Some(req) => Some(TryMark(env, key, req))
  }

  datatype PaperState = PaperState(pending: map<string, string>, errors: map<string, string>, exams: seq<ExamTaken>)

  /** One iteration of the worker's for loop; `None` when it raises outside
      the try block (also when the key has vanished, as `hget` then gives
      None to `json.loads`). */
  function Step(env: Env, s: PaperState, key: string): Option<PaperState>
  {
    if key !in s.pending then None
    else
      var raw := s.pending[key];
      match Process(env, key, raw)
      case None => None
      case Some(Success(exam)) => Some(s.(pending := s.pending - {key}, exams := s.exams + [exam]))
      case Some(Failure(_)) => Some(s.(pending := s.pending - {key}, errors := s.errors[key := raw]))
  }

  /** One pass of the worker's for loop over a snapshot of keys. */
  function Cycle(env: Env, s: PaperState, keys: seq<string>): CycleEnd<PaperState>
    decreases |keys|
  {
    if keys == [] then Drained(s)
    else
      match Step(env, s, keys[0])
      case None => Halted(s, keys[0])
      case Some(next) => Cycle(env, next, keys[1..])
  }

  /** The rows a drained cycle adds, in snapshot order. */
  function MarkedExams(env: Env, pending: map<string, string>, keys: seq<string>): seq<ExamTaken>
    requires forall k :: k in keys ==> k in pending
  {
    if keys == [] then []
    else
      (match Process(env, keys[0], pending[keys[0]])
       case Some(Success(exam)) => [exam]
       case _ => [])
      + MarkedExams(env, pending, keys[1..])
  }

  lemma {:induction false} MarkedExamsAgree(env: Env, p: map<string, string>, q: map<string, string>, keys: seq<string>)
    requires forall k :: k in keys ==> k in p && k in q && p[k] == q[k]
    ensures MarkedExams(env, p, keys) == MarkedExams(env, q, keys)
  {
    if keys != [] {
      MarkedExamsAgree(env, p, q, keys[1..]);
    }
  }

  /** A cycle over a snapshot of pending keys whose payloads all decode:
      every snapshot key leaves the pending hash and nothing else does; a key
      lands in the error hash with its payload verbatim exactly when its try
      block failed, and every other error entry stays as it was; the
      ExamTaken rows added are those of the papers marked, in snapshot order. */
  lemma DrainedCycle(env: Env, s: PaperState, keys: seq<string>)
    requires Distinct(keys)
    requires forall k :: k in keys ==> k in s.pending && Process(env, k, s.pending[k]).Some?
    ensures Cycle(env, s, keys).Drained?
    ensures var t := Cycle(env, s, keys).state;
      && t.pending == s.pending - (set k | k in keys)
      && (forall k :: k in keys && Process(env, k, s.pending[k]).value.Failure? ==>
            k in t.errors && t.errors[k] == s.pending[k])
      && (forall k :: (k !in keys || Process(env, k, s.pending[k]).value.Success?) ==>
            (k in t.errors <==> k in s.errors) && (k in t.errors ==> t.errors[k] == s.errors[k]))
      && t.exams == s.exams + MarkedExams(env, s.pending, keys)
  {
    DrainedPending(env, s, keys);
    DrainedErrors(env, s, keys);
    DrainedExams(env, s, keys);
  }

  /** The state after the first key of a snapshot whose payload decodes. */
  lemma StepFacts(env: Env, s: PaperState, keys: seq<string>)
    requires Distinct(keys) && keys != []
    requires forall k :: k in keys ==> k in s.pending && Process(env, k, s.pending[k]).Some?
    ensures Step(env, s, keys[0]).Some?
    ensures var next := Step(env, s, keys[0]).value;
      && Distinct(keys[1..])
      && (forall k :: k in keys[1..] ==> k in next.pending && next.pending[k] == s.pending[k])
      && Cycle(env, s, keys) == Cycle(env, next, keys[1..])
  {
    DistinctTail(keys);
  }

  lemma {:induction false} DrainedPending(env: Env, s: PaperState, keys: seq<string>)
    requires Distinct(keys)
    requires forall k :: k in keys ==> k in s.pending && Process(env, k, s.pending[k]).Some?
    ensures Cycle(env, s, keys).Drained?
    ensures Cycle(env, s, keys).state.pending == s.pending - (set k | k in keys)
    decreases |keys|
  {
    if keys != [] {
      StepFacts(env, s, keys);
      DistinctTail(keys);
      DrainedPending(env, Step(env, s, keys[0]).value, keys[1..]);
    }
  }

  lemma {:induction false} DrainedErrors(env: Env, s: PaperState, keys: seq<string>)
    requires Distinct(keys)
    requires forall k :: k in keys ==> k in s.pending && Process(env, k, s.pending[k]).Some?
    ensures Cycle(env, s, keys).Drained?
    ensures var t := Cycle(env, s, keys).state;
      && (forall k :: k in keys && Process(env, k, s.pending[k]).value.Failure? ==>
            k in t.errors && t.errors[k] == s.pending[k])
      && (forall k :: (k !in keys || Process(env, k, s.pending[k]).value.Success?) ==>
            (k in t.errors <==> k in s.errors) && (k in t.errors ==> t.errors[k] == s.errors[k]))
    decreases |keys|
  {
    if keys != [] {
      StepFacts(env, s, keys);
      DistinctTail(keys);
      DrainedErrors(env, Step(env, s, keys[0]).value, keys[1..]);
    }
  }

  lemma {:induction false} DrainedExams(env: Env, s: PaperState, keys: seq<string>)
    requires Distinct(keys)
    requires forall k :: k in keys ==> k in s.pending && Process(env, k, s.pending[k]).Some?
    ensures Cycle(env, s, keys).Drained?
    ensures Cycle(env, s, keys).state.exams == s.exams + MarkedExams(env, s.pending, keys)
    decreases |keys|
  {
    if keys != [] {
      StepFacts(env, s, keys);
      var next := Step(env, s, keys[0]).value;
      DrainedExams(env, next, keys[1..]);
      MarkedExamsAgree(env, s.pending, next.pending, keys[1..]);
    }
  }

  /** A cycle stops at the first snapshot key whose payload does not decode,
      in the state the keys before it left: that key keeps its pending entry
      and gets no error entry, and the keys after it are not touched. */
  lemma {:induction false} HaltedCycle(env: Env, s: PaperState, keys: seq<string>, j: nat)
    requires Distinct(keys)
    requires forall k :: k in keys ==> k in s.pending
    requires j < |keys| && Process(env, keys[j], s.pending[keys[j]]).None?
    requires forall i :: 0 <= i < j ==> Process(env, keys[i], s.pending[keys[i]]).Some?
    ensures Cycle(env, s, keys[..j]).Drained?
    ensures Cycle(env, s, keys) == Halted(Cycle(env, s, keys[..j]).state, keys[j])
    decreases j
  {
    if j == 0 {
    } else {
      var k0 := keys[0];
      var rest := keys[1..];
      var next := Step(env, s, k0).value;
      assert forall i :: 0 <= i < |rest| ==> rest[i] != k0 && rest[i] == keys[i + 1];
      assert Distinct(rest) by {
        forall a, b | 0 <= a < b < |rest| ensures rest[a] != rest[b] {
          assert rest[a] == keys[a + 1] && rest[b] == keys[b + 1];
        }
      }
      assert forall k :: k in rest ==> k in next.pending && next.pending[k] == s.pending[k];
      HaltedCycle(env, next, rest, j - 1);
      assert keys[..j][0] == k0 && keys[..j][1..] == rest[..j - 1];
    }
  }

  function View(store: Store, db: Database): PaperState
    reads store, db
  {
    PaperState(store.pendingPapers, store.errorPapers, db.exams)
  }

  /** One wake of the worker's main loop: sleep if the snapshot is empty,
      then for every key try to mark the paper, store its ExamTaken row or
      copy its payload to the error hash, and delete its pending entry. */
  method RunCycle(store: Store, db: Database, snapshot: seq<string>,
                  decode: string -> Option<PaperRequest>, faults: set<string>)
    returns (slept: nat, halt: Option<string>)
    modifies store`pendingPapers, store`errorPapers, db`exams
    ensures slept == if snapshot == [] then SleepSeconds else 0
    ensures Cycle(Env(decode, db.courses, faults), old(View(store, db)), snapshot) == Finish(View(store, db), halt)
  {
    var env := Env(decode, db.courses, faults);
    slept := if snapshot == [] then SleepSeconds else 0;
    halt := None;
    var i := 0;
    while i < |snapshot|
      invariant 0 <= i <= |snapshot|
      invariant Cycle(env, old(View(store, db)), snapshot) == Cycle(env, View(store, db), snapshot[i..])
    {
      var key := snapshot[i];
      assert snapshot[i..][0] == key && snapshot[i..][1..] == snapshot[i + 1..];
      if key !in store.pendingPapers {
        halt := Some(key);
        return;
      }
      var raw := store.pendingPapers[key];
      var decoded := decode(raw);
      if decoded.None? {
        halt := Some(key);
        return;
      }
      var req := decoded.value;
      var marked := false;
      var course := GrabCourseData(db.courses, req.courseId);
      if course.Some? {
        var result := MarkPaper(course.value, req.answers);
        if result.Success? && key !in faults {
          db.exams := db.exams + [ExamTaken(req.courseId, req.userId, req.ownerId, req.dateTaken,
                                            result.value.score, result.value.total, req.answersText)];
          marked := true;
        }
      }
      if !marked {
        store.errorPapers := store.errorPapers[key := raw];
      }
      store.pendingPapers := store.pendingPapers - {key};
      i := i + 1;
    }
  }

  /** The scoring examples: [0,1,2] against the key [0,1,1] scores 2 of 3,
      and [0,1] against it is an arity error. */
  lemma ScoringExamples()
    ensures Mark([Some(0), Some(1), Some(1)], Some([Some(0), Some(1), Some(2)])) == Success(Score(2, 3))
    ensures Mark([Some(0), Some(1), Some(1)], Some([Some(0), Some(1)])) == Failure(ArityMismatch)
  {
    var e: seq<Option<int>> := [Some(0), Some(1), Some(1)];
    var s: seq<Option<int>> := [Some(0), Some(1), Some(2)];
    assert e[..2] == [Some(0), Some(1)] && s[..2] == [Some(0), Some(1)];
    assert e[..2][..1] == [Some(0)] && s[..2][..1] == [Some(0)];
    assert |e[..2][..1][..0]| == 0 && |s[..2][..1][..0]| == 0;
    assert Matches(e[..2][..1], s[..2][..1]) == 1;
    assert Matches(e[..2], s[..2]) == 2;
    assert Matches(e, s) == 2;
  }
}
