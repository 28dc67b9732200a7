/** The request handlers' own logic: the date parser, the names of the files
    a course's questions and answers are stored in, the checks on an
    administrator's repository list when adding and deleting repositories and
    courses, and the signup checks against the deduplication sets. */
module Views {
  import opened Wrappers
  import opened Text
  import opened Stores
  import Forms
  import AdminBroker

  // ---------------------------------------------------------------- dates

  /** A `datetime.date`. */
  datatype Date = Date(year: int, month: int, day: int)

  predicate IsLeapYear(y: int)
  {
    y % 4 == 0 && (y % 100 != 0 || y % 400 == 0)
  }

  function DaysInMonth(y: int, m: int): (n: int)
    requires 1 <= m <= 12
    ensures 28 <= n <= 31
    ensures m == 2 ==> (n == 29 <==> IsLeapYear(y))
  {
    if m == 2 then (if IsLeapYear(y) then 29 else 28)
    else if m == 4 || m == 6 || m == 9 || m == 11 then 30
    else 31
  }

  /** The arguments `date(year, month, day)` accepts without ValueError. */
  predicate ValidDate(y: int, m: int, d: int)
  {
    1 <= y <= 9999 && 1 <= m <= 12 && 1 <= d <= DaysInMonth(y, m)
  }

  /** The exceptions date_from_string lets through: the ValueError of an
      `int()` conversion, which comes before its try, and the OverflowError
      `date()` raises for an argument that is not a C int, which its
      `except ValueError` does not catch. */
  datatype DateError = ValueError | OverflowError

  const IntMin: int := -0x8000_0000
  const IntMax: int := 0x7FFF_FFFF

  /** `date()` takes its arguments as C ints. */
  predicate FitsCInt(n: int)
  {
    IntMin <= n <= IntMax
  }

  /** date_from_string: `None` for `None` and for fewer than three
      '-'-separated fields; the three first fields go through `int()` before
      the try, so a non-integer raises ValueError; a value that is not a C int
      raises OverflowError; an impossible calendar date is `None`. */
  function DateFromString(text: Option<string>): (r: Result<Option<Date>, DateError>)
    ensures text.None? ==> r == Success(None)
    ensures text.Some? && |Split(text.value, '-')| < 3 ==> r == Success(None)
    ensures r.Failure? ==> text.Some? && |Split(text.value, '-')| >= 3
    ensures text.Some? && |Split(text.value, '-')| >= 3 ==>
              var fields := Split(text.value, '-');
              var y, m, d := ParseInt(fields[0]), ParseInt(fields[1]), ParseInt(fields[2]);
              && (r == Failure(ValueError) <==> y.None? || m.None? || d.None?)
              && (r == Failure(OverflowError) <==>
                    y.Some? && m.Some? && d.Some? && !(FitsCInt(y.value) && FitsCInt(m.value) && FitsCInt(d.value)))
    ensures r.Success? && r.value.Some? ==> ValidDate(r.value.value.year, r.value.value.month, r.value.value.day)
  {
    if text.None? then Success(None)
    else
      var fields := Split(text.value, '-');
      if |fields| < 3 then Success(None)
      else
        match (ParseInt(fields[0]), ParseInt(fields[1]), ParseInt(fields[2]))
        case (Some(y), Some(m), Some(d)) =>
          if !(FitsCInt(y) && FitsCInt(m) && FitsCInt(d)) then Failure(OverflowError)
          else if ValidDate(y, m, d) then Success(Some(Date(y, m, d)))
          else Success(None)
        case _ => Failure(ValueError)
  }

  /** `s` left-padded with zeros to `width` characters. */
  function PadDigits(s: string, width: nat): (p: string)
    requires AllDigits(s)
    ensures AllDigits(p) && |p| >= |s| && |p| >= width
  {
    if |s| < width then Zeros(width - |s|) + s else s
  }

  /** `date.isoformat()`: YYYY-MM-DD. */
  function IsoFormat(d: Date): string
    requires ValidDate(d.year, d.month, d.day)
  {
    PadDigits(DecimalString(d.year), 4) + "-" + PadDigits(DecimalString(d.month), 2) + "-"
      + PadDigits(DecimalString(d.day), 2)
  }

  lemma PaddedDecimal(n: nat, width: nat)
    ensures ParseInt(PadDigits(DecimalString(n), width)) == Some(n)
  {
    var s := DecimalString(n);
    var p := PadDigits(s, width);
    DigitsOfDecimal(n);
    if |s| < width {
      assert p == Zeros(width - |s|) + s;
      LeadingZeros(width - |s|, s);
    }
    assert DigitsValue(p) == n;
    ParseDigits(p);
  }

  /** Three fields without a dash, joined by dashes, split back into themselves. */
  lemma SplitFields(a: string, b: string, c: string)
    requires '-' !in a && '-' !in b && '-' !in c
    ensures Split(a + "-" + b + "-" + c, '-') == [a, b, c]
  {
    SplitWithoutSeparator(c, '-');
    SplitAtSeparator(b, '-', c);
    assert b + "-" + c == b + ['-'] + c;
    SplitAtSeparator(a, '-', b + "-" + c);
    assert a + "-" + b + "-" + c == a + ['-'] + (b + "-" + c);
  }

  lemma DigitsHaveNoDash(s: string)
    requires AllDigits(s)
    ensures '-' !in s
  {
  }

  /** Every date read back from its ISO form is that date: the parser and
      `isoformat` are inverse on valid dates. */
  lemma IsoRoundTrip(d: Date)
    requires ValidDate(d.year, d.month, d.day)
    ensures DateFromString(Some(IsoFormat(d))) == Success(Some(d))
  {
    var y := PadDigits(DecimalString(d.year), 4);
    var m := PadDigits(DecimalString(d.month), 2);
    var dd := PadDigits(DecimalString(d.day), 2);
    DigitsHaveNoDash(y);
    DigitsHaveNoDash(m);
    DigitsHaveNoDash(dd);
    SplitFields(y, m, dd);
    PaddedDecimal(d.year, 4);
    PaddedDecimal(d.month, 2);
    PaddedDecimal(d.day, 2);
    DateFromFields(y, m, dd);
  }

  /** Fields after the third are ignored. */
  lemma ExtraFieldsIgnored(a: string, b: string, c: string, rest: string)
    requires '-' !in a && '-' !in b && '-' !in c
    ensures DateFromString(Some(a + "-" + b + "-" + c + "-" + rest)) == DateFromString(Some(a + "-" + b + "-" + c))
  {
    SplitAtSeparator(c, '-', rest);
    assert c + "-" + rest == c + ['-'] + rest;
    SplitAtSeparator(b, '-', c + "-" + rest);
    assert b + "-" + c + "-" + rest == b + ['-'] + (c + "-" + rest);
    SplitAtSeparator(a, '-', b + "-" + c + "-" + rest);
    assert a + "-" + b + "-" + c + "-" + rest == a + ['-'] + (b + "-" + c + "-" + rest);
    SplitFields(a, b, c);
  }

  /** A three-field text whose fields are C-int integers is a date exactly
      when they form a valid calendar date, and `None` otherwise; one with a
      field that is not an integer raises ValueError, and one with an integer
      beyond the C int range raises OverflowError. */
  lemma DateFromFields(a: string, b: string, c: string)
    requires '-' !in a && '-' !in b && '-' !in c
    ensures var r := DateFromString(Some(a + "-" + b + "-" + c));
      && (ParseInt(a).None? || ParseInt(b).None? || ParseInt(c).None? ==> r == Failure(ValueError))
      && (ParseInt(a).Some? && ParseInt(b).Some? && ParseInt(c).Some? ==>
            var y, m, d := ParseInt(a).value, ParseInt(b).value, ParseInt(c).value;
            && (!(FitsCInt(y) && FitsCInt(m) && FitsCInt(d)) ==> r == Failure(OverflowError))
            && (FitsCInt(y) && FitsCInt(m) && FitsCInt(d) ==>
                  r == if ValidDate(y, m, d) then Success(Some(Date(y, m, d))) else Success(None)))
  {
    SplitFields(a, b, c);
  }

  /** A hearing date with a field too large for a C int raises, however
      valid the other fields are. */
  lemma OverflowingDate(y: nat, m: nat, d: nat)
    requires y > IntMax || m > IntMax || d > IntMax
    ensures DateFromString(Some(DecimalString(y) + "-" + DecimalString(m) + "-" + DecimalString(d)))
              == Failure(OverflowError)
  {
    ParseDecimal(y);
    ParseDecimal(m);
    ParseDecimal(d);
    DigitsHaveNoDash(DecimalString(y));
    DigitsHaveNoDash(DecimalString(m));
    DigitsHaveNoDash(DecimalString(d));
    DateFromFields(DecimalString(y), DecimalString(m), DecimalString(d));
  }

  /** A month that fits a C int but is not a calendar month gives `None`. */
  lemma InvalidMonth()
    ensures DateFromString(Some("2020-13-1")) == Success(None)
  {
    YearValue();
    ParseDigits("2020");
    ParseDigits("13");
    ParseDigits("1");
    assert DigitsValue("13") == 13 by { assert "13"[..1] == "1"; }
    DateFromFields("2020", "13", "1");
    assert "2020" + "-" + "13" + "-" + "1" == "2020-13-1";
  }

  /** The value of the digits of 2020, one digit at a time. */
  lemma YearValue()
    ensures DigitsValue("2020") == 2020
  {
    assert "2020"[..3] == "202" && "202"[..2] == "20" && "20"[..1] == "2";
  }

  /** The calendar rule: 29 February exists in leap years only. */
  lemma LeapDay(y: int)
    requires 1 <= y <= 9999
    ensures ValidDate(y, 2, 29) <==> IsLeapYear(y)
  {
  }

  // ------------------------------------------------------------ file names

  /** The question file name of a course code: spaces and dots become
      underscores, then `.json`. */
  function QuestionFileName(code: string): (name: string)
    ensures |name| == |code| + 5 && name[|code|..] == ".json"
    ensures forall i :: 0 <= i < |code| ==>
              name[i] == (if code[i] == ' ' || code[i] == '.' then '_' else code[i])
  {
    ReplaceChar(ReplaceChar(code, ' ', '_'), '.', '_') + ".json"
  }

  /** The solution file name: the question file name behind `solutions_`. */
  function SolutionFileName(code: string): (name: string)
    ensures |name| == |code| + 15
    ensures name[..10] == "solutions_" && name[10..] == QuestionFileName(code)
  {
    "solutions_" + QuestionFileName(code)
  }

  /** A file name's stem keeps no space and no dot of the code. */
  lemma FileNameStem(code: string)
    ensures var stem := QuestionFileName(code)[..|code|];
            ' ' !in stem && '.' !in stem
  {
    var stem := QuestionFileName(code)[..|code|];
    assert forall i :: 0 <= i < |stem| ==> stem[i] != ' ' && stem[i] != '.';
  }

  /** Codes without spaces and dots get different file names, so the question
      files of two different such codes never clash. */
  lemma FileNameInjective(a: string, b: string)
    requires ' ' !in a && '.' !in a && ' ' !in b && '.' !in b
    requires QuestionFileName(a) == QuestionFileName(b)
    ensures a == b
  {
    assert |a| == |b|;
    forall i | 0 <= i < |a| ensures a[i] == b[i] {
      assert QuestionFileName(a)[i] == a[i];
      assert QuestionFileName(b)[i] == b[i];
    }
  }

  /** Codes that differ only in a space against a dot share their files,
      though the duplicate check compares codes and lets both in. */
  lemma FileNamesCollide()
    ensures "CS 101" != "CS.101"
    ensures QuestionFileName("CS 101") == QuestionFileName("CS.101")
    ensures SolutionFileName("CS 101") == SolutionFileName("CS.101")
  {
    var a, b := QuestionFileName("CS 101"), QuestionFileName("CS.101");
    forall i | 0 <= i < |a| ensures a[i] == b[i]
    {
      if i >= 6 {
        assert a[i] == a[6..][i - 6] && b[i] == b[6..][i - 6];
      }
    }
    assert a == b;
  }

  /** The question file of the code `solutions_<c>` is the solution file of `c`. */
  lemma SolutionNamesOverlap(code: string)
    ensures QuestionFileName("solutions_" + code) == SolutionFileName(code)
  {
    var a, b := QuestionFileName("solutions_" + code), SolutionFileName(code);
    assert |a| == |b|;
    forall i | 0 <= i < |a| ensures a[i] == b[i] {
      if i >= 10 + |code| {
        assert a[10 + |code|..] == ".json";
        assert a[i] == a[10 + |code|..][i - 10 - |code|];
        assert b[10..][|code|..] == ".json";
        assert b[i] == b[10..][|code|..][i - 10 - |code|];
      } else if i >= 10 {
        assert b[i] == b[10..][i - 10];
        assert ("solutions_" + code)[i] == code[i - 10];
      } else {
        assert b[i] == b[..10][i];
        assert ("solutions_" + code)[i] == "solutions_"[i];
      }
    }
  }

  // ---------------------------------------------------- repositories, courses

  /** Where a course file is stored: under the upload directory, in the
      owner's directory, in the repository's directory. */
  datatype StoredFile = StoredFile(owner: string, repository: string, name: string)

  /** A JSON scalar as the duration arrives: an integer, which `int()`
      leaves as it is, or a string, which `int()` parses. */
  datatype Scalar = Number(n: int) | Text(s: string)

  function IntOf(v: Scalar): (r: Option<int>)
    ensures v.Number? ==> r == Some(v.n)
    ensures v.Text? && r.Some? ==> Strip(v.s) != ""
  {
    match v
    case Number(n) => Some(n)
    case Text(s) => ParseInt(s)
  }

  /** `int(str(n)) == int(n) == n`: a duration sent as the text of a number
      and one sent as the number itself are the same duration. */
  lemma IntOfDecimal(n: nat)
    ensures IntOf(Text(DecimalString(n))) == Some(n) && IntOf(Number(n)) == Some(n)
  {
    ParseDecimal(n);
  }

  /** A duration text that is blank or holds something other than digits
      around an optional sign is refused by `int()`. */
  lemma IntOfRejects()
    ensures IntOf(Text("")) == None && IntOf(Text("  ")) == None
    ensures IntOf(Text("90 min")) == None && IntOf(Text("1.5")) == None
  {
    assert Strip("90 min") == "90 min";
    assert Strip("1.5") == "1.5";
    assert TrimStart("  ") == "";
  }

  datatype Course = Course(
    name: string,
    code: string,
    lecturerInCharge: string,
    answersApproach: string,
    expiresOn: Option<string>,
    dateToBeHeld: Option<Date>,
    durationInMinutes: int,
    departments: seq<string>,
    quizFile: StoredFile,
    solutionFile: StoredFile,
    randomizeQuestions: bool)

  datatype Repository = Repository(name: string, courses: seq<Course>)

  /** The body of an add_repository or delete_repository request; `None` for
      a missing body. */
  datatype RepositoryRequest = RepositoryRequest(repositoryName: Option<string>)

  datatype RepositoryError =
    | InvalidData             // no JSON body
    | InvalidRepositoryName   // add: the name is missing or empty
    | RepositoryExists        // add: the user already has a repository of that name
    | MissingRepositoryName   // delete: the name is missing
    | NoSuchRepository        // delete: the user has no repository of that name

  /** The body of an admin_add_course request; each field as `.get` returns it. */
  datatype CourseRequest = CourseRequest(
    name: Option<string>,
    courseCode: Option<string>,
    administratorName: Option<string>,
    dateToBeHeld: Option<string>,
    duration: Option<Scalar>,
    question: Option<string>,
    approach: Option<string>,
    randomize: Option<bool>,
    expiresOn: Option<string>,
    answers: Option<string>,
    departments: Option<seq<string>>,
    repositoryName: Option<string>)

  datatype CourseError =
    | InvalidCourseData   // no JSON body
    | MissingArguments    // a required field is missing
    | UnknownRepository   // the user has no repository of that name
    | CourseCodeExists    // the repository already has a course with that code
    | CourseNotAdded      // the date or the duration raised while building the course

  /** The index of the first repository with the name, if any. */
  function FindRepository(repos: seq<Repository>, name: string): (r: Option<nat>)
    ensures r.Some? ==> r.value < |repos| && repos[r.value].name == name
    ensures r.Some? ==> forall j :: 0 <= j < r.value ==> repos[j].name != name
    ensures r.None? ==> forall j :: 0 <= j < |repos| ==> repos[j].name != name
  {
    if repos == [] then None
    else if repos[0].name == name then Some(0)
    else
      match FindRepository(repos[1..], name)
      case None => None
      case Some(i) => Some(i + 1)
  }

  /** No two repositories of the list share a name. */
  predicate UniqueNames(repos: seq<Repository>)
  {
    forall i, j :: 0 <= i < j < |repos| ==> repos[i].name != repos[j].name
  }

  /** No two courses of the list share a code. */
  predicate UniqueCodes(courses: seq<Course>)
  {
    forall i, j :: 0 <= i < j < |courses| ==> courses[i].code != courses[j].code
  }

  predicate HasCode(courses: seq<Course>, code: string)
  {
    exists c :: c in courses && c.code == code
  }

  /** add_repository_route on the user's repository list. */
  function AddRepositoryTo(repos: seq<Repository>, request: Option<RepositoryRequest>): Result<seq<Repository>, RepositoryError>
  {
    if request.None? then Failure(InvalidData)
    else
      var name := request.value.repositoryName;
      if name.None? || |name.value| == 0 then Failure(InvalidRepositoryName)
      else if FindRepository(repos, name.value).Some? then Failure(RepositoryExists)
      else Success(repos + [Repository(name.value, [])])
  }

  /** delete_repository_route on the user's repository list. */
  function DeleteRepositoryFrom(repos: seq<Repository>, request: Option<RepositoryRequest>): Result<seq<Repository>, RepositoryError>
  {
    if request.None? then Failure(InvalidData)
    else
      var name := request.value.repositoryName;
      if name.None? then Failure(MissingRepositoryName)
      else
        match FindRepository(repos, name.value)
        case None => Failure(NoSuchRepository)
        case Some(i) => Success(repos[..i] + repos[i + 1..])
  }

  /** The course admin_add_course_route builds, given the values the date
      parser and `int()` made of its fields. */
  function NewCourse(owner: string, repository: string, q: CourseRequest, date: Option<Date>, duration: int): Course
    requires q.name.Some? && q.courseCode.Some? && q.administratorName.Some? && q.approach.Some?
    requires q.departments.Some? && q.randomize.Some?
  {
    var code := q.courseCode.value;
    Course(q.name.value, code, q.administratorName.value, q.approach.value, q.expiresOn, date, duration,
           q.departments.value, StoredFile(owner, repository, QuestionFileName(code)),
           StoredFile(owner, repository, SolutionFileName(code)), q.randomize.value)
  }

  predicate HasRequiredFields(q: CourseRequest)
  {
    && q.courseCode.Some? && q.name.Some? && q.administratorName.Some? && q.dateToBeHeld.Some?
    && q.duration.Some? && q.departments.Some? && q.question.Some? && q.randomize.Some?
    && q.approach.Some? && q.answers.Some?
  }

  /** admin_add_course_route on the user's repository list. */
  function AddCourseTo(owner: string, repos: seq<Repository>, request: Option<CourseRequest>): Result<seq<Repository>, CourseError>
  {
    if request.None? then Failure(InvalidCourseData)
    else
      var q := request.value;
      if !HasRequiredFields(q) then Failure(MissingArguments)
      else if q.repositoryName.None? || FindRepository(repos, q.repositoryName.value).None? then Failure(UnknownRepository)
      else
        var i := FindRepository(repos, q.repositoryName.value).value;
        if HasCode(repos[i].courses, q.courseCode.value) then Failure(CourseCodeExists)
        else
          match (DateFromString(q.dateToBeHeld), IntOf(q.duration.value))
          case (Success(date), Some(minutes)) =>
            var course := NewCourse(owner, repos[i].name, q, date, minutes);
            Success(repos[i := repos[i].(courses := repos[i].courses + [course])])
          case _ => Failure(CourseNotAdded)
  }

  /** Adding a repository appends exactly one, empty, repository of the
      requested name, keeps the names unique, and is refused, with the list
      untouched, exactly for a missing or empty name or one in use. */
  lemma AddRepositoryOutcome(repos: seq<Repository>, request: Option<RepositoryRequest>)
    ensures var r := AddRepositoryTo(repos, request);
      && (r.Success? <==> request.Some? && request.value.repositoryName.Some?
                          && request.value.repositoryName.value != ""
                          && forall j :: 0 <= j < |repos| ==> repos[j].name != request.value.repositoryName.value)
      && (r.Success? ==> |r.value| == |repos| + 1 && r.value[..|repos|] == repos
                         && r.value[|repos|] == Repository(request.value.repositoryName.value, []))
      && (r.Success? && UniqueNames(repos) ==> UniqueNames(r.value))
  {
    var r := AddRepositoryTo(repos, request);
    if request.Some? && request.value.repositoryName.Some? && request.value.repositoryName.value != ""
       && forall j :: 0 <= j < |repos| ==> repos[j].name != request.value.repositoryName.value {
      assert r.Success?;
    }
    if r.Success? {
      assert r.value[..|repos|] == repos;
    }
  }

  /** Deleting removes the first repository of the name and keeps the others
      in order; with unique names the name is then gone. */
  lemma DeleteRepositoryOutcome(repos: seq<Repository>, name: string)
    ensures var r := DeleteRepositoryFrom(repos, Some(RepositoryRequest(Some(name))));
      && (r.Success? <==> exists j :: 0 <= j < |repos| && repos[j].name == name)
      && (r.Success? ==>
            var i := FindRepository(repos, name).value;
            && |r.value| == |repos| - 1
            && multiset(r.value) + multiset{repos[i]} == multiset(repos)
            && (forall j :: 0 <= j < i ==> r.value[j] == repos[j])
            && (forall j :: i <= j < |r.value| ==> r.value[j] == repos[j + 1]))
      && (r.Success? && UniqueNames(repos) ==>
            UniqueNames(r.value) && forall j :: 0 <= j < |r.value| ==> r.value[j].name != name)
  {
    var r := DeleteRepositoryFrom(repos, Some(RepositoryRequest(Some(name))));
    if r.Success? {
      var i := FindRepository(repos, name).value;
      assert repos == repos[..i] + [repos[i]] + repos[i + 1..];
      forall j | 0 <= j < |r.value| ensures (j < i ==> r.value[j] == repos[j]) && (j >= i ==> r.value[j] == repos[j + 1])
      {
        if j < i {
          assert r.value[j] == repos[j];
        } else {
          assert r.value[j] == repos[j + 1];
        }
      }
    }
  }

  /** Deleting a repository right after adding it gives the list back. */
  lemma DeleteUndoesAdd(repos: seq<Repository>, name: string)
    requires AddRepositoryTo(repos, Some(RepositoryRequest(Some(name)))).Success?
    ensures DeleteRepositoryFrom(AddRepositoryTo(repos, Some(RepositoryRequest(Some(name)))).value,
                                 Some(RepositoryRequest(Some(name)))) == Success(repos)
  {
    var added := repos + [Repository(name, [])];
    var i := FindRepository(added, name);
    assert FindRepository(repos, name).None?;
    assert forall j :: 0 <= j < |repos| ==> added[j].name != name;
    assert added[|repos|].name == name;
    assert i == Some(|repos|);
    assert added[..|repos|] + added[|repos| + 1..] == repos;
  }

  /** Adding a course changes only the named repository, appending to its
      courses one course whose code was not used there, stored under the
      code's file names; so the codes of every repository stay unique. */
  lemma AddCourseOutcome(owner: string, repos: seq<Repository>, q: CourseRequest)
    requires AddCourseTo(owner, repos, Some(q)).Success?
    ensures var r := AddCourseTo(owner, repos, Some(q)).value;
      var i := FindRepository(repos, q.repositoryName.value).value;
      var code := q.courseCode.value;
      && |r| == |repos|
      && (forall j :: 0 <= j < |repos| && j != i ==> r[j] == repos[j])
      && r[i].name == repos[i].name
      && |r[i].courses| == |repos[i].courses| + 1
      && r[i].courses[..|repos[i].courses|] == repos[i].courses
      && (forall c :: c in repos[i].courses ==> c.code != code)
      && (UniqueCodes(repos[i].courses) ==> UniqueCodes(r[i].courses))
      && r[i].courses[|repos[i].courses|].code == code
      && r[i].courses[|repos[i].courses|].quizFile == StoredFile(owner, repos[i].name, QuestionFileName(code))
      && r[i].courses[|repos[i].courses|].solutionFile == StoredFile(owner, repos[i].name, SolutionFileName(code))
  {
    var i := FindRepository(repos, q.repositoryName.value).value;
    var r := AddCourseTo(owner, repos, Some(q)).value;
    assert r[i].courses[..|repos[i].courses|] == repos[i].courses;
  }

  /** A course request missing one of the required fields, naming a
      repository the user does not have, or with a code that repository
      already uses, is refused whatever else it holds. */
  lemma AddCourseRefusals(owner: string, repos: seq<Repository>, q: CourseRequest)
    ensures !HasRequiredFields(q) ==> AddCourseTo(owner, repos, Some(q)) == Failure(MissingArguments)
    ensures HasRequiredFields(q) && q.repositoryName.None? ==> AddCourseTo(owner, repos, Some(q)) == Failure(UnknownRepository)
    ensures HasRequiredFields(q) && q.repositoryName.Some?
            && (forall j :: 0 <= j < |repos| ==> repos[j].name != q.repositoryName.value)
            ==> AddCourseTo(owner, repos, Some(q)) == Failure(UnknownRepository)
    ensures HasRequiredFields(q) && q.repositoryName.Some? && UniqueNames(repos) ==>
            forall j, c :: 0 <= j < |repos| && repos[j].name == q.repositoryName.value
                           && c in repos[j].courses && c.code == q.courseCode.value
                           ==> AddCourseTo(owner, repos, Some(q)) == Failure(CourseCodeExists)
  {
    if HasRequiredFields(q) && q.repositoryName.Some? && UniqueNames(repos) {
      forall j, c | 0 <= j < |repos| && repos[j].name == q.repositoryName.value
                    && c in repos[j].courses && c.code == q.courseCode.value
        ensures AddCourseTo(owner, repos, Some(q)) == Failure(CourseCodeExists)
      {
        var i := FindRepository(repos, q.repositoryName.value).value;
        assert i == j;
        assert HasCode(repos[i].courses, q.courseCode.value);
      }
    }
  }

  /** The logged-in administrator, with the repositories the handlers walk,
      append to and delete from in place. */
  class Account {
    const username: string
    var repositories: seq<Repository>

    constructor (username: string, repositories: seq<Repository>)
      ensures this.username == username && this.repositories == repositories
    {
      this.username := username;
      this.repositories := repositories;
    }

    /** The for loop over current_user.repositories looking for a name. */
    method Lookup(name: string) returns (i: Option<nat>)
      ensures i == FindRepository(repositories, name)
    {
      var j := 0;
      while j < |repositories|
        invariant 0 <= j <= |repositories|
        invariant forall k :: 0 <= k < j ==> repositories[k].name != name
      {
        if repositories[j].name == name {
          return Some(j);
        }
        j := j + 1;
      }
      return None;
    }

    method AddRepository(request: Option<RepositoryRequest>) returns (r: Result<(), RepositoryError>)
      modifies this`repositories
      ensures var spec := AddRepositoryTo(old(repositories), request);
              && (spec.Success? ==> r.Success? && repositories == spec.value)
              && (spec.Failure? ==> r == Failure(spec.error) && repositories == old(repositories))
    {
      if request.None? {
        return Failure(InvalidData);
      }
      var name := request.value.repositoryName;
      if name.None? || |name.value| == 0 {
        return Failure(InvalidRepositoryName);
      }
      var existing := Lookup(name.value);
      if existing.Some? {
        return Failure(RepositoryExists);
      }
      repositories := repositories + [Repository(name.value, [])];
      return Success(());
    }

    method DeleteRepository(request: Option<RepositoryRequest>) returns (r: Result<(), RepositoryError>)
      modifies this`repositories
      ensures var spec := DeleteRepositoryFrom(old(repositories), request);
              && (spec.Success? ==> r.Success? && repositories == spec.value)
              && (spec.Failure? ==> r == Failure(spec.error) && repositories == old(repositories))
    {
      if request.None? {
        return Failure(InvalidData);
      }
      var name := request.value.repositoryName;
      if name.None? {
        return Failure(MissingRepositoryName);
      }
      var found := Lookup(name.value);
      if found.None? {
        return Failure(NoSuchRepository);
      }
      var i := found.value;
      repositories := repositories[..i] + repositories[i + 1..];
      return Success(());
    }

    /** The for loop over a repository's courses looking for a code. */
    static method CodeInUse(courses: seq<Course>, code: string) returns (used: bool)
      ensures used <==> HasCode(courses, code)
    {
      var j := 0;
      while j < |courses|
        invariant 0 <= j <= |courses|
        invariant forall k :: 0 <= k < j ==> courses[k].code != code
      {
        if courses[j].code == code {
          assert courses[j] in courses;
          return true;
        }
        j := j + 1;
      }
      return false;
    }

    method AddCourse(request: Option<CourseRequest>) returns (r: Result<(), CourseError>)
      modifies this`repositories
      ensures var spec := AddCourseTo(username, old(repositories), request);
              && (spec.Success? ==> r.Success? && repositories == spec.value)
              && (spec.Failure? ==> r == Failure(spec.error) && repositories == old(repositories))
    {
      if request.None? {
        return Failure(InvalidCourseData);
      }
      var q := request.value;
      if !HasRequiredFields(q) {
        return Failure(MissingArguments);
      }
      if q.repositoryName.None? {
        return Failure(UnknownRepository);
      }
      var found := Lookup(q.repositoryName.value);
      if found.None? {
        return Failure(UnknownRepository);
      }
      var i := found.value;
      var used := CodeInUse(repositories[i].courses, q.courseCode.value);
      if used {
        return Failure(CourseCodeExists);
      }
      var date := DateFromString(q.dateToBeHeld);
      var minutes := IntOf(q.duration.value);
      if date.Failure? || minutes.None? {
        return Failure(CourseNotAdded);
      }
      var course := NewCourse(username, repositories[i].name, q, date.value, minutes.value);
      repositories := repositories[i := repositories[i].(courses := repositories[i].courses + [course])];
      return Success(());
    }
  }

  // ---------------------------------------------------------------- signup

  /** The body of a signup request; each field as `.get` returns it. */
  datatype SignupRequest = SignupRequest(
    fullName: Option<string>,
    address: Option<string>,
    email: Option<string>,
    username: Option<string>,
    phone: Option<string>,
    password: Option<string>)

  datatype SignupError =
    | InvalidRequest       // no JSON body
    | MissingDataMember    // one of the six fields is falsy
    | UsernameTaken
    | EmailTaken
    | PhoneTaken
    | UserDetailExists     // the commit raised InvalidRequestError
    | Unprocessable        // anything else raised: another database error, or the email

  /** How the insert and commit of the new user end. */
  datatype CommitOutcome =
    | Committed
    | InvalidRequestRaised // caught right after the commit
    | OtherErrorRaised     // IntegrityError and the like, caught by the outer handler

  /** A value Python treats as false: `None` or the empty string. */
  predicate Falsy(v: Option<string>)
  {
    v.None? || v.value == ""
  }

  predicate AllPresent(q: SignupRequest)
  {
    !Falsy(q.fullName) && !Falsy(q.address) && !Falsy(q.email) && !Falsy(q.username)
    && !Falsy(q.phone) && !Falsy(q.password)
  }

  /** The checks signup_route makes before touching the database, in its
      order; `None` when they all pass. */
  function SignupCheck(request: Option<SignupRequest>, usernames: set<string>, emails: set<string>, phones: set<string>): (e: Option<SignupError>)
  {
    if request.None? then Some(InvalidRequest)
    else
      var q := request.value;
      if !AllPresent(q) then Some(MissingDataMember)
      else if q.username.value in usernames then Some(UsernameTaken)
      else if q.email.value in emails then Some(EmailTaken)
      else if q.phone.value in phones then Some(PhoneTaken)
      else None
  }

  /** The checks pass exactly for a complete request whose username, email
      and phone are all unregistered, and a taken username is reported
      before a taken email, a taken email before a taken phone. */
  lemma SignupCheckOutcome(request: Option<SignupRequest>, usernames: set<string>, emails: set<string>, phones: set<string>)
    ensures var e := SignupCheck(request, usernames, emails, phones);
      && (e.None? <==> request.Some? && AllPresent(request.value) && request.value.username.value !in usernames
                       && request.value.email.value !in emails && request.value.phone.value !in phones)
      && (request.Some? && AllPresent(request.value) && request.value.username.value in usernames ==>
            e == Some(UsernameTaken))
      && (request.Some? && AllPresent(request.value) && request.value.username.value !in usernames
          && request.value.email.value in emails ==>
            e == Some(EmailTaken))
      && (request.Some? && AllPresent(request.value) && request.value.username.value !in usernames
          && request.value.email.value !in emails && request.value.phone.value in phones ==>
            e == Some(PhoneTaken))
  {
  }

  /** The users row signup_route inserts: a normal user, not premium, with
      the default picture and the username as alias. */
  function NewUser(q: SignupRequest, id: nat): UserRecord
  {
    UserRecord(id, q.username, q.fullName, q.email, q.phone, q.username, q.password, q.address,
               NormalUser, None, false, DefaultPicture, None)
  }

  /** signup_route: the checks, the insert, then the three `sadd`s, then the
      confirmation email. `commit` is how the insert ends, `sendFails` the
      email raising. */
  method Signup(store: Store, db: Database, request: Option<SignupRequest>, commit: CommitOutcome, sendFails: bool)
    returns (r: Result<(), SignupError>)
    modifies store`usernames, store`emails, store`phones, db`users, db`nextUserId
    ensures var e := SignupCheck(request, old(store.usernames), old(store.emails), old(store.phones));
      var accepted := e.None? && commit == Committed;
      && (e.Some? ==> r == Failure(e.value))
      && (e.None? && commit == InvalidRequestRaised ==> r == Failure(UserDetailExists))
      && (e.None? && commit == OtherErrorRaised ==> r == Failure(Unprocessable))
      && (!accepted ==> store.usernames == old(store.usernames) && store.emails == old(store.emails)
                        && store.phones == old(store.phones)
                        && db.users == old(db.users) && db.nextUserId == old(db.nextUserId))
      && (accepted ==>
            var q := request.value;
            && r == (if sendFails then Failure(Unprocessable) else Success(()))
            && db.users == old(db.users) + [NewUser(q, old(db.nextUserId))]
            && db.nextUserId == old(db.nextUserId) + 1
            && store.usernames == old(store.usernames) + {q.username.value}
            && store.emails == old(store.emails) + {q.email.value}
            && store.phones == old(store.phones) + {q.phone.value})
  {
    if request.None? {
      return Failure(InvalidRequest);
    }
    var q := request.value;
    if !AllPresent(q) {
      return Failure(MissingDataMember);
    }
    if q.username.value in store.usernames {
      return Failure(UsernameTaken);
    }
    if q.email.value in store.emails {
      return Failure(EmailTaken);
    }
    if q.phone.value in store.phones {
      return Failure(PhoneTaken);
    }
    match commit
    case InvalidRequestRaised => return Failure(UserDetailExists);
    case OtherErrorRaised => return Failure(Unprocessable);
    case Committed =>
    db.users := db.users + [NewUser(q, db.nextUserId)];
    db.nextUserId := db.nextUserId + 1;
    store.emails := store.emails + {q.email.value};
    store.usernames := store.usernames + {q.username.value};
    store.phones := store.phones + {q.phone.value};
    r := if sendFails then Failure(Unprocessable) else Success(());
  }

  /** Once a signup has been committed, the same request, or any other with
      that username, is refused. */
  lemma SignupNotRepeatable(q: SignupRequest, other: SignupRequest, usernames: set<string>, emails: set<string>, phones: set<string>)
    requires SignupCheck(Some(q), usernames, emails, phones).None?
    requires AllPresent(other) && other.username == q.username
    ensures SignupCheck(Some(other), usernames + {q.username.value}, emails + {q.email.value}, phones + {q.phone.value})
            == Some(UsernameTaken)
  {
  }

  // --------------------------------------------------------- admin signup

  /** The JSON object admin_signup_route stores for a valid form, as the
      admin-approval worker reads it back. */
  function SubmissionInfo(form: Forms.AdminForm): AdminBroker.AdminRequest
  {
    AdminBroker.AdminRequest(
      fullname := Some(form.fullName),
      address := Some(form.address),
      email := Some(form.email),
      mobile := Some(form.phoneNumber),
      username := Some(form.username),
      alias := Some(form.displayName),
      password := Some(form.password),
      nationality := Some(form.nationality))
  }

  /** admin_signup_route: a form that validates is queued in
      tuq:admin_requests under its username, as the text `encode` gives its
      JSON object; any other form leaves the store as it was. */
  method AdminSignup(store: Store, form: Forms.AdminForm, emailFormat: string -> bool,
                     encode: AdminBroker.AdminRequest -> string)
    returns (accepted: bool)
    modifies store`adminRequests
    ensures accepted == Forms.Acceptable(form, Forms.Context(store.usernames, store.emails, store.phones, emailFormat))
    ensures accepted ==> store.adminRequests == old(store.adminRequests)[form.username := encode(SubmissionInfo(form))]
    ensures !accepted ==> store.adminRequests == old(store.adminRequests)
  {
    var ctx := Forms.Context(store.usernames, store.emails, store.phones, emailFormat);
    Forms.FormRule(form, ctx);
    accepted := Forms.FormValid(form, ctx);
    if accepted {
      store.adminRequests := store.adminRequests[form.username := encode(SubmissionInfo(form))];
    }
  }

  /** Once the admin-approval worker has approved a submitted form, the same
      form no longer validates: its username and its email are now
      registered. */
  lemma ApprovedFormNotResubmittable(form: Forms.AdminForm, ctx: Forms.Context, env: AdminBroker.Env,
                                     s: AdminBroker.AdminState, text: string)
    requires Forms.FormValid(form, ctx)
    requires form.username in s.requests && s.requests[form.username] == text
    requires env.decode(text) == AdminBroker.Request(SubmissionInfo(form))
    requires AdminBroker.Committed(env, form.username, env.decode(text))
    ensures AdminBroker.Step(env, s, form.username).Some?
    ensures var t := AdminBroker.Step(env, s, form.username).value;
            && form.username in t.usernames && form.email in t.emails
            && !Forms.FormValid(form, ctx.(usernames := t.usernames))
            && !Forms.FormValid(form, ctx.(emails := t.emails))
  {
    var t := AdminBroker.Step(env, s, form.username).value;
    Forms.FormRule(form, ctx.(usernames := t.usernames));
    Forms.FormRule(form, ctx.(emails := t.emails));
  }
}
