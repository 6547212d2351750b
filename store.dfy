/**
 * The route handlers of app.py that read or write the database, over one
 * database and one browser session. Each handler is one atomic step.
 */
module Server {
  import opened Wrappers
  import opened Text
  import ExamDate
  import opened Tables
  import opened Sessions

  datatype StudentEntry = StudentEntry(id: int, username: string, subjects: seq<Subject>)

  /**
   * What a handler answers. A redirect after success is `Ok`; `PageError`
   * is a form page rendered again with an error message; `ServerError` is an
   * exception the handler does not catch, which Flask answers with status 500.
   */
  datatype Response =
    | Ok
    | SubjectList(subjects: seq<Subject>)
    | StudentList(students: seq<StudentEntry>)
    | BadRequest(error: string)
    | NotFound
    | Unauthenticated
    | PageError(error: string)
    | ServerError

  /** `(data.get(key) or "")` for a text field; `None` is a missing or null field. */
  function OrEmpty(v: Option<string>): string {
    match v case None => "" case Some(s) => s
  }

  /**
   * `(data.get("difficulty") or "Medium").strip()`: "Medium" stands in only
   * for a missing or empty value; a value of spaces alone is truthy and strips to "".
   * ("Medium" has no space at its ends, so stripping it changes nothing.)
   */
  function DifficultyOf(v: Option<string>): (d: string)
    ensures v.None? || v == Some("") ==> d == "Medium"
    ensures d == "Medium" <==> v.None? || v == Some("") || Strip(v.value) == "Medium"
    ensures v.Some? && v.value != "" && (forall k :: 0 <= k < |v.value| ==> IsSpace(v.value[k])) ==> d == ""
  {
    if v.None? || v.value == "" then "Medium"
    else
      StripAllSpace(v.value);
      Strip(v.value)
  }

  /**
   * A difficulty that was given is stored as the given text without its
   * leading and trailing whitespace: the input is that value with a run of
   * whitespace before it and a run after it, and the value has none at its ends.
   */
  lemma DifficultyTrimmed(v: Option<string>)
    requires v.Some? && v.value != ""
    ensures var d := DifficultyOf(v);
      && (d == [] || (!IsSpace(d[0]) && !IsSpace(d[|d| - 1])))
      && exists before, after :: v.value == before + d + after && AllSpace(before) && AllSpace(after)
  {
    StripSplit(v.value);
  }

  datatype NewSubject = NewSubject(name: string, examDate: string, totalUnits: int, difficulty: string)

  /** The condition of the "Missing fields" answer: `not name or not exam_date or not total_units`. */
  predicate MissingFields(name: Option<string>, examDate: Option<string>, totalUnits: Option<int>) {
    Strip(OrEmpty(name)) == [] || Strip(OrEmpty(examDate)) == [] || totalUnits.None? || totalUnits == Some(0)
  }

  /**
   * The checks `api_add_subject` makes before inserting, in its order; each
   * failure names the error the JSON answer carries.
   */
  function ValidateSubject(name: Option<string>, examDate: Option<string>, totalUnits: Option<int>, difficulty: Option<string>)
    : (r: Result<NewSubject, string>)
    ensures r == Failure("Missing fields") <==> MissingFields(name, examDate, totalUnits)
    ensures r == Failure("Total units must be > 0") <==> !MissingFields(name, examDate, totalUnits) && totalUnits.value < 0
    ensures r == Failure("Invalid exam date") <==>
      !MissingFields(name, examDate, totalUnits) && totalUnits.value > 0 && ExamDate.ParseDate(Strip(OrEmpty(examDate))).None?
    ensures r.Success? <==>
      && Strip(OrEmpty(name)) != [] && totalUnits.Some? && totalUnits.value > 0
      && ExamDate.ParseDate(Strip(OrEmpty(examDate))).Some?
    ensures r.Success? ==>
      r.value == NewSubject(Strip(OrEmpty(name)), Strip(OrEmpty(examDate)), totalUnits.value, DifficultyOf(difficulty))
  {
    var n := Strip(OrEmpty(name));
    var e := Strip(OrEmpty(examDate));
    if n == [] || e == [] || totalUnits.None? || totalUnits.value == 0 then Failure("Missing fields")
    else if totalUnits.value <= 0 then Failure("Total units must be > 0")
    else if ExamDate.ParseDate(e).None? then Failure("Invalid exam date")
    else Success(NewSubject(n, e, totalUnits.value, DifficultyOf(difficulty)))
  }

  /** The database file and the browser session the handlers share. */
  class Store {
    var mentors: seq<Mentor>
    var users: seq<User>
    var subjects: seq<Subject>
    // The AUTOINCREMENT counters: the id the next insert into each table gets.
    var nextMentorId: int
    var nextUserId: int
    var nextSubjectId: int
    var session: Session

    /** The database invariants; they depend on the tables and counters only, not on the session. */
    ghost predicate TablesValid()
      reads this`mentors, this`users, this`subjects, this`nextMentorId, this`nextUserId, this`nextSubjectId
    {
      && 0 < nextMentorId && 0 < nextUserId && 0 < nextSubjectId
      && MentorIdsBelow(mentors, nextMentorId)
      && UserIdsBelow(users, nextUserId)
      && SubjectIdsBelow(subjects, nextSubjectId)
      && MentorCodesUnique(mentors)
      && UsernamesUnique(users)
      && MentorLinksResolve(users, mentors)
      && ProgressBounded(subjects)
    }

    ghost predicate Valid()
      reads this
    {
      TablesValid() && WellFormed(session)
    }

    /** A fresh database after the CREATE TABLE statements, and a browser with no session. */
    constructor ()
      ensures Valid()
      ensures mentors == [] && users == [] && subjects == [] && session == map[]
      ensures nextMentorId == 1 && nextUserId == 1 && nextSubjectId == 1
    {
      mentors, users, subjects := [], [], [];
      nextMentorId, nextUserId, nextSubjectId := 1, 1, 1;
      session := map[];
    }

    /** The seed step of `init_db`. */
    method InitDb()
      requires Valid()
      modifies this`mentors, this`nextMentorId
      ensures Valid()
      ensures mentors == SeedDefaultMentor(old(mentors), old(nextMentorId))
      ensures nextMentorId == old(nextMentorId) + |mentors| - |old(mentors)|
    {
      var existing := FindMentorByCode(mentors, DefaultMentorCode);
      if existing.None? {
        ghost var before := mentors;
        mentors := mentors + [DefaultMentor(nextMentorId)];
        nextMentorId := nextMentorId + 1;
        assert forall i :: 0 <= i < |before| ==> mentors[i] == before[i];
        assert mentors[|before|].id == nextMentorId - 1;
        forall i | 0 <= i < |users| && users[i].mentorId.Some?
          ensures exists j :: 0 <= j < |mentors| && mentors[j].id == users[i].mentorId.value
        {
          var j :| 0 <= j < |before| && before[j].id == users[i].mentorId.value;
          assert mentors[j] == before[j];
        }
      }
    }

    /** `student_login`: on a match the session is cleared and then holds this student only. */
    method StudentLogin(username: string, password: string) returns (resp: Response)
      requires Valid()
      modifies this`session
      ensures Valid()
      ensures var found := FindUserByName(users, Strip(username));
        if found.Some? && CheckPassword(users[found.value].passwordHash, password) then
          && resp == Ok
          && session == StudentSession(users[found.value].id, users[found.value].username, users[found.value].mentorId)
        else
          resp == PageError("Invalid username or password") && session == old(session)
    {
      var name := Strip(username);
      var found := FindUserByName(users, name);
      if found.None? || !CheckPassword(users[found.value].passwordHash, password) {
        return PageError("Invalid username or password");
      }
      var user := users[found.value];
      session := StudentSession(user.id, user.username, user.mentorId);
      resp := Ok;
    }

    /** `student_register`: adds one user with a fresh id and a unique username, or refuses and adds nothing. */
    method StudentRegister(username: string, password: string, mentorCode: string) returns (resp: Response)
      requires Valid()
      modifies this`users, this`nextUserId
      ensures Valid()
      ensures var name, code := Strip(username), Strip(mentorCode);
        var mentor := FindMentorByCode(mentors, code);
        if name == [] || password == [] then
          resp == PageError("Username and password required") && users == old(users) && nextUserId == old(nextUserId)
        else if code != [] && mentor.None? then
          resp == PageError("Invalid mentor code") && users == old(users) && nextUserId == old(nextUserId)
        else if FindUserByName(old(users), name).Some? then
          resp == PageError("Username already exists") && users == old(users) && nextUserId == old(nextUserId)
        else
          && resp == Ok
          && users == old(users) + [User(old(nextUserId), name, HashPassword(password),
                                         if code == [] then None else Some(mentors[mentor.value].id))]
          && nextUserId == old(nextUserId) + 1
    {
      var name := Strip(username);
      var code := Strip(mentorCode);
      if name == [] || password == [] {
        return PageError("Username and password required");
      }
      var mentorId: Option<int> := None;
      if code != [] {
        var m := FindMentorByCode(mentors, code);
        if m.None? {
          return PageError("Invalid mentor code");
        }
        mentorId := Some(mentors[m.value].id);
      }
      // The UNIQUE constraint on users.username turns a second row with this name into an IntegrityError.
      if FindUserByName(users, name).Some? {
        return PageError("Username already exists");
      }
      var user := User(nextUserId, name, HashPassword(password), mentorId);
      AppendUser(users, mentors, nextUserId, user);
      users := users + [user];
      nextUserId := nextUserId + 1;
      resp := Ok;
    }

    /** `logout`: `session.clear()`. */
    method Logout()
      requires Valid()
      modifies this`session
      ensures Valid()
      ensures session == map[] && PrincipalOf(session) == Nobody
    {
      session := map[];
    }

    /** `api_get_subjects`: exactly the session user's subjects, newest first; reads only. */
    method ApiGetSubjects() returns (resp: Response)
      requires Valid()
      ensures !LoginRequired(session) ==> resp == Unauthenticated
      ensures LoginRequired(session) ==>
        && resp.SubjectList?
        && (forall s :: s in resp.subjects <==> s in subjects && s.userId == session[UserId].i)
        && SubjectIdsDescending(resp.subjects)
    {
      if !LoginRequired(session) {
        return Unauthenticated;
      }
      var userId := session[UserId].i;
      SubjectsNewestFirstDescending(subjects, userId);
      SubjectsNewestFirstRows(subjects, userId);
      resp := SubjectList(SubjectsNewestFirst(subjects, userId));
    }

    /**
     * `api_add_subject`: after the checks of `ValidateSubject`, one row is
     * appended with the next id, the session user as owner and no units done.
     */
    method ApiAddSubject(name: Option<string>, examDate: Option<string>, totalUnits: Option<int>,
                         difficulty: Option<string>, now: string) returns (resp: Response)
      requires Valid()
      modifies this`subjects, this`nextSubjectId
      ensures Valid()
      ensures !LoginRequired(session) ==>
        resp == Unauthenticated && subjects == old(subjects) && nextSubjectId == old(nextSubjectId)
      ensures LoginRequired(session) ==>
        match ValidateSubject(name, examDate, totalUnits, difficulty)
        case Failure(e) =>
          resp == BadRequest(e) && subjects == old(subjects) && nextSubjectId == old(nextSubjectId)
        case Success(v) =>
          if !FitsInteger(v.totalUnits) then
            resp == ServerError && subjects == old(subjects) && nextSubjectId == old(nextSubjectId)
          else
            && resp == Ok
            && (forall s :: s in old(subjects) ==> s.id < old(nextSubjectId))
            && subjects == old(subjects) + [Subject(old(nextSubjectId), session[UserId].i, v.name, v.examDate,
                                                    v.totalUnits, v.difficulty, 0, now)]
            && nextSubjectId == old(nextSubjectId) + 1
    {
      if !LoginRequired(session) {
        return Unauthenticated;
      }
      var n := Strip(OrEmpty(name));
      var e := Strip(OrEmpty(examDate));
      var d := DifficultyOf(difficulty);
      if n == [] || e == [] || totalUnits.None? || totalUnits.value == 0 {
        return BadRequest("Missing fields");
      }
      var units := totalUnits.value;
      if units <= 0 {
        return BadRequest("Total units must be > 0");
      }
      if ExamDate.ParseDate(e).None? {
        return BadRequest("Invalid exam date");
      }
      // The INSERT binds total_units; a value beyond SQLite's INTEGER range raises before any row is written.
      if !FitsInteger(units) {
        return ServerError;
      }
      var row := Subject(nextSubjectId, session[UserId].i, n, e, units, d, 0, now);
      AppendSubject(subjects, nextSubjectId, row);
      subjects := subjects + [row];
      nextSubjectId := nextSubjectId + 1;
      resp := Ok;
    }

    /**
     * `api_update_subject`: under the ownership check, only `units_completed`
     * of the one matching row changes, clamped into `0..total_units`.
     */
    method ApiUpdateSubject(subjectId: nat, unitsCompleted: Option<int>) returns (resp: Response)
      requires Valid()
      modifies this`subjects
      ensures Valid()
      ensures !LoginRequired(session) ==> resp == Unauthenticated && subjects == old(subjects)
      ensures LoginRequired(session) && unitsCompleted.None? ==>
        resp == BadRequest("units_completed must be number") && subjects == old(subjects)
      ensures LoginRequired(session) && unitsCompleted.Some? && !FitsInteger(subjectId) ==>
        resp == ServerError && subjects == old(subjects)
      ensures LoginRequired(session) && unitsCompleted.Some? && FitsInteger(subjectId) ==>
        var found := FindOwnedSubject(old(subjects), subjectId, session[UserId].i);
        if found.None? then resp == NotFound && subjects == old(subjects)
        else
          var row := old(subjects)[found.value];
          resp == Ok && subjects == old(subjects)[found.value := row.(unitsCompleted := ClampUnits(unitsCompleted.value, row.totalUnits))]
    {
      if !LoginRequired(session) {
        return Unauthenticated;
      }
      if unitsCompleted.None? {
        return BadRequest("units_completed must be number");
      }
      var units := unitsCompleted.value;
      if units < 0 {
        units := 0;
      }
      // The ownership SELECT binds the id from the URL, which may exceed SQLite's INTEGER range.
      if !FitsInteger(subjectId) {
        return ServerError;
      }
      var found := FindOwnedSubject(subjects, subjectId, session[UserId].i);
      if found.None? {
        return NotFound;
      }
      var row := subjects[found.value];
      if units > row.totalUnits {
        units := row.totalUnits;
      }
      SetUnitsOneRow(subjects, found.value, units);
      SetUnitsKeeps(subjects, nextSubjectId, found.value, units);
      subjects := SetUnitsWhereId(subjects, subjectId, units);
      resp := Ok;
    }

    /**
     * `api_delete_subject`: removes the row only if the session user owns it,
     * and answers ok whether or not a row matched.
     */
    method ApiDeleteSubject(subjectId: nat) returns (resp: Response)
      requires Valid()
      modifies this`subjects
      ensures Valid()
      ensures !LoginRequired(session) ==> resp == Unauthenticated && subjects == old(subjects)
      ensures LoginRequired(session) && !FitsInteger(subjectId) ==> resp == ServerError && subjects == old(subjects)
      ensures LoginRequired(session) && FitsInteger(subjectId) ==>
        resp == Ok && subjects == DeleteOwned(old(subjects), subjectId, session[UserId].i)
    {
      if !LoginRequired(session) {
        return Unauthenticated;
      }
      // The DELETE binds the id from the URL, which may exceed SQLite's INTEGER range.
      if !FitsInteger(subjectId) {
        return ServerError;
      }
      var userId := session[UserId].i;
      DeleteOwnedAscending(subjects, subjectId, userId);
      DeleteOwnedRows(subjects, subjectId, userId);
      RowsFrom(DeleteOwned(subjects, subjectId, userId), subjects, nextSubjectId);
      subjects := DeleteOwned(subjects, subjectId, userId);
      resp := Ok;
    }

    /** `mentor_login`: on a match the session is cleared and then holds this mentor only. */
    method MentorLogin(mentorCode: string, password: string) returns (resp: Response)
      requires Valid()
      modifies this`session
      ensures Valid()
      ensures var found := FindMentorByCode(mentors, Strip(mentorCode));
        if found.Some? && CheckPassword(mentors[found.value].passwordHash, password) then
          resp == Ok && session == MentorSession(mentors[found.value].id, mentors[found.value].name)
        else
          resp == PageError("Invalid mentor login") && session == old(session)
    {
      var code := Strip(mentorCode);
      var found := FindMentorByCode(mentors, code);
      if found.None? || !CheckPassword(mentors[found.value].passwordHash, password) {
        return PageError("Invalid mentor login");
      }
      var mentor := mentors[found.value];
      session := MentorSession(mentor.id, mentor.name);
      resp := Ok;
    }

    /** `mentor_logout`: `session.clear()`. */
    method MentorLogout()
      requires Valid()
      modifies this`session
      ensures Valid()
      ensures session == map[] && PrincipalOf(session) == Nobody
    {
      session := map[];
    }

    /** The loop of `mentor_api_students`: each student in turn, with that student's subjects newest first. */
    method SubjectsPerStudent(students: seq<User>) returns (result: seq<StudentEntry>)
      ensures |result| == |students|
      ensures forall k :: 0 <= k < |students| ==>
        result[k] == StudentEntry(students[k].id, students[k].username, SubjectsNewestFirst(subjects, students[k].id))
    {
      result := [];
      var i := 0;
      while i < |students|
        invariant 0 <= i <= |students|
        invariant |result| == i
        invariant forall k :: 0 <= k < i ==>
          result[k] == StudentEntry(students[k].id, students[k].username, SubjectsNewestFirst(subjects, students[k].id))
      {
        var st := students[i];
        var subs := SubjectsNewestFirst(subjects, st.id);
        result := result + [StudentEntry(st.id, st.username, subs)];
        i := i + 1;
      }
    }

    /**
     * `mentor_api_students`: one entry per student linked to the session
     * mentor, in username order, each with that student's subjects newest first.
     */
    method MentorApiStudents() returns (resp: Response)
      requires Valid()
      ensures !MentorLoginRequired(session) ==> resp == Unauthenticated
      ensures MentorLoginRequired(session) ==>
        var students := StudentsOfMentor(users, session[MentorId].i);
        && resp.StudentList?
        && |resp.students| == |students|
        && (forall k :: 0 <= k < |students| ==>
              resp.students[k] == StudentEntry(students[k].id, students[k].username, SubjectsNewestFirst(subjects, students[k].id)))
        && (forall i, j :: 0 <= i < j < |resp.students| ==> TextLe(resp.students[i].username, resp.students[j].username))
    {
      if !MentorLoginRequired(session) {
        return Unauthenticated;
      }
      var mentorId := session[MentorId].i;
      var students := StudentsOfMentor(users, mentorId);
      var result := SubjectsPerStudent(students);
      StudentsOfMentorExactly(users, mentorId);
      forall i, j | 0 <= i < j < |result| ensures TextLe(result[i].username, result[j].username) {
        assert result[i].username == students[i].username && result[j].username == students[j].username;
      }
      resp := StudentList(result);
    }
  }
}
