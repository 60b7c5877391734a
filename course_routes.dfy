/** `routes/course_routes.py`: a validated get-or-create of courses keyed by the upper-cased
    code, and deletion open to any authenticated user. */
module CourseRoutes {
  import opened Types
  import opened Store
  import Validation

  /** No two courses share a code. */
  predicate UniqueCodes(courses: map<CourseId, Course>) {
    forall a, b :: a in courses && b in courses && courses[a].code == courses[b].code ==> a == b
  }

  predicate HasCode(courses: map<CourseId, Course>, code: string) {
    exists id :: id in courses && courses[id].code == code
  }

  /** The JSON body; an absent key is None, a JSON null is read as the empty string. */
  datatype CourseRequest = CourseRequest(code: Option<string>, name: Option<string>)

  const CodeRequired := Response(BAD_REQUEST, "Course code is required")
  const NameRequired := Response(BAD_REQUEST, "Course name is required")
  const CourseAvailable := Response(OK, "Course available")
  const CourseDeleted := Response(OK, "Course deleted")

  /** The checks of `add_course`, in order: code present, name present, code 3 to 10
      alphanumerics after sanitising, name 1 to 100 characters after sanitising. */
  function CourseInputError(env: Env, req: CourseRequest): (err: Option<Response>)
    ensures err.None? <==>
              && Truthy(req.code) && Truthy(req.name)
              && Validation.ValidateCourseCode(env.sanitizePlainText(req.code.value)).valid
              && 1 <= |env.sanitizePlainText(req.name.value)| <= 100
    ensures !Truthy(req.code) ==> err == Some(CodeRequired)
    ensures Truthy(req.code) && !Truthy(req.name) ==> err == Some(NameRequired)
    ensures Truthy(req.code) && Truthy(req.name)
              && !Validation.ValidateCourseCode(env.sanitizePlainText(req.code.value)).valid ==>
              err == Some(Response(BAD_REQUEST,
                if env.sanitizePlainText(req.code.value) == "" then Validation.CourseCodeRequired
                else Validation.CourseCodeBad))
    ensures err.Some? ==> err.value.status == BAD_REQUEST
  {
    if !Truthy(req.code) then Some(CodeRequired)
    else if !Truthy(req.name) then Some(NameRequired)
    else
      var codeCheck := Validation.ValidateCourseCode(env.sanitizePlainText(req.code.value));
      if !codeCheck.valid then Some(Response(BAD_REQUEST, codeCheck.message))
      else
        var nameCheck := Validation.ValidateStringLength(env.sanitizePlainText(req.name.value), 1, 100, "Course name");
        if !nameCheck.valid then Some(Response(BAD_REQUEST, nameCheck.message)) else None
  }

  /** The stored form of a code that passed validation is itself a valid code. */
  lemma StoredCodeIsValid(code: string)
    requires Validation.ValidateCourseCode(code).valid
    ensures Validation.ValidateCourseCode(Validation.Upper(code)).valid
  {
    var u := Validation.Upper(code);
    forall i | 0 <= i < |u| ensures Validation.IsAlnum(u[i]) {
      assert Validation.IsAlnum(code[i]);
    }
  }

  /** `Course.query.filter_by(code=code).first()`. */
  method FindCourse(db: Store, code: string) returns (found: Option<CourseId>)
    ensures found.Some? ==> found.value in db.courses && db.courses[found.value].code == code
    ensures found.None? <==> !HasCode(db.courses, code)
  {
    if exists id :: id in db.courses && db.courses[id].code == code {
      var id :| id in db.courses && db.courses[id].code == code;
      found := Some(id);
    } else {
      found := None;
    }
  }

  /** The key `add_course` looks a course up by, and stores a new course under. */
  function CourseKey(env: Env, req: CourseRequest): string
    requires Truthy(req.code)
  {
    Validation.Upper(env.sanitizePlainText(req.code.value))
  }

  /** What `add_course` answers on store `s`, and the store `s'` it leaves: 200 whether the
      course already existed or was created; a course is created only when no course has the
      upper-cased code, and it stores that upper-cased code. */
  ghost predicate AddCourseOutcome(s: State, s': State, env: Env, req: CourseRequest, r: Response) {
    if CourseInputError(env, req).Some? then r == CourseInputError(env, req).value && s' == s
    else
      && r == CourseAvailable
      && if HasCode(s.courses, CourseKey(env, req)) then s' == s
         else s' == s.(courses := s.courses[s.nextCourseId :=
                         Course(CourseKey(env, req), Some(env.sanitizePlainText(req.name.value)))],
                       nextCourseId := s.nextCourseId + 1)
  }

  /** `add_course`; `course` is the course answered with, found or created. */
  method AddCourse(db: Store, env: Env, req: CourseRequest) returns (r: Response, course: Option<CourseId>)
    requires db.Valid()
    modifies db
    ensures db.Valid()
    ensures AddCourseOutcome(old(db.Snapshot()), db.Snapshot(), env, req, r)
    ensures course.None? <==> CourseInputError(env, req).Some?
    ensures course.Some? ==>
              && course.value in db.courses && db.courses[course.value].code == CourseKey(env, req)
              && (!HasCode(old(db.courses), CourseKey(env, req)) ==> course.value == old(db.nextCourseId))
    ensures UniqueCodes(old(db.courses)) ==> UniqueCodes(db.courses)
  {
    var err := CourseInputError(env, req);
    if err.Some? {
      return err.value, None;
    }
    var code := env.sanitizePlainText(req.code.value);
    var name := env.sanitizePlainText(req.name.value);
    var key := Validation.Upper(code);
    var found := FindCourse(db, key);
    if found.None? {
      var id := db.nextCourseId;
      db.courses := db.courses[id := Course(key, Some(name))];
      db.nextCourseId := db.nextCourseId + 1;
      found := Some(id);
    }
    r, course := CourseAvailable, found;
  }

  /** What `delete_course` answers and leaves: `get_or_404` runs outside any `try`, so a missing
      course is a 404; there is no ownership check. */
  ghost predicate DeleteCourseOutcome(s: State, s': State, id: CourseId, r: Response) {
    if id !in s.courses then r == NotFound && s' == s
    else r == CourseDeleted && s' == s.(courses := s.courses - {id})
  }

  /** `delete_course`. */
  method DeleteCourse(db: Store, id: CourseId) returns (r: Response)
    requires db.Valid()
    modifies db
    ensures db.Valid()
    ensures DeleteCourseOutcome(old(db.Snapshot()), db.Snapshot(), id, r)
  {
    if id !in db.courses {
      return NotFound;
    }
    db.courses := db.courses - {id};
    r := CourseDeleted;
  }
}
