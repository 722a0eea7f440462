/** The registration bookkeeping as values: the state of a course, of a
    student and of the whole system, and every operation of the system as a
    function from the old state to the new state and its outcome. The classes
    in module Registry are proved to follow these functions. */
module Records {
  import opened Outcomes

  /** One course offering. Only `enrolled` ever changes after creation. */
  datatype CourseRec = CourseRec(code: string, title: string, description: string, capacity: int, enrolled: int)
  {
    /** A seat is free while fewer students are enrolled than the capacity. */
    predicate Available() {
      enrolled < capacity
    }

    /** The counter never goes negative and never passes the capacity; a
        course created with a negative capacity keeps its counter at 0. */
    ghost predicate Bounded() {
      0 <= enrolled <= if capacity < 0 then 0 else capacity
    }

    /** The silent, availability-guarded increment of `enrollStudent`. */
    function Enroll(): (r: CourseRec)
      ensures r.(enrolled := enrolled) == this
      ensures r.enrolled == enrolled + 1 <==> Available()
      ensures r.enrolled == enrolled <==> !Available()
      ensures Bounded() ==> r.Bounded()
    {
      if Available() then this.(enrolled := enrolled + 1) else this
    }

    /** The silent, zero-guarded decrement of `dropStudent`. */
    function Drop(): (r: CourseRec)
      ensures r.(enrolled := enrolled) == this
      ensures r.enrolled == enrolled - 1 <==> enrolled > 0
      ensures r.enrolled == enrolled <==> enrolled <= 0
      ensures Bounded() ==> r.Bounded()
    {
      if enrolled > 0 then this.(enrolled := enrolled - 1) else this
    }
  }

  /** One student: an id, a name and the set of codes they hold. */
  datatype StudentRec = StudentRec(id: string, name: string, registeredCourses: set<string>)
  {
    /** Set insertion: the code is held afterwards, and no other code changes. */
    function Register(code: string): (r: StudentRec)
      ensures r.id == id && r.name == name
      ensures code in r.registeredCourses
      ensures r.registeredCourses - {code} == registeredCourses - {code}
    {
      this.(registeredCourses := registeredCourses + {code})
    }

    /** Set removal: the code is not held afterwards, and no other code changes. */
    function Drop(code: string): (r: StudentRec)
      ensures r.id == id && r.name == name
      ensures code !in r.registeredCourses
      ensures r.registeredCourses + {code} == registeredCourses + {code}
    {
      this.(registeredCourses := registeredCourses - {code})
    }
  }

  /** The whole system: the catalog by code and the students by id. */
  datatype State = State(courses: map<string, CourseRec>, students: map<string, StudentRec>)
  {
    /** Each key names its own record, every counter is bounded, and every
        code a student holds is a course of the catalog. */
    ghost predicate Inv() {
      (forall c :: c in courses ==> courses[c].code == c && courses[c].Bounded()) &&
      (forall s :: s in students ==> students[s].id == s) &&
      (forall s, c :: s in students && c in students[s].registeredCourses ==> c in courses)
    }
  }

  /** What a registration or a drop returns: the new state and the outcome. */
  datatype Reply = Reply(state: State, outcome: Outcome)

  /** What adding a student returns: the new state, the outcome, and for each
      requested code whether it was registered. */
  datatype AddReply = AddReply(state: State, outcome: Outcome, accepted: seq<bool>)

  /** The fixed catalog the system starts with, and no students. */
  function Seed(): (st: State)
    ensures st.courses.Keys == {"CS101", "MATH201", "BIO301"}
    ensures st.courses["CS101"].capacity == 30
    ensures st.courses["MATH201"].capacity == 25
    ensures st.courses["BIO301"].capacity == 20
    ensures forall c :: c in st.courses ==> st.courses[c].enrolled == 0
    ensures st.students == map[]
    ensures st.Inv()
  {
    State(
      map[
        "CS101" := CourseRec("CS101", "Introduction to Programming", "Learn the basics of programming.", 30, 0),
        "MATH201" := CourseRec("MATH201", "Calculus I", "An introduction to calculus.", 25, 0),
        "BIO301" := CourseRec("BIO301", "Biology Fundamentals", "Study the fundamentals of biology.", 20, 0)
      ],
      map[])
  }

  /** The paired update of a successful registration: the student gains the
      code and the course counts one more enrolment. Nothing else changes. */
  function Enlist(st: State, sid: string, code: string): (r: State)
    requires sid in st.students && code in st.courses
    ensures r.courses.Keys == st.courses.Keys && r.students.Keys == st.students.Keys
    ensures r.students[sid] == st.students[sid].Register(code)
    ensures r.courses[code] == st.courses[code].Enroll()
    ensures forall s :: s in st.students && s != sid ==> r.students[s] == st.students[s]
    ensures forall c :: c in st.courses && c != code ==> r.courses[c] == st.courses[c]
    ensures st.Inv() ==> r.Inv()
  {
    State(st.courses[code := st.courses[code].Enroll()], st.students[sid := st.students[sid].Register(code)])
  }

  /** The paired update of a successful drop: the student loses the code and
      the course counts one enrolment less. Nothing else changes. */
  function Unenlist(st: State, sid: string, code: string): (r: State)
    requires sid in st.students && code in st.courses
    ensures r.courses.Keys == st.courses.Keys && r.students.Keys == st.students.Keys
    ensures r.students[sid] == st.students[sid].Drop(code)
    ensures r.courses[code] == st.courses[code].Drop()
    ensures forall s :: s in st.students && s != sid ==> r.students[s] == st.students[s]
    ensures forall c :: c in st.courses && c != code ==> r.courses[c] == st.courses[c]
    ensures st.Inv() ==> r.Inv()
  {
    State(st.courses[code := st.courses[code].Drop()], st.students[sid := st.students[sid].Drop(code)])
  }

  /** `registerStudent`: the student is looked up first, then the course,
      then the seat. Membership of the code is never checked. */
  function Register(st: State, sid: string, code: string): (r: Reply)
    ensures r.outcome in {Ok, StudentNotFound, CourseNotFound, CourseFull}
    ensures r.outcome == StudentNotFound <==> sid !in st.students
    ensures r.outcome == CourseNotFound <==> sid in st.students && code !in st.courses
    ensures r.outcome == CourseFull <==> sid in st.students && code in st.courses && !st.courses[code].Available()
    ensures r.outcome != Ok ==> r.state == st
    ensures r.outcome == Ok ==> r.state == Enlist(st, sid, code)
    ensures st.Inv() ==> r.state.Inv()
  {
    if sid !in st.students then Reply(st, StudentNotFound)
    else if code !in st.courses then Reply(st, CourseNotFound)
    else if st.courses[code].Available() then Reply(Enlist(st, sid, code), Ok)
    else Reply(st, CourseFull)
  }

  /** `dropCourse`: the student is looked up first, then the course, then
      whether the student holds the code. */
  function DropCourse(st: State, sid: string, code: string): (r: Reply)
    ensures r.outcome in {Ok, StudentNotFound, CourseNotFound, NotRegistered}
    ensures r.outcome == StudentNotFound <==> sid !in st.students
    ensures r.outcome == CourseNotFound <==> sid in st.students && code !in st.courses
    ensures r.outcome == NotRegistered <==>
              sid in st.students && code in st.courses && code !in st.students[sid].registeredCourses
    ensures r.outcome != Ok ==> r.state == st
    ensures r.outcome == Ok ==> r.state == Unenlist(st, sid, code)
    ensures st.Inv() ==> r.state.Inv()
  {
    if sid !in st.students then Reply(st, StudentNotFound)
    else if code !in st.courses then Reply(st, CourseNotFound)
    else if code in st.students[sid].registeredCourses then Reply(Unenlist(st, sid, code), Ok)
    else Reply(st, NotRegistered)
  }

  /** Whether the selection loop of `addStudent` registers `code`: the
      course exists and has a free seat at that moment. */
  predicate Selectable(st: State, code: string) {
    code in st.courses && st.courses[code].Available()
  }

  /** The selection loop of `addStudent`: each code in turn is registered for
      student `id` when it is selectable at that moment, and skipped
      otherwise. Returns the final state and one flag per code. */
  function SelectCourses(st: State, id: string, codes: seq<string>): (r: (State, seq<bool>))
    requires id in st.students
    ensures |r.1| == |codes|
    ensures r.0.courses.Keys == st.courses.Keys && r.0.students.Keys == st.students.Keys
    ensures forall i :: 0 <= i < |codes| && codes[i] !in st.courses ==> !r.1[i]
    ensures st.Inv() ==> r.0.Inv()
    decreases |codes|
  {
    if codes == [] then (st, [])
    else
      var ok := Selectable(st, codes[0]);
      var next := if ok then Enlist(st, id, codes[0]) else st;
      var rest := SelectCourses(next, id, codes[1..]);
      (rest.0, [ok] + rest.1)
  }

  /** One turn of the selection loop, unfolded. */
  lemma SelectCoursesStep(st: State, id: string, codes: seq<string>)
    requires id in st.students && codes != []
    ensures var next := if Selectable(st, codes[0]) then Enlist(st, id, codes[0]) else st;
            var rest := SelectCourses(next, id, codes[1..]);
            SelectCourses(st, id, codes) == (rest.0, [Selectable(st, codes[0])] + rest.1)
  {
  }

  /** `addStudent`: a known id is rejected and nothing changes; otherwise the
      student is created with no courses and the selection is registered. */
  function AddStudent(st: State, id: string, name: string, codes: seq<string>): (r: AddReply)
    ensures r.outcome in {Ok, DuplicateId}
    ensures r.outcome == DuplicateId <==> id in st.students
    ensures r.outcome == DuplicateId ==> r.state == st && r.accepted == []
    ensures r.outcome == Ok ==> |r.accepted| == |codes| && id in r.state.students
    ensures r.state.courses.Keys == st.courses.Keys
    ensures r.state.students.Keys == st.students.Keys + {id}
    ensures st.Inv() ==> r.state.Inv()
  {
    if id in st.students then AddReply(st, DuplicateId, [])
    else
      var sel := SelectCourses(Admit(st, id, name), id, codes);
      AddReply(sel.0, Ok, sel.1)
  }

  /** The new student with an empty set, before any course is selected. */
  function Admit(st: State, id: string, name: string): (r: State)
    requires id !in st.students
    ensures r.courses == st.courses
    ensures r.students.Keys == st.students.Keys + {id}
    ensures r.students[id].registeredCourses == {} && r.students[id].name == name
    ensures forall s :: s in st.students ==> r.students[s] == st.students[s]
    ensures st.Inv() ==> r.Inv()
  {
    State(st.courses, st.students[id := StudentRec(id, name, {})])
  }

  /** The lookup behind `displayStudentCourses`: the course record of every
      code the student holds, or StudentNotFound. */
  function StudentCourses(st: State, sid: string): (r: (Outcome, map<string, CourseRec>))
    ensures r.0 == Ok <==> sid in st.students
    ensures r.0 != Ok ==> r.0 == StudentNotFound && r.1 == map[]
    ensures forall c :: c in r.1 ==> sid in st.students && c in st.students[sid].registeredCourses &&
                                     c in st.courses && r.1[c] == st.courses[c]
  {
    if sid !in st.students then (StudentNotFound, map[])
    else (Ok, map c | c in st.students[sid].registeredCourses && c in st.courses :: st.courses[c])
  }
}
