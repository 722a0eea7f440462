/** The registration system as objects: courses and students are updated in
    place, and the system owns them through two maps keyed by code and by id.
    Every method is proved to act on the abstract state (`model`) exactly as
    the matching function of module Records says. */
module Registry {
  import opened Outcomes
  import opened Records

  /** A course offering with a bounded enrolment counter. */
  class Course {
    const code: string
    const title: string
    const description: string
    const capacity: int
    var enrolled: int

    /** The value this object currently stands for. */
    function Rec(): CourseRec
      reads this
    {
      CourseRec(code, title, description, capacity, enrolled)
    }

    constructor (code: string, title: string, description: string, capacity: int)
      ensures Rec() == CourseRec(code, title, description, capacity, 0)
      ensures Rec().Bounded()
    {
      this.code := code;
      this.title := title;
      this.description := description;
      this.capacity := capacity;
      this.enrolled := 0;
    }

    function IsAvailable(): (b: bool)
      reads this
      ensures b <==> Rec().Available()
    {
      enrolled < capacity
    }

    /** Takes a seat when one is free; otherwise silently does nothing. */
    method EnrollStudent()
      modifies this
      ensures Rec() == old(Rec()).Enroll()
    {
      if IsAvailable() {
        enrolled := enrolled + 1;
      }
    }

    /** Frees a seat when one is taken; otherwise silently does nothing. */
    method DropStudent()
      modifies this
      ensures Rec() == old(Rec()).Drop()
    {
      if enrolled > 0 {
        enrolled := enrolled - 1;
      }
    }
  }

  /** A student and the codes of the courses they hold. */
  class Student {
    const id: string
    const name: string
    var registeredCourses: set<string>

    /** The value this object currently stands for. */
    function Rec(): StudentRec
      reads this
    {
      StudentRec(id, name, registeredCourses)
    }

    constructor (id: string, name: string)
      ensures Rec() == StudentRec(id, name, {})
    {
      this.id := id;
      this.name := name;
      this.registeredCourses := {};
    }

    method RegisterCourse(courseCode: string)
      modifies this
      ensures Rec() == old(Rec()).Register(courseCode)
    {
      registeredCourses := registeredCourses + {courseCode};
    }

    method DropCourse(courseCode: string)
      modifies this
      ensures Rec() == old(Rec()).Drop(courseCode)
    {
      registeredCourses := registeredCourses - {courseCode};
    }
  }

  /** The owner of all courses and students. */
  class RegistrationSystem {
    var courses: map<string, Course>
    var students: map<string, Student>
    /** The abstract state: the record of every course and every student. */
    ghost var model: State

    /** The maps hold exactly the objects whose records `model` lists, and
        `model` keeps its invariant. Since a key equals the code or id of its
        object, distinct keys never share an object. */
    ghost predicate Valid()
      reads this, courses.Values, students.Values
    {
      courses.Keys == model.courses.Keys &&
      students.Keys == model.students.Keys &&
      (forall c :: c in courses ==> courses[c].Rec() == model.courses[c]) &&
      (forall s :: s in students ==> students[s].Rec() == model.students[s]) &&
      model.Inv()
    }

    /** Creates the system with its fixed three-course catalog. */
    constructor ()
      ensures Valid()
      ensures model == Seed()
      ensures fresh(courses.Values)
    {
      var catalog := InitializeCourses();
      courses := catalog;
      students := map[];
      model := Seed();
    }

    /** The fixed catalog: three new course objects, filed by their codes,
        whose records are those of the seed state. */
    static method InitializeCourses() returns (catalog: map<string, Course>)
      ensures catalog.Keys == Seed().courses.Keys
      ensures forall c :: c in catalog ==> catalog[c].Rec() == Seed().courses[c]
      ensures fresh(catalog.Values)
    {
      var cs := new Course("CS101", "Introduction to Programming", "Learn the basics of programming.", 30);
      var math := new Course("MATH201", "Calculus I", "An introduction to calculus.", 25);
      var bio := new Course("BIO301", "Biology Fundamentals", "Study the fundamentals of biology.", 20);
      catalog := map["CS101" := cs, "MATH201" := math, "BIO301" := bio];
      assert forall c :: c in catalog ==> catalog[c] in {cs, math, bio};
      forall c | c in catalog
        ensures catalog[c].Rec() == Seed().courses[c]
      {
        if c == "CS101" {
        } else if c == "MATH201" {
        } else {
          assert c == "BIO301";
        }
      }
    }

    /** Adds a student with a fresh id and registers them for each selected
        code whose course exists and has a seat at that moment. The codes
        arrive already split at commas and trimmed. */
    method AddStudent(id: string, name: string, courseCodes: seq<string>) returns (r: Outcome, accepted: seq<bool>)
      requires Valid()
      modifies this, courses.Values, students.Values
      ensures Valid()
      ensures AddReply(model, r, accepted) == Records.AddStudent(old(model), id, name, courseCodes)
      ensures courses == old(courses)
      ensures forall s :: s in old(students) ==> s in students && students[s] == old(students[s])
      ensures r == Ok ==> id in students && fresh(students[id])
    {
      if id in students {
        return DuplicateId, [];
      }
      Admit(id, name);
      accepted := RegisterSelection(id, courseCodes);
      r := Ok;
    }

    /** Creates the student object of a fresh id, holding no course, and
        files it under that id. */
    method Admit(id: string, name: string)
      requires Valid() && id !in students
      modifies this
      ensures Valid()
      ensures model == Records.Admit(old(model), id, name)
      ensures courses == old(courses)
      ensures id in students && fresh(students[id]) && students == old(students)[id := students[id]]
    {
      var newStudent := new Student(id, name);
      students := students[id := newStudent];
      model := Records.Admit(model, id, name);
    }

    /** The selection loop of `addStudent`: each code in turn is registered
        for the student when its course exists and has a seat. */
    method RegisterSelection(id: string, courseCodes: seq<string>) returns (accepted: seq<bool>)
      requires Valid() && id in students
      modifies this, students.Values, courses.Values
      ensures Valid()
      ensures (model, accepted) == SelectCourses(old(model), id, courseCodes)
      ensures courses == old(courses) && students == old(students)
    {
      ghost var all := SelectCourses(model, id, courseCodes);
      accepted := [];
      var i := 0;
      while i < |courseCodes|
        invariant 0 <= i <= |courseCodes|
        invariant courses == old(courses) && students == old(students)
        invariant Valid() && id in model.students
        invariant SelectCourses(model, id, courseCodes[i..]).0 == all.0
        invariant accepted + SelectCourses(model, id, courseCodes[i..]).1 == all.1
      {
        ghost var todo := courseCodes[i..];
        assert todo[0] == courseCodes[i] && todo[1..] == courseCodes[i + 1..];
        SelectCoursesStep(model, id, todo);
        ghost var prefix := accepted;
        var courseCode := courseCodes[i];
        var ok := courseCode in courses && courses[courseCode].IsAvailable();
        if ok {
          Enlist(id, courseCode);
        }
        accepted := accepted + [ok];
        AppendAssoc(prefix, ok, SelectCourses(model, id, courseCodes[i + 1..]).1);
        i := i + 1;
      }
      assert courseCodes[i..] == [];
      assert accepted + [] == accepted;
    }

    static lemma AppendAssoc(a: seq<bool>, x: bool, b: seq<bool>)
      ensures (a + [x]) + b == a + ([x] + b)
    {
    }

    /** The two updates of a successful registration, applied together: the
        student gains the code and the course takes a seat (silently none
        when it is full). */
    method Enlist(studentId: string, courseCode: string)
      requires Valid() && studentId in students && courseCode in courses
      modifies this, students.Values, courses.Values
      ensures Valid()
      ensures model == Records.Enlist(old(model), studentId, courseCode)
      ensures courses == old(courses) && students == old(students)
    {
      var student := students[studentId];
      var course := courses[courseCode];
      student.RegisterCourse(courseCode);
      course.EnrollStudent();
      model := Records.Enlist(model, studentId, courseCode);
      forall c | c in courses
        ensures courses[c].Rec() == model.courses[c]
      {
        assert c != courseCode ==> old(courses[c].Rec()).code != course.code;
      }
      forall s | s in students
        ensures students[s].Rec() == model.students[s]
      {
        assert s != studentId ==> old(students[s].Rec()).id != student.id;
      }
    }

    /** The two updates of a successful drop, applied together: the student
        loses the code and the course frees a seat (silently none when its
        counter is 0). */
    method Unenlist(studentId: string, courseCode: string)
      requires Valid() && studentId in students && courseCode in courses
      modifies this, students.Values, courses.Values
      ensures Valid()
      ensures model == Records.Unenlist(old(model), studentId, courseCode)
      ensures courses == old(courses) && students == old(students)
    {
      var student := students[studentId];
      var course := courses[courseCode];
      student.DropCourse(courseCode);
      course.DropStudent();
      model := Records.Unenlist(model, studentId, courseCode);
      forall c | c in courses
        ensures courses[c].Rec() == model.courses[c]
      {
        assert c != courseCode ==> old(courses[c].Rec()).code != course.code;
      }
      forall s | s in students
        ensures students[s].Rec() == model.students[s]
      {
        assert s != studentId ==> old(students[s].Rec()).id != student.id;
      }
    }

    /** Registers a student for a course: an unknown student first, then an
        unknown course, then a full course are refused without any change. */
    method RegisterStudent(studentId: string, courseCode: string) returns (r: Outcome)
      requires Valid()
      modifies this, courses.Values, students.Values
      ensures Valid()
      ensures Reply(model, r) == Register(old(model), studentId, courseCode)
      ensures courses == old(courses) && students == old(students)
    {
      if studentId !in students {
        return StudentNotFound;
      }
      if courseCode !in courses {
        return CourseNotFound;
      }
      if courses[courseCode].IsAvailable() {
        Enlist(studentId, courseCode);
        r := Ok;
      } else {
        r := CourseFull;
      }
    }

    /** Drops a course for a student: an unknown student first, then an
        unknown course, then a code the student does not hold are refused
        without any change. */
    method DropCourse(studentId: string, courseCode: string) returns (r: Outcome)
      requires Valid()
      modifies this, courses.Values, students.Values
      ensures Valid()
      ensures Reply(model, r) == Records.DropCourse(old(model), studentId, courseCode)
      ensures courses == old(courses) && students == old(students)
    {
      if studentId !in students {
        return StudentNotFound;
      }
      if courseCode !in courses {
        return CourseNotFound;
      }
      if courseCode in students[studentId].registeredCourses {
        Unenlist(studentId, courseCode);
        r := Ok;
      } else {
        r := NotRegistered;
      }
    }

    /** The lookup of `displayStudentCourses`: the course of every code the
        student holds. Every such code is in the catalog, so each lookup
        succeeds. */
    method StudentCourses(studentId: string) returns (r: Outcome, listing: map<string, CourseRec>)
      requires Valid()
      ensures (r, listing) == Records.StudentCourses(model, studentId)
      ensures r == Ok ==> listing.Keys == model.students[studentId].registeredCourses
    {
      if studentId !in students {
        return StudentNotFound, map[];
      }
      var student := students[studentId];
      listing := map c | c in student.registeredCourses :: courses[c].Rec();
      r := Ok;
      assert listing == Records.StudentCourses(model, studentId).1;
    }
  }
}
