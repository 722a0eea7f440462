# Student course registration, modelled in Dafny

The system is an in-memory course registration manager. It holds a fixed
catalog of three courses and a growing set of students. Students register for
courses and drop them, and registration is limited by each course's capacity.
A course keeps a counter of its enrolments. A student keeps the set of course
codes they hold. The system owns both kinds of object, through two maps: courses
by code and students by id.

The project has two layers.

- **Value layer.** Modules `Outcomes`, `Records`, `Properties` and
  `Consistency` describe every operation as a function from the old state to
  the new state and its outcome. A state `State` is built from `CourseRec` and
  `StudentRec` records. Lemmas about those functions give the properties below:
  - what each operation changes and what it leaves alone;
  - the order in which error conditions are checked;
  - the round trip of registering and then dropping;
  - what the selection loop of `addStudent` does to students and counters;
  - when a course's counter equals the number of students holding its code.
- **Object layer.** Module `Registry` has the classes `Course`, `Student` and
  `RegistrationSystem`, with the Java fields and methods. Each method updates
  objects in place. Its `ensures` says that the abstract state afterwards is
  exactly what the value-layer function computes from the abstract state
  before. The ghost field `model` is that abstract state. `Valid()` ties the two
  maps to `model` and keeps `model`'s invariant `State.Inv()`, which says:
  - each key is its object's own code or id;
  - every counter lies between 0 and the capacity, or is 0 when the capacity is
    negative (`CourseRec.Bounded`: `0 <= enrolled <= max(0, capacity)`);
  - every code a student holds is a course in the catalog.

The guards the Java tests are the predicates `CourseRec.Available` (a free
seat, `isAvailable` at java lines 43-45) and `Records.Selectable` (the course
exists and has a free seat, the test at java line 141). They are specification
predicates: they have no contract of their own and are used in the contracts
of the operations that test them.

Every operation reports its result as an `Outcome`: `Ok`, `DuplicateId`,
`StudentNotFound`, `CourseNotFound`, `CourseFull` or `NotRegistered`. The Java
prints a message instead. That message is not modelled; the outcome stands for
which message is printed.

Re-registering for a held code is modelled as the code does it. Neither
`registerStudent` (java lines 175-177) nor the selection loop of `addStudent`
(java lines 141-143) checks whether the student already holds the code. Set
insertion absorbs the second registration, but `enrolled` still rises
(`RegisterHeldCodeCountsAgain`). So after registering S1 for CS101 twice, S1
holds CS101 once and CS101's `enrolled` is 2. The counter therefore equals the
number of holders only while no student registers twice for the same code.
`DoubleRegisterOvercounts` and `RepeatedSelectionOvercounts` prove the
over-count. `RegisterKeepsConsistent`, `SelectKeepsConsistent` and
`AddStudentKeepsConsistent` prove that nothing else breaks the count.

## Model

| member | source | states |
|---|---|---|
| Records.CourseRec.Enroll | StudentCourseRegistrationSystem.java:47-51 | only the counter can change; it rises by exactly one when a seat was free and stays the same when the course was full; a bounded counter stays bounded |
| Records.CourseRec.Drop | StudentCourseRegistrationSystem.java:53-57 | only the counter can change; it falls by exactly one when it was positive and stays the same otherwise; a bounded counter stays bounded |
| Records.StudentRec.Register | StudentCourseRegistrationSystem.java:93-95 | id and name are kept; the code is held afterwards; no other code changes |
| Records.StudentRec.Drop | StudentCourseRegistrationSystem.java:98-100 | id and name are kept; the code is not held afterwards; no other code changes |
| Records.Seed | StudentCourseRegistrationSystem.java:109-120 | the catalog is exactly CS101, MATH201 and BIO301, with capacities 30, 25 and 20; every counter is 0; there are no students; the state satisfies the invariant |
| Records.Enlist | StudentCourseRegistrationSystem.java:176-177 | the student gains the code and the course takes a guarded enrolment; no other entry and no key changes; the invariant is preserved |
| Records.Unenlist | StudentCourseRegistrationSystem.java:200-201 | the student loses the code and the course gives up a guarded enrolment; no other entry and no key changes; the invariant is preserved |
| Records.Register | StudentCourseRegistrationSystem.java:161-182 | StudentNotFound, CourseNotFound and CourseFull each hold exactly when their check is the first to fail, in that order; any failure leaves the state unchanged; Ok is a single Enlist; the invariant is preserved |
| Records.DropCourse | StudentCourseRegistrationSystem.java:185-206 | StudentNotFound, CourseNotFound and NotRegistered each hold exactly when their check is the first to fail, in that order; any failure leaves the state unchanged; Ok is a single Unenlist; the invariant is preserved |
| Records.SelectCourses | StudentCourseRegistrationSystem.java:138-148 | there is one flag per requested code; a code missing from the catalog is never accepted; no key changes; the invariant is preserved |
| Records.AddStudent | StudentCourseRegistrationSystem.java:123-149 | DuplicateId exactly when the id is already present, and then nothing changes and nothing is accepted; otherwise Ok, with the student added and one flag per code; the course keys are unchanged; the invariant is preserved |
| Records.Admit | StudentCourseRegistrationSystem.java:128-129 | the new student holds no course and has the given name; every other student and every course is unchanged |
| Records.StudentCourses | StudentCourseRegistrationSystem.java:209-223 | Ok exactly when the student exists, otherwise StudentNotFound with an empty listing; every listed code is held by the student and maps to that course's current record |
| Properties.StudentRegisterIdempotent | StudentCourseRegistrationSystem.java:93-95 | registering a code a second time gives the same student as registering it once |
| Properties.StudentDropIdempotent | StudentCourseRegistrationSystem.java:98-100 | dropping a code a second time gives the same student as dropping it once |
| Properties.RegisterThenDrop | StudentCourseRegistrationSystem.java:161-206 | a successful registration for a code not yet held, followed by a drop of the same pair, returns Ok and exactly the original state |
| Properties.RegisterHeldCodeCountsAgain | StudentCourseRegistrationSystem.java:175-177 | registering for a code already held, with a seat free, still returns Ok; it leaves every student as before and raises the counter by one |
| Properties.StudentCoursesResolve | StudentCourseRegistrationSystem.java:219-221 | under the invariant, the listing of an existing student names exactly the codes they hold, so every lookup finds a course |
| Properties.SelectCoursesOthersUnchanged | StudentCourseRegistrationSystem.java:138-148 | the selection loop changes no student other than the one selecting |
| Properties.SelectCoursesRegistered | StudentCourseRegistrationSystem.java:138-148 | after the loop, the student holds their earlier codes plus exactly the accepted codes, and keeps id and name |
| Properties.SelectCoursesCounts | StudentCourseRegistrationSystem.java:138-148 | after the loop, each course's counter has risen by the number of accepted requests for it, and nothing else about the course changed |
| Properties.SelectCoursesAccepts | StudentCourseRegistrationSystem.java:138-148 | the request at each position is accepted exactly when its course exists and its counter, raised by the accepted earlier requests for the same code, is still below the capacity |
| Properties.AddStudentAccepts | StudentCourseRegistrationSystem.java:138-143 | for a fresh id, each requested code is accepted exactly when its course exists and still has a free seat after the seats the accepted earlier requests took |
| Properties.AddStudentEffect | StudentCourseRegistrationSystem.java:123-149 | for a fresh id: Ok; the new student holds exactly the accepted codes; other students are unchanged; each counter rises by its accepted requests |
| Consistency.SeedConsistent | StudentCourseRegistrationSystem.java:116-120 | in the seed state, every counter equals its number of holders (zero) |
| Consistency.EnlistHolders | StudentCourseRegistrationSystem.java:176-177 | a registration adds the student to the holders of the registered code and changes no other code's holders |
| Consistency.UnenlistHolders | StudentCourseRegistrationSystem.java:200-201 | a drop removes the student from the holders of the dropped code and changes no other code's holders |
| Consistency.EnlistKeepsConsistent | StudentCourseRegistrationSystem.java:175-177 | enlisting for an available code the student does not hold keeps every counter equal to its holders |
| Consistency.RegisterKeepsConsistent | StudentCourseRegistrationSystem.java:161-182 | registerStudent keeps every counter equal to its holders whenever the student does not already hold the code |
| Consistency.DropKeepsConsistent | StudentCourseRegistrationSystem.java:185-206 | dropCourse keeps every counter equal to its holders, with no further condition |
| Consistency.AdmitKeepsConsistent | StudentCourseRegistrationSystem.java:128-129 | creating a student with no courses keeps every counter equal to its holders |
| Consistency.SelectKeepsConsistent | StudentCourseRegistrationSystem.java:138-148 | the selection loop keeps every counter equal to its holders when no code is requested twice and none is already held |
| Consistency.AddStudentKeepsConsistent | StudentCourseRegistrationSystem.java:123-149 | addStudent keeps every counter equal to its holders when its selection names no code twice |
| Consistency.DoubleRegisterOvercounts | StudentCourseRegistrationSystem.java:175-177 | two successful registrations of the same pair, starting from exact counters, leave that counter above its number of holders |
| Consistency.SelectSameTwice | StudentCourseRegistrationSystem.java:138-148 | a selection naming one code twice, with two seats free, accepts it both times and enrols twice |
| Consistency.RepeatedSelectionOvercounts | StudentCourseRegistrationSystem.java:138-148 | addStudent with the selection [code, code], with two seats free, accepts both; the student holds {code}; the counter ends above its number of holders |
| Consistency.TwiceEnlistedOvercounts | StudentCourseRegistrationSystem.java:141-143 | enlisting one student twice for a code whose counter was exact adds the code once to their set, and leaves the counter above its number of holders |
| Registry.Course.constructor | StudentCourseRegistrationSystem.java:14-20 | the new course has the given code, title, description and capacity, and a counter of 0, which is bounded |
| Registry.Course.IsAvailable | StudentCourseRegistrationSystem.java:43-45 | true exactly when the course's record has a free seat |
| Registry.Course.EnrollStudent | StudentCourseRegistrationSystem.java:47-51 | the course's new record is its old record after a guarded enrolment |
| Registry.Course.DropStudent | StudentCourseRegistrationSystem.java:53-57 | the course's new record is its old record after a guarded drop |
| Registry.Student.constructor | StudentCourseRegistrationSystem.java:73-77 | the new student has the given id and name and holds no course |
| Registry.Student.RegisterCourse | StudentCourseRegistrationSystem.java:93-95 | the student's new record is its old record with the code inserted |
| Registry.Student.DropCourse | StudentCourseRegistrationSystem.java:98-100 | the student's new record is its old record with the code removed |
| Registry.RegistrationSystem.constructor | StudentCourseRegistrationSystem.java:109-120 | the new system is valid; its abstract state is the seed catalog with no students; its course objects are all new |
| Registry.RegistrationSystem.InitializeCourses | StudentCourseRegistrationSystem.java:116-120 | three new course objects, filed under exactly the seed codes, each with the seed record for its code |
| Registry.RegistrationSystem.AddStudent | StudentCourseRegistrationSystem.java:123-149 | outcome, acceptance flags and new abstract state are those of Records.AddStudent; validity is kept; the course objects and all earlier student objects are kept; on Ok the new student object is fresh |
| Registry.RegistrationSystem.Admit | StudentCourseRegistrationSystem.java:128-129 | a fresh student object is filed under the new id; the abstract state becomes Records.Admit of the old one; validity is kept |
| Registry.RegistrationSystem.RegisterSelection | StudentCourseRegistrationSystem.java:138-148 | the loop's acceptance flags and new abstract state are those of Records.SelectCourses; validity is kept; both maps are unchanged |
| Registry.RegistrationSystem.Enlist | StudentCourseRegistrationSystem.java:176-177 | the paired in-place update of the student and course objects makes the abstract state Records.Enlist of the old one; validity is kept |
| Registry.RegistrationSystem.Unenlist | StudentCourseRegistrationSystem.java:200-201 | the paired in-place update makes the abstract state Records.Unenlist of the old one; validity is kept |
| Registry.RegistrationSystem.RegisterStudent | StudentCourseRegistrationSystem.java:161-182 | outcome and new abstract state are those of Records.Register; validity is kept; both maps are unchanged |
| Registry.RegistrationSystem.DropCourse | StudentCourseRegistrationSystem.java:185-206 | outcome and new abstract state are those of Records.DropCourse; validity is kept; both maps are unchanged |
| Registry.RegistrationSystem.StudentCourses | StudentCourseRegistrationSystem.java:209-223 | the outcome and the listing equal Records.StudentCourses of the abstract state; on Ok the listing names every code the student holds |

## Left out

- The menu loop of `main` (java lines 227-290) and all console input. `addStudent` gets its selection as an argument: a sequence of codes that have already been split at commas and trimmed. `String.split` and `String.trim` themselves are not modelled.
- All printing: every message, `displayCourses` (which only prints the catalog), `Course.toString`, and the table printed by `displayStudentCourses`. Each printed message is stood for by the `Outcome` returned, and the listing of `displayStudentCourses` by a map from code to course record.
- The getters of `Course` and `Student`. The Dafny classes expose their fields directly.
- The iteration order of `HashMap` and `HashSet`. Maps and sets are unordered here, and none of the modelled operations depends on that order.
- Titles, descriptions and names are kept as opaque strings; no operation inspects them.
- Java's 32-bit `int` is modelled as an unbounded `int`. This loses nothing: `enrollStudent` increments only when `enrolled < capacity`, and `dropStudent` decrements only when `enrolled > 0`, so the counter never overflows.
- The `null` a Java map lookup returns for a missing key is modelled as a key not being in the map. `displayStudentCourses` would print `null` for a held code missing from the catalog, but `State.Inv()` rules that case out (`Properties.StudentCoursesResolve`). So the modelled listing covers only codes found in the catalog.
- The selection loop in `addStudent` (java lines 138-148) is split into the methods `RegisterSelection` and `Enlist`. Student creation (java lines 128-129) is the method `Admit`. `initializeCourses` (java lines 116-120) is a static method `InitializeCourses` that returns the catalog map instead of filling the field. The steps and their order are the same as in the Java.
