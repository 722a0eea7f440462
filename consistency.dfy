/** The cross-entity invariant of the system: a course's counter equals the
    number of students holding its code. The operations keep it only when no
    student registers for a code they already hold, because neither
    `registerStudent` nor the selection loop of `addStudent` checks that. */
module Consistency {
  import opened Outcomes
  import opened Records

  /** The ids of the students that hold `code`. */
  ghost function Holders(st: State, code: string): set<string> {
    set s | s in st.students && code in st.students[s].registeredCourses
  }

  /** Every course counts exactly its holders. */
  ghost predicate Consistent(st: State) {
    forall c :: c in st.courses ==> st.courses[c].enrolled == |Holders(st, c)|
  }

  lemma SeedConsistent()
    ensures Consistent(Seed())
  {
  }

  /** A registration adds the student to the holders of that one code. */
  lemma EnlistHolders(st: State, sid: string, code: string, c: string)
    requires sid in st.students && code in st.courses
    ensures Holders(Enlist(st, sid, code), c) == if c == code then Holders(st, c) + {sid} else Holders(st, c)
  {
  }

  /** A drop removes the student from the holders of that one code. */
  lemma UnenlistHolders(st: State, sid: string, code: string, c: string)
    requires sid in st.students && code in st.courses
    ensures Holders(Unenlist(st, sid, code), c) == if c == code then Holders(st, c) - {sid} else Holders(st, c)
  {
  }

  /** Enlisting a student for an available code they do not hold keeps
      every counter equal to its number of holders. */
  lemma EnlistKeepsConsistent(st: State, sid: string, code: string)
    requires Consistent(st)
    requires sid in st.students && code in st.courses && st.courses[code].Available()
    requires code !in st.students[sid].registeredCourses
    ensures Consistent(Enlist(st, sid, code))
  {
    var r := Enlist(st, sid, code);
    forall c | c in r.courses
      ensures r.courses[c].enrolled == |Holders(r, c)|
    {
      EnlistHolders(st, sid, code, c);
    }
  }

  /** `registerStudent` keeps the counters exact as long as the student does
      not already hold the code. */
  lemma RegisterKeepsConsistent(st: State, sid: string, code: string)
    requires Consistent(st)
    requires sid in st.students ==> code !in st.students[sid].registeredCourses
    ensures Consistent(Register(st, sid, code).state)
  {
    if Register(st, sid, code).outcome == Ok {
      EnlistKeepsConsistent(st, sid, code);
    }
  }

  /** `dropCourse` keeps the counters exact with no further condition: a
      holder exists, so the counter is positive and the decrement happens. */
  lemma DropKeepsConsistent(st: State, sid: string, code: string)
    requires Consistent(st)
    ensures Consistent(DropCourse(st, sid, code).state)
  {
    var r := DropCourse(st, sid, code);
    if r.outcome == Ok {
      assert sid in Holders(st, code);
      forall c | c in r.state.courses
        ensures r.state.courses[c].enrolled == |Holders(r.state, c)|
      {
        UnenlistHolders(st, sid, code, c);
      }
    }
  }

  /** A new student with no courses holds nothing, so no counter moves. */
  lemma AdmitKeepsConsistent(st: State, id: string, name: string)
    requires Consistent(st) && id !in st.students
    ensures Consistent(Admit(st, id, name))
  {
    var r := Admit(st, id, name);
    forall c | c in r.courses
      ensures r.courses[c].enrolled == |Holders(r, c)|
    {
      assert Holders(r, c) == Holders(st, c);
    }
  }

  /** The selection loop keeps the counters exact when no code is requested
      twice and none is held already. */
  lemma {:induction false} SelectKeepsConsistent(st: State, id: string, codes: seq<string>)
    requires Consistent(st) && id in st.students
    requires forall i, j :: 0 <= i < j < |codes| ==> codes[i] != codes[j]
    requires forall i :: 0 <= i < |codes| ==> codes[i] !in st.students[id].registeredCourses
    ensures Consistent(SelectCourses(st, id, codes).0)
    decreases |codes|
  {
    if codes != [] {
      var ok := Selectable(st, codes[0]);
      var next := if ok then Enlist(st, id, codes[0]) else st;
      if ok {
        EnlistKeepsConsistent(st, id, codes[0]);
      }
      var rest := codes[1..];
      forall i | 0 <= i < |rest|
        ensures rest[i] !in next.students[id].registeredCourses
      {
        assert rest[i] == codes[i + 1] && codes[i + 1] != codes[0];
      }
      forall i, j | 0 <= i < j < |rest|
        ensures rest[i] != rest[j]
      {
        assert rest[i] == codes[i + 1] && rest[j] == codes[j + 1];
      }
      SelectKeepsConsistent(next, id, rest);
    }
  }

  /** `addStudent` keeps the counters exact when its selection names no code
      twice; a duplicate id changes nothing at all. */
  lemma AddStudentKeepsConsistent(st: State, id: string, name: string, codes: seq<string>)
    requires Consistent(st)
    requires forall i, j :: 0 <= i < j < |codes| ==> codes[i] != codes[j]
    ensures Consistent(AddStudent(st, id, name, codes).state)
  {
    if id !in st.students {
      AdmitKeepsConsistent(st, id, name);
      SelectKeepsConsistent(Admit(st, id, name), id, codes);
    }
  }

  /** Two successful registrations of the same pair always leave the counter
      above the number of holders: the set absorbs the second code, the
      counter does not. */
  lemma DoubleRegisterOvercounts(st: State, sid: string, code: string)
    requires Consistent(st)
    requires Register(st, sid, code).outcome == Ok
    requires Register(Register(st, sid, code).state, sid, code).outcome == Ok
    ensures var twice := Register(Register(st, sid, code).state, sid, code).state;
            twice.courses[code].enrolled > |Holders(twice, code)|
  {
    var once := Register(st, sid, code).state;
    var twice := Register(once, sid, code).state;
    EnlistHolders(st, sid, code, code);
    EnlistHolders(once, sid, code, code);
    assert Holders(twice, code) == Holders(st, code) + {sid};
  }

  /** A selection naming one code twice, with two seats free, takes it
      twice. */
  lemma SelectSameTwice(st: State, id: string, code: string)
    requires id in st.students && code in st.courses
    requires st.courses[code].enrolled + 1 < st.courses[code].capacity
    ensures SelectCourses(st, id, [code, code]) == (Enlist(Enlist(st, id, code), id, code), [true, true])
  {
    var once := Enlist(st, id, code);
    assert Selectable(st, code) && Selectable(once, code);
    var one, two := [code], [code, code];
    assert two[0] == code && two[1..] == one;
    SelectCoursesStep(st, id, two);
    assert one[0] == code && one[1..] == [];
    SelectCoursesStep(once, id, one);
    var twice := Enlist(once, id, code);
    assert SelectCourses(once, id, one).0 == twice;
    assert SelectCourses(once, id, one).1 == [true] + [];
    assert SelectCourses(st, id, two).0 == twice;
    assert SelectCourses(st, id, two).1 == [true] + [true] == [true, true];
  }

  /** The same for a selection that names a code twice: the student holds it
      once, the course counted it twice. */
  lemma RepeatedSelectionOvercounts(st: State, id: string, name: string, code: string)
    requires Consistent(st) && id !in st.students
    requires code in st.courses && st.courses[code].enrolled + 1 < st.courses[code].capacity
    ensures var r := AddStudent(st, id, name, [code, code]);
            r.accepted == [true, true] &&
            r.state.students[id].registeredCourses == {code} &&
            r.state.courses[code].enrolled > |Holders(r.state, code)|
  {
    var a := Admit(st, id, name);
    assert st.courses[code].enrolled == |Holders(st, code)|;
    assert Holders(a, code) == Holders(st, code);
    SelectSameTwice(a, id, code);
    TwiceEnlistedOvercounts(a, id, code);
    assert AddStudent(st, id, name, [code, code]) ==
           AddReply(Enlist(Enlist(a, id, code), id, code), Ok, [true, true]);
  }

  /** Enlisting a student twice for one code, where the counter was exact,
      leaves it above the number of holders: the student is a holder at most
      once. */
  lemma TwiceEnlistedOvercounts(st: State, sid: string, code: string)
    requires sid in st.students && code in st.courses
    requires st.courses[code].enrolled == |Holders(st, code)|
    requires st.courses[code].enrolled + 1 < st.courses[code].capacity
    ensures var twice := Enlist(Enlist(st, sid, code), sid, code);
            twice.students[sid].registeredCourses == st.students[sid].registeredCourses + {code} &&
            twice.courses[code].enrolled > |Holders(twice, code)|
  {
    var once := Enlist(st, sid, code);
    var twice := Enlist(once, sid, code);
    assert once.courses[code].enrolled == st.courses[code].enrolled + 1;
    assert twice.courses[code].enrolled == st.courses[code].enrolled + 2;
    EnlistHolders(st, sid, code, code);
    EnlistHolders(once, sid, code, code);
    assert Holders(twice, code) == Holders(st, code) + {sid};
    assert |Holders(st, code) + {sid}| <= |Holders(st, code)| + 1;
  }
}
