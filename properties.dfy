/** Properties of the registration operations of module Records that relate
    several calls or follow a whole selection. */
module Properties {
  import opened Outcomes
  import opened Records

  /** Registering a code twice is the same as registering it once, on the
      student's side. */
  lemma StudentRegisterIdempotent(s: StudentRec, code: string)
    ensures s.Register(code).Register(code) == s.Register(code)
  {
  }

  /** Dropping a code twice is the same as dropping it once. */
  lemma StudentDropIdempotent(s: StudentRec, code: string)
    ensures s.Drop(code).Drop(code) == s.Drop(code)
  {
  }

  /** A successful registration of a code the student did not hold, then a
      drop of the same pair, gives back exactly the state before. (The
      invariant supplies a non-negative counter, so the drop's guard passes.) */
  lemma RegisterThenDrop(st: State, sid: string, code: string)
    requires st.Inv()
    requires Register(st, sid, code).outcome == Ok
    requires code !in st.students[sid].registeredCourses
    ensures DropCourse(Register(st, sid, code).state, sid, code) == Reply(st, Ok)
  {
  }

  /** Registering for a code the student already holds still succeeds when a
      seat is free, leaves every student as before and still takes a seat. */
  lemma RegisterHeldCodeCountsAgain(st: State, sid: string, code: string)
    requires sid in st.students && code in st.courses && st.courses[code].Available()
    requires code in st.students[sid].registeredCourses
    ensures Register(st, sid, code).outcome == Ok
    ensures Register(st, sid, code).state.students == st.students
    ensures Register(st, sid, code).state.courses[code].enrolled == st.courses[code].enrolled + 1
  {
    var r := Register(st, sid, code);
    assert r.state.students[sid] == st.students[sid];
    assert r.state.students == st.students;
  }

  /** Under the invariant every code a student holds resolves: the lookup of
      `displayStudentCourses` finds a course record for each of them. */
  lemma StudentCoursesResolve(st: State, sid: string)
    requires st.Inv() && sid in st.students
    ensures StudentCourses(st, sid).0 == Ok
    ensures StudentCourses(st, sid).1.Keys == st.students[sid].registeredCourses
  {
  }

  /** The number of positions at which `code` was requested and accepted. */
  function Hits(codes: seq<string>, accepted: seq<bool>, code: string): (n: nat)
    requires |codes| == |accepted|
    ensures n <= |codes|
    ensures n > 0 ==> code in codes
  {
    if codes == [] then 0
    else (if codes[0] == code && accepted[0] then 1 else 0) + Hits(codes[1..], accepted[1..], code)
  }

  /** The codes accepted by a selection. */
  function AcceptedCodes(codes: seq<string>, accepted: seq<bool>): (r: set<string>)
    requires |codes| == |accepted|
    ensures forall c :: c in r ==> c in codes
    ensures forall i :: 0 <= i < |codes| && accepted[i] ==> codes[i] in r
  {
    if codes == [] then {}
    else (if accepted[0] then {codes[0]} else {}) + AcceptedCodes(codes[1..], accepted[1..])
  }

  /** The selection loop touches only the selecting student among students. */
  lemma {:induction false} SelectCoursesOthersUnchanged(st: State, id: string, codes: seq<string>, s: string)
    requires id in st.students && s in st.students && s != id
    ensures SelectCourses(st, id, codes).0.students[s] == st.students[s]
    decreases |codes|
  {
    if codes != [] {
      var next := if Selectable(st, codes[0]) then Enlist(st, id, codes[0]) else st;
      SelectCoursesOthersUnchanged(next, id, codes[1..], s);
    }
  }

  /** After the selection loop the student holds what they held before plus
      exactly the accepted codes, and keeps their id and name. */
  lemma {:induction false} SelectCoursesRegistered(st: State, id: string, codes: seq<string>)
    requires id in st.students
    ensures var r := SelectCourses(st, id, codes);
            r.0.students[id] ==
              st.students[id].(registeredCourses := st.students[id].registeredCourses + AcceptedCodes(codes, r.1))
    decreases |codes|
  {
    if codes != [] {
      var ok := Selectable(st, codes[0]);
      var next := if ok then Enlist(st, id, codes[0]) else st;
      SelectCoursesRegistered(next, id, codes[1..]);
      var rest := SelectCourses(next, id, codes[1..]);
      assert SelectCourses(st, id, codes).1 == [ok] + rest.1;
      assert ([ok] + rest.1)[1..] == rest.1;
    }
  }

  /** After the selection loop each course has taken one seat per accepted
      request for it, and nothing else about the course changed. */
  lemma {:induction false} SelectCoursesCounts(st: State, id: string, codes: seq<string>, c: string)
    requires id in st.students && c in st.courses
    ensures var r := SelectCourses(st, id, codes);
            r.0.courses[c] == st.courses[c].(enrolled := st.courses[c].enrolled + Hits(codes, r.1, c))
    decreases |codes|
  {
    if codes != [] {
      var ok := Selectable(st, codes[0]);
      var next := if ok then Enlist(st, id, codes[0]) else st;
      SelectCoursesCounts(next, id, codes[1..], c);
      var rest := SelectCourses(next, id, codes[1..]);
      assert SelectCourses(st, id, codes).1 == [ok] + rest.1;
      assert ([ok] + rest.1)[1..] == rest.1;
    }
  }

  /** Counting hits in a non-empty prefix: the first position, then the
      rest of the prefix. */
  lemma HitsPrefix(codes: seq<string>, accepted: seq<bool>, i: int, code: string)
    requires |codes| == |accepted| && 0 < i <= |codes|
    ensures Hits(codes[..i], accepted[..i], code) ==
            (if codes[0] == code && accepted[0] then 1 else 0) + Hits(codes[1..][..i - 1], accepted[1..][..i - 1], code)
  {
    assert codes[..i][0] == codes[0] && accepted[..i][0] == accepted[0];
    assert codes[..i][1..] == codes[1..][..i - 1];
    assert accepted[..i][1..] == accepted[1..][..i - 1];
  }

  /** The acceptance rule of the selection loop: the request at position `i`
      is accepted exactly when its course exists and, after the seats taken
      by the accepted earlier requests for it, still has a free one. */
  lemma {:induction false} SelectCoursesAccepts(st: State, id: string, codes: seq<string>, i: int)
    requires id in st.students && 0 <= i < |codes|
    ensures var r := SelectCourses(st, id, codes);
            r.1[i] <==> codes[i] in st.courses &&
                        st.courses[codes[i]].enrolled + Hits(codes[..i], r.1[..i], codes[i]) < st.courses[codes[i]].capacity
    decreases |codes|
  {
    var ok := Selectable(st, codes[0]);
    var next := if ok then Enlist(st, id, codes[0]) else st;
    var rest := SelectCourses(next, id, codes[1..]);
    SelectCoursesStep(st, id, codes);
    var flags := SelectCourses(st, id, codes).1;
    assert flags == [ok] + rest.1;
    if i > 0 {
      SelectCoursesAccepts(next, id, codes[1..], i - 1);
      var c := codes[i];
      assert codes[1..][i - 1] == c && flags[i] == rest.1[i - 1] && flags[0] == ok;
      assert flags[1..] == rest.1;
      HitsPrefix(codes, flags, i, c);
      if c in st.courses {
        assert next.courses[c].capacity == st.courses[c].capacity;
        assert next.courses[c].enrolled == st.courses[c].enrolled + (if codes[0] == c && ok then 1 else 0);
      }
    }
  }

  /** A new student ends up holding exactly the accepted codes, every other
      student is unchanged, and each course took one seat per accepted
      request for it. */
  lemma AddStudentEffect(st: State, id: string, name: string, codes: seq<string>)
    requires id !in st.students
    ensures var r := AddStudent(st, id, name, codes);
            r.outcome == Ok &&
            r.state.students[id] == StudentRec(id, name, AcceptedCodes(codes, r.accepted)) &&
            (forall s :: s in st.students ==> r.state.students[s] == st.students[s]) &&
            (forall c :: c in st.courses ==>
                r.state.courses[c] == st.courses[c].(enrolled := st.courses[c].enrolled + Hits(codes, r.accepted, c)))
  {
    var a := Admit(st, id, name);
    SelectCoursesRegistered(a, id, codes);
    forall s | s in st.students
      ensures AddStudent(st, id, name, codes).state.students[s] == st.students[s]
    {
      SelectCoursesOthersUnchanged(a, id, codes, s);
    }
    forall c | c in st.courses
      ensures AddStudent(st, id, name, codes).state.courses[c] ==
              st.courses[c].(enrolled := st.courses[c].enrolled + Hits(codes, AddStudent(st, id, name, codes).accepted, c))
    {
      SelectCoursesCounts(a, id, codes, c);
    }
  }
  /** The acceptance rule of `addStudent` for a fresh id: the request at
      position `i` is accepted exactly when its course exists and still has a
      free seat after those the accepted earlier requests took. */
  lemma AddStudentAccepts(st: State, id: string, name: string, codes: seq<string>, i: int)
    requires id !in st.students && 0 <= i < |codes|
    ensures var r := AddStudent(st, id, name, codes);
            r.accepted[i] <==> codes[i] in st.courses &&
                               st.courses[codes[i]].enrolled + Hits(codes[..i], r.accepted[..i], codes[i]) < st.courses[codes[i]].capacity
  {
    SelectCoursesAccepts(Admit(st, id, name), id, codes, i);
  }

}
