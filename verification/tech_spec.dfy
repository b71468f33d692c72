/**
  Value-level specification of the TechSystem record manager
  (TechSystem26a1.h / TechSystem26a1.cpp).

  A `State` is what the object stores, read through its trees: the student
  records by id, the course records by id (each with the set of ids of the
  students enrolled in it) and the global bonus. Every public operation is a
  function from the old state to the new state and the status it returns;
  the heap-level class in module Tech is proved equal to these functions, and
  the properties of the system are proved here once.
*/
module TechSpec {

  /** The status codes the operations return. */
  datatype StatusType = SUCCESS | ALLOCATION_ERROR | INVALID_INPUT | FAILURE

  /** `output_t<T>`: either a failure status or an answer (whose status is SUCCESS). */
  datatype Output<T> = Error(status: StatusType) | Answer(ans: T)

  /** A `StudentData` record, without its id (the key it is stored under). */
  datatype Student = Student(baseCredits: int, numRegisteredCourses: int)

  /** A `CourseData` record: its points, its counter and the keys of `studentsInCourse`. */
  datatype Course = Course(points: int, numStudentsInCourse: int, enrolled: set<int>)

  datatype State = State(students: map<int, Student>, courses: map<int, Course>, globalBonus: int)

  /** The state of a newly constructed system. */
  function Init(): State {
    State(map[], map[], 0)
  }

  /** The ids of the courses a student is enrolled in. */
  function CoursesOf(st: State, studentId: int): set<int> {
    set courseId | courseId in st.courses && studentId in st.courses[courseId].enrolled
  }

  /**
    The invariant of the system: ids are positive, course points are
    positive, every enrolled id is a registered student, and both counters
    agree with the enrollment relation.
  */
  predicate Consistent(st: State) {
    && (forall studentId | studentId in st.students ::
          studentId > 0 && st.students[studentId].numRegisteredCourses == |CoursesOf(st, studentId)|)
    && (forall courseId | courseId in st.courses ::
          && courseId > 0
          && st.courses[courseId].points > 0
          && st.courses[courseId].numStudentsInCourse == |st.courses[courseId].enrolled|
          && st.courses[courseId].enrolled <= st.students.Keys)
  }

  /** The points `getStudentPoints` reports for a registered student. */
  function Points(st: State, studentId: int): int
    requires studentId in st.students
  {
    st.students[studentId].baseCredits + st.globalBonus
  }

  // ---------------------------------------------------------------------------
  // The operations

  // The state after each operation succeeds

  function WithStudent(st: State, studentId: int): State {
    st.(students := st.students[studentId := Student(-st.globalBonus, 0)])
  }

  function WithoutStudent(st: State, studentId: int): State {
    st.(students := st.students - {studentId})
  }

  function WithCourse(st: State, courseId: int, points: int): State {
    st.(courses := st.courses[courseId := Course(points, 0, {})])
  }

  function WithoutCourse(st: State, courseId: int): State {
    st.(courses := st.courses - {courseId})
  }

  function Enrolled(st: State, studentId: int, courseId: int): State
    requires studentId in st.students && courseId in st.courses
  {
    var s := st.students[studentId];
    var c := st.courses[courseId];
    st.(students := st.students[studentId := s.(numRegisteredCourses := s.numRegisteredCourses + 1)],
        courses := st.courses[courseId := c.(numStudentsInCourse := c.numStudentsInCourse + 1,
                                             enrolled := c.enrolled + {studentId})])
  }

  /** Completing a course moves its points into the student's base credits. */
  function Completed(st: State, studentId: int, courseId: int): State
    requires studentId in st.students && courseId in st.courses
  {
    var s := st.students[studentId];
    var c := st.courses[courseId];
    st.(students := st.students[studentId := Student(s.baseCredits + c.points, s.numRegisteredCourses - 1)],
        courses := st.courses[courseId := c.(numStudentsInCourse := c.numStudentsInCourse - 1,
                                             enrolled := c.enrolled - {studentId})])
  }

  // The operations: the checks in the order the source makes them

  function AddStudent(st: State, studentId: int): (r: (State, StatusType))
    ensures r.1 == SUCCESS <==> studentId > 0 && studentId !in st.students
    ensures r.1 == INVALID_INPUT <==> studentId <= 0
    ensures r.1 == FAILURE <==> studentId > 0 && studentId in st.students
    ensures r.1 != SUCCESS ==> r.0 == st
  {
    if studentId <= 0 then (st, INVALID_INPUT)
    else if studentId in st.students then (st, FAILURE)
    else (WithStudent(st, studentId), SUCCESS)
  }

  function RemoveStudent(st: State, studentId: int): (r: (State, StatusType))
    ensures r.1 == SUCCESS <==> studentId > 0 && studentId in st.students && st.students[studentId].numRegisteredCourses <= 0
    ensures r.1 == INVALID_INPUT <==> studentId <= 0
    ensures r.1 == FAILURE <==>
              studentId > 0 && (studentId !in st.students || st.students[studentId].numRegisteredCourses > 0)
    ensures r.1 != SUCCESS ==> r.0 == st
  {
    if studentId <= 0 then (st, INVALID_INPUT)
    else if studentId !in st.students then (st, FAILURE)
    else if st.students[studentId].numRegisteredCourses > 0 then (st, FAILURE)
    else (WithoutStudent(st, studentId), SUCCESS)
  }

  function AddCourse(st: State, courseId: int, points: int): (r: (State, StatusType))
    ensures r.1 == SUCCESS <==> courseId > 0 && points > 0 && courseId !in st.courses
    ensures r.1 == INVALID_INPUT <==> courseId <= 0 || points <= 0
    ensures r.1 == FAILURE <==> courseId > 0 && points > 0 && courseId in st.courses
    ensures r.1 != SUCCESS ==> r.0 == st
  {
    if courseId <= 0 || points <= 0 then (st, INVALID_INPUT)
    else if courseId in st.courses then (st, FAILURE)
    else (WithCourse(st, courseId, points), SUCCESS)
  }

  function RemoveCourse(st: State, courseId: int): (r: (State, StatusType))
    ensures r.1 == SUCCESS <==> courseId > 0 && courseId in st.courses && st.courses[courseId].numStudentsInCourse <= 0
    ensures r.1 == INVALID_INPUT <==> courseId <= 0
    ensures r.1 == FAILURE <==>
              courseId > 0 && (courseId !in st.courses || st.courses[courseId].numStudentsInCourse > 0)
    ensures r.1 != SUCCESS ==> r.0 == st
  {
    if courseId <= 0 then (st, INVALID_INPUT)
    else if courseId !in st.courses then (st, FAILURE)
    else if st.courses[courseId].numStudentsInCourse > 0 then (st, FAILURE)
    else (WithoutCourse(st, courseId), SUCCESS)
  }

  function EnrollStudent(st: State, studentId: int, courseId: int): (r: (State, StatusType))
    ensures r.1 == SUCCESS <==>
              && studentId > 0 && courseId > 0 && studentId in st.students && courseId in st.courses
              && studentId !in st.courses[courseId].enrolled
    ensures r.1 == INVALID_INPUT <==> studentId <= 0 || courseId <= 0
    ensures r.1 == FAILURE <==>
              && studentId > 0 && courseId > 0
              && (studentId !in st.students || courseId !in st.courses || studentId in st.courses[courseId].enrolled)
    ensures r.1 != SUCCESS ==> r.0 == st
  {
    if studentId <= 0 || courseId <= 0 then (st, INVALID_INPUT)
    else if studentId !in st.students || courseId !in st.courses then (st, FAILURE)
    else if studentId in st.courses[courseId].enrolled then (st, FAILURE)
    else (Enrolled(st, studentId, courseId), SUCCESS)
  }

  /** The student is reached through the course's enrollment, which the invariant links to `students`. */
  function CompleteCourse(st: State, studentId: int, courseId: int): (r: (State, StatusType))
    requires Consistent(st)
    ensures r.1 == SUCCESS <==>
              studentId > 0 && courseId > 0 && courseId in st.courses && studentId in st.courses[courseId].enrolled
    ensures r.1 == INVALID_INPUT <==> studentId <= 0 || courseId <= 0
    ensures r.1 == FAILURE <==>
              studentId > 0 && courseId > 0 && (courseId !in st.courses || studentId !in st.courses[courseId].enrolled)
    ensures r.1 != SUCCESS ==> r.0 == st
  {
    if studentId <= 0 || courseId <= 0 then (st, INVALID_INPUT)
    else if courseId !in st.courses then (st, FAILURE)
    else if studentId !in st.courses[courseId].enrolled then (st, FAILURE)
    else (Completed(st, studentId, courseId), SUCCESS)
  }

  function AwardAcademicPoints(st: State, points: int): (r: (State, StatusType))
    ensures r.1 == SUCCESS <==> points > 0
    ensures r.1 != SUCCESS ==> r.0 == st && r.1 == INVALID_INPUT
  {
    if points <= 0 then (st, INVALID_INPUT)
    else (st.(globalBonus := st.globalBonus + points), SUCCESS)
  }

  function GetStudentPoints(st: State, studentId: int): (r: Output<int>)
    ensures r.Answer? <==> studentId > 0 && studentId in st.students
    ensures r.Error? ==> (r.status == INVALID_INPUT <==> studentId <= 0) && (r.status == FAILURE <==> studentId > 0)
  {
    if studentId <= 0 then Error(INVALID_INPUT)
    else if studentId !in st.students then Error(FAILURE)
    else Answer(Points(st, studentId))
  }

  // ---------------------------------------------------------------------------
  // The invariant is kept by every operation

  lemma InitConsistent()
    ensures Consistent(Init())
    ensures forall studentId :: GetStudentPoints(Init(), studentId).Error?
  {
  }

  /** A student with no registered courses is enrolled in no course. */
  lemma UnregisteredNotEnrolled(st: State, studentId: int)
    requires Consistent(st) && studentId in st.students
    ensures st.students[studentId].numRegisteredCourses == 0 <==>
            forall courseId | courseId in st.courses :: studentId !in st.courses[courseId].enrolled
  {
    forall courseId | courseId in st.courses && studentId in st.courses[courseId].enrolled
      ensures st.students[studentId].numRegisteredCourses > 0
    {
      assert courseId in CoursesOf(st, studentId);
    }
    if forall courseId | courseId in st.courses :: studentId !in st.courses[courseId].enrolled {
      assert CoursesOf(st, studentId) == {};
    }
  }

  lemma AddStudentConsistent(st: State, studentId: int)
    requires Consistent(st)
    ensures Consistent(AddStudent(st, studentId).0)
  {
    var st' := AddStudent(st, studentId).0;
    if st' != st {
      assert CoursesOf(st', studentId) == {} by {
        forall courseId | courseId in st'.courses
          ensures studentId !in st'.courses[courseId].enrolled
        {
          assert st'.courses[courseId].enrolled <= st.students.Keys;
        }
      }
      forall other | other in st'.students
        ensures st'.students[other].numRegisteredCourses == |CoursesOf(st', other)|
      {
        if other != studentId {
          assert CoursesOf(st', other) == CoursesOf(st, other);
        }
      }
    }
  }

  lemma RemoveStudentConsistent(st: State, studentId: int)
    requires Consistent(st)
    ensures Consistent(RemoveStudent(st, studentId).0)
  {
    var st' := RemoveStudent(st, studentId).0;
    if st' != st {
      UnregisteredNotEnrolled(st, studentId);
      forall courseId | courseId in st'.courses
        ensures st'.courses[courseId].enrolled <= st'.students.Keys
      {
        assert studentId !in st.courses[courseId].enrolled;
      }
      forall other | other in st'.students
        ensures st'.students[other].numRegisteredCourses == |CoursesOf(st', other)|
      {
        assert CoursesOf(st', other) == CoursesOf(st, other);
      }
    }
  }

  lemma AddCourseConsistent(st: State, courseId: int, points: int)
    requires Consistent(st)
    ensures Consistent(AddCourse(st, courseId, points).0)
  {
    var st' := AddCourse(st, courseId, points).0;
    if st' != st {
      forall studentId | studentId in st'.students
        ensures st'.students[studentId].numRegisteredCourses == |CoursesOf(st', studentId)|
      {
        assert CoursesOf(st', studentId) == CoursesOf(st, studentId);
      }
    }
  }

  lemma RemoveCourseConsistent(st: State, courseId: int)
    requires Consistent(st)
    ensures Consistent(RemoveCourse(st, courseId).0)
  {
    var st' := RemoveCourse(st, courseId).0;
    if st' != st {
      assert st.courses[courseId].enrolled == {};
      forall studentId | studentId in st'.students
        ensures st'.students[studentId].numRegisteredCourses == |CoursesOf(st', studentId)|
      {
        assert CoursesOf(st', studentId) == CoursesOf(st, studentId);
      }
    }
  }

  lemma EnrollStudentConsistent(st: State, studentId: int, courseId: int)
    requires Consistent(st)
    ensures Consistent(EnrollStudent(st, studentId, courseId).0)
  {
    if EnrollStudent(st, studentId, courseId).1 == SUCCESS {
      EnrolledConsistent(st, studentId, courseId);
    }
  }

  lemma EnrolledConsistent(st: State, studentId: int, courseId: int)
    requires Consistent(st) && studentId in st.students && courseId in st.courses
    requires studentId !in st.courses[courseId].enrolled
    ensures Consistent(Enrolled(st, studentId, courseId))
  {
    var st' := Enrolled(st, studentId, courseId);
    forall other | other in st'.students
      ensures st'.students[other].numRegisteredCourses == |CoursesOf(st', other)|
    {
      EnrolledCourses(st, studentId, courseId, other);
    }
  }

  /** Enrolling adds the course to the student's courses and to no one else's. */
  lemma EnrolledCourses(st: State, studentId: int, courseId: int, other: int)
    requires studentId in st.students && courseId in st.courses
    ensures CoursesOf(Enrolled(st, studentId, courseId), other) ==
            if other == studentId then CoursesOf(st, other) + {courseId} else CoursesOf(st, other)
  {
  }

  lemma CompleteCourseConsistent(st: State, studentId: int, courseId: int)
    requires Consistent(st)
    ensures Consistent(CompleteCourse(st, studentId, courseId).0)
  {
    if CompleteCourse(st, studentId, courseId).1 == SUCCESS {
      CompletedConsistent(st, studentId, courseId);
    }
  }

  lemma CompletedConsistent(st: State, studentId: int, courseId: int)
    requires Consistent(st) && studentId in st.students && courseId in st.courses
    requires studentId in st.courses[courseId].enrolled
    ensures Consistent(Completed(st, studentId, courseId))
  {
    var st' := Completed(st, studentId, courseId);
    forall other | other in st'.students
      ensures st'.students[other].numRegisteredCourses == |CoursesOf(st', other)|
    {
      CompletedCourses(st, studentId, courseId, other);
    }
  }

  /** Completing removes the course from the student's courses and from no one else's. */
  lemma CompletedCourses(st: State, studentId: int, courseId: int, other: int)
    requires studentId in st.students && courseId in st.courses
    ensures CoursesOf(Completed(st, studentId, courseId), other) ==
            if other == studentId then CoursesOf(st, other) - {courseId} else CoursesOf(st, other)
  {
  }

  lemma AwardAcademicPointsConsistent(st: State, points: int)
    requires Consistent(st)
    ensures Consistent(AwardAcademicPoints(st, points).0)
  {
  }

  // ---------------------------------------------------------------------------
  // What the operations promise

  /** A new student has zero points: bonus awarded before they joined is not theirs. */
  lemma NewStudentHasNoPoints(st: State, studentId: int)
    requires AddStudent(st, studentId).1 == SUCCESS
    ensures GetStudentPoints(AddStudent(st, studentId).0, studentId) == Answer(0)
    ensures forall other | other in st.students ::
              GetStudentPoints(AddStudent(st, studentId).0, other) == GetStudentPoints(st, other)
  {
  }

  /** An award reaches every registered student, and changes no record. */
  lemma AwardReachesEveryone(st: State, points: int)
    requires Consistent(st) && points > 0
    ensures var st' := AwardAcademicPoints(st, points).0;
            && st'.students == st.students && st'.courses == st.courses
            && forall studentId | studentId in st.students ::
                 GetStudentPoints(st', studentId) == Answer(Points(st, studentId) + points)
  {
  }

  /** A student who joins after an award and one who joins before it differ by exactly the award. */
  lemma AwardBeforeOrAfterJoining(st: State, studentId: int, points: int)
    requires AddStudent(st, studentId).1 == SUCCESS && points > 0
    ensures var before := AwardAcademicPoints(AddStudent(st, studentId).0, points).0;
            var after := AddStudent(AwardAcademicPoints(st, points).0, studentId).0;
            GetStudentPoints(before, studentId) == Answer(points) &&
            GetStudentPoints(after, studentId) == Answer(0)
  {
  }

  /** Removing a student just added restores the state. */
  lemma AddThenRemoveStudent(st: State, studentId: int)
    requires AddStudent(st, studentId).1 == SUCCESS
    ensures RemoveStudent(AddStudent(st, studentId).0, studentId) == (st, SUCCESS)
  {
    assert st.students[studentId := Student(-st.globalBonus, 0)] - {studentId} == st.students;
  }

  /** Removing a course just added restores the state. */
  lemma AddThenRemoveCourse(st: State, courseId: int, points: int)
    requires AddCourse(st, courseId, points).1 == SUCCESS
    ensures RemoveCourse(AddCourse(st, courseId, points).0, courseId) == (st, SUCCESS)
  {
    assert st.courses[courseId := Course(points, 0, {})] - {courseId} == st.courses;
  }

  /** A student enrolled in some course cannot be removed. */
  lemma EnrolledStudentStays(st: State, studentId: int, courseId: int)
    requires Consistent(st) && courseId in st.courses && studentId in st.courses[courseId].enrolled
    ensures RemoveStudent(st, studentId) == (st, FAILURE)
  {
    assert courseId in CoursesOf(st, studentId);
  }

  /** A course with a student enrolled cannot be removed. */
  lemma OccupiedCourseStays(st: State, courseId: int, studentId: int)
    requires Consistent(st) && courseId in st.courses && studentId in st.courses[courseId].enrolled
    ensures RemoveCourse(st, courseId) == (st, FAILURE)
  {
  }

  /**
    Completing a course credits the student with its points, takes the
    student out of the course, and leaves every other student's points alone.
  */
  lemma CompleteCourseCredits(st: State, studentId: int, courseId: int)
    requires Consistent(st) && CompleteCourse(st, studentId, courseId).1 == SUCCESS
    ensures var st' := CompleteCourse(st, studentId, courseId).0;
            && st'.students.Keys == st.students.Keys
            && GetStudentPoints(st', studentId) == Answer(Points(st, studentId) + st.courses[courseId].points)
            && st'.students[studentId].numRegisteredCourses == st.students[studentId].numRegisteredCourses - 1
            && studentId !in st'.courses[courseId].enrolled
            && forall other | other in st.students && other != studentId ::
                 GetStudentPoints(st', other) == GetStudentPoints(st, other)
  {
  }

  /** Enrolling counts the enrollment on both records and changes nobody's points. */
  lemma EnrollKeepsPoints(st: State, studentId: int, courseId: int)
    requires EnrollStudent(st, studentId, courseId).1 == SUCCESS
    ensures var st' := EnrollStudent(st, studentId, courseId).0;
            && st'.students.Keys == st.students.Keys && st'.courses.Keys == st.courses.Keys
            && st'.students[studentId].numRegisteredCourses == st.students[studentId].numRegisteredCourses + 1
            && st'.courses[courseId].numStudentsInCourse == st.courses[courseId].numStudentsInCourse + 1
            && studentId in st'.courses[courseId].enrolled
            && forall other | other in st.students :: GetStudentPoints(st', other) == GetStudentPoints(st, other)
  {
  }

  /**
    Enrolling and then completing the same course succeeds, and the net
    effect is the course's points added to the student's base credits.
  */
  lemma EnrollThenComplete(st: State, studentId: int, courseId: int)
    requires Consistent(st) && EnrollStudent(st, studentId, courseId).1 == SUCCESS
    ensures var st1 := EnrollStudent(st, studentId, courseId).0;
            var s := st.students[studentId];
            && Consistent(st1)
            && CompleteCourse(st1, studentId, courseId) ==
                 (st.(students := st.students[studentId := s.(baseCredits := s.baseCredits + st.courses[courseId].points)]),
                  SUCCESS)
  {
    EnrollStudentConsistent(st, studentId, courseId);
    var st1 := EnrollStudent(st, studentId, courseId).0;
    var s := st.students[studentId];
    var c := st.courses[courseId];
    var st2 := CompleteCourse(st1, studentId, courseId).0;
    assert c.enrolled + {studentId} - {studentId} == c.enrolled;
    assert st2.courses == st.courses;
    assert st2.students == st.students[studentId := s.(baseCredits := s.baseCredits + c.points)];
  }

  /** No operation lowers the points of a student it keeps. */
  lemma PointsNeverDecrease(st: State, studentId: int, courseId: int, points: int, id: int)
    requires Consistent(st) && id in st.students
    ensures var st' := AddStudent(st, studentId).0; id in st'.students && Points(st', id) >= Points(st, id)
    ensures var st' := RemoveStudent(st, studentId).0; id in st'.students ==> Points(st', id) >= Points(st, id)
    ensures var st' := AddCourse(st, courseId, points).0; id in st'.students && Points(st', id) >= Points(st, id)
    ensures var st' := RemoveCourse(st, courseId).0; id in st'.students && Points(st', id) >= Points(st, id)
    ensures var st' := EnrollStudent(st, studentId, courseId).0; id in st'.students && Points(st', id) >= Points(st, id)
    ensures var st' := CompleteCourse(st, studentId, courseId).0; id in st'.students && Points(st', id) >= Points(st, id)
    ensures var st' := AwardAcademicPoints(st, points).0; id in st'.students && Points(st', id) >= Points(st, id)
  {
  }
}
