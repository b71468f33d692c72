/**
  The TechSystem record manager of TechSystem26a1.h / TechSystem26a1.cpp, on
  the heap.

  Students and courses are records (classes) stored by id. Each course keeps
  its own table of the students enrolled in it, and that table holds the SAME
  `StudentData` objects as the `students` table, so a counter updated through
  one path is seen through the other. The three tables are the key-to-value
  maps that `AVL.AVLTree.Contents()` abstracts an AVL tree to; `find`,
  `insert` and `remove` on them are the map lookups and updates the tree's
  `Find`, `Insert` and `Remove` are proved to perform.

  `model` reads the object graph as a `TechSpec.State`, and every operation
  is proved to move the model exactly as the corresponding `TechSpec`
  function does.
*/
module Tech {
  import opened TechSpec

  /** `StudentData`: a student's id, counter of courses and base credits. */
  class StudentData {
    const studentId: int
    var numRegisteredCourses: int
    var baseCredits: int

    constructor (studentId: int, baseCredits: int)
      ensures this.studentId == studentId && this.baseCredits == baseCredits
      ensures numRegisteredCourses == 0
    {
      this.studentId := studentId;
      this.baseCredits := baseCredits;
      numRegisteredCourses := 0;
    }
  }

  /** `CourseData`: a course's id, points, counter and table of enrolled students. */
  class CourseData {
    const courseId: int
    const points: int
    var numStudentsInCourse: int
    /** key = studentId */
    var studentsInCourse: map<int, StudentData>

    constructor (courseId: int, points: int)
      ensures this.courseId == courseId && this.points == points
      ensures numStudentsInCourse == 0 && studentsInCourse == map[]
    {
      this.courseId := courseId;
      this.points := points;
      numStudentsInCourse := 0;
      studentsInCourse := map[];
    }
  }

  /** Every entry of `sub` is an entry of `table`. */
  ghost predicate SubTable(sub: map<int, StudentData>, table: map<int, StudentData>) {
    forall id | id in sub :: id in table && sub[id] == table[id]
  }

  class TechSystem {
    /** key = courseId */
    var courses: map<int, CourseData>
    /** key = studentId */
    var students: map<int, StudentData>
    var globalBonus: int

    /** The student and course records. */
    ghost var Records: set<object>

    ghost function Repr(): set<object>
      reads this
    {
      {this} + Records
    }

    /** Records are stored under their own ids. */
    ghost predicate Linked()
      reads this
    {
      && this !in Records
      && (forall id | id in students :: students[id] in Records && students[id].studentId == id)
      && (forall id | id in courses :: courses[id] in Records && courses[id].courseId == id)
    }

    /** Every enrolled student is the very record the `students` table holds. */
    ghost predicate Shared()
      reads this, Records
      requires Linked()
    {
      forall courseId | courseId in courses :: SubTable(courses[courseId].studentsInCourse, students)
    }

    /** The state this object stores. */
    ghost var model: State

    /** `model` is what the tables and the records hold. */
    ghost predicate Represents()
      reads this, Records
      requires Linked()
    {
      && model.globalBonus == globalBonus
      && model.students.Keys == students.Keys
      && (forall id | id in students ::
            model.students[id] == Student(students[id].baseCredits, students[id].numRegisteredCourses))
      && model.courses.Keys == courses.Keys
      && (forall id | id in courses ::
            model.courses[id] == Course(courses[id].points, courses[id].numStudentsInCourse, courses[id].studentsInCourse.Keys))
    }

    /** The object graph and `model` agree. */
    ghost predicate Heap()
      reads this, Records
    {
      Linked() && Shared() && Represents()
    }

    ghost predicate Valid()
      reads this, Records
    {
      Heap() && Consistent(model)
    }

    /** `TechSystem()`: no students, no courses, no bonus. */
    constructor ()
      ensures Valid() && fresh(Repr())
      ensures model == Init()
    {
      courses := map[];
      students := map[];
      globalBonus := 0;
      Records := {};
      model := Init();
    }

    method AddStudent(studentId: int) returns (status: StatusType)
      requires Valid()
      modifies Repr()
      ensures Valid() && fresh(Repr() - old(Repr()))
      ensures (model, status) == TechSpec.AddStudent(old(model), studentId)
    {
      if studentId <= 0 {
        return INVALID_INPUT;
      }
      if studentId in students {
        return FAILURE;
      }
      AddStudentConsistent(model, studentId);
      InsertStudent(studentId);
      return SUCCESS;
    }

    /** Stores a new record for `studentId`, with base credits that cancel the bonus given so far. */
    method InsertStudent(studentId: int)
      requires Heap() && studentId !in students
      modifies this
      ensures Heap() && fresh(Repr() - old(Repr()))
      ensures model == WithStudent(old(model), studentId)
    {
      var student := new StudentData(studentId, -globalBonus);
      students := students[studentId := student];
      Records := Records + {student};
      model := WithStudent(model, studentId);
    }

    method RemoveStudent(studentId: int) returns (status: StatusType)
      requires Valid()
      modifies Repr()
      ensures Valid() && Repr() == old(Repr())
      ensures (model, status) == TechSpec.RemoveStudent(old(model), studentId)
    {
      if studentId <= 0 {
        return INVALID_INPUT;
      }
      if studentId !in students {
        return FAILURE;
      }
      var student := students[studentId];
      if student.numRegisteredCourses > 0 {
        return FAILURE;
      }
      RemoveStudentConsistent(model, studentId);
      UnregisteredNotEnrolled(model, studentId);
      DeleteStudent(studentId);
      return SUCCESS;
    }

    /** Drops the record of a student no course holds. */
    method DeleteStudent(studentId: int)
      requires Heap()
      requires forall courseId | courseId in courses :: studentId !in courses[courseId].studentsInCourse
      modifies this
      ensures Heap() && Repr() == old(Repr())
      ensures model == WithoutStudent(old(model), studentId)
    {
      students := students - {studentId};
      model := WithoutStudent(model, studentId);
    }

    method AddCourse(courseId: int, points: int) returns (status: StatusType)
      requires Valid()
      modifies Repr()
      ensures Valid() && fresh(Repr() - old(Repr()))
      ensures (model, status) == TechSpec.AddCourse(old(model), courseId, points)
    {
      if courseId <= 0 || points <= 0 {
        return INVALID_INPUT;
      }
      if courseId in courses {
        return FAILURE;
      }
      AddCourseConsistent(model, courseId, points);
      InsertCourse(courseId, points);
      return SUCCESS;
    }

    /** Stores a new record for `courseId`, with no students. */
    method InsertCourse(courseId: int, points: int)
      requires Heap() && courseId !in courses
      modifies this
      ensures Heap() && fresh(Repr() - old(Repr()))
      ensures model == WithCourse(old(model), courseId, points)
    {
      var course := new CourseData(courseId, points);
      courses := courses[courseId := course];
      Records := Records + {course};
      model := WithCourse(model, courseId, points);
    }

    method RemoveCourse(courseId: int) returns (status: StatusType)
      requires Valid()
      modifies Repr()
      ensures Valid() && Repr() == old(Repr())
      ensures (model, status) == TechSpec.RemoveCourse(old(model), courseId)
    {
      if courseId <= 0 {
        return INVALID_INPUT;
      }
      if courseId !in courses {
        return FAILURE;
      }
      var course := courses[courseId];
      if course.numStudentsInCourse > 0 {
        return FAILURE;
      }
      RemoveCourseConsistent(model, courseId);
      DeleteCourse(courseId);
      return SUCCESS;
    }

    /** Drops the record of a course. */
    method DeleteCourse(courseId: int)
      requires Heap()
      modifies this
      ensures Heap() && Repr() == old(Repr())
      ensures model == WithoutCourse(old(model), courseId)
    {
      courses := courses - {courseId};
      model := WithoutCourse(model, courseId);
    }

    method EnrollStudent(studentId: int, courseId: int) returns (status: StatusType)
      requires Valid()
      modifies Repr()
      ensures Valid() && Repr() == old(Repr())
      ensures (model, status) == TechSpec.EnrollStudent(old(model), studentId, courseId)
    {
      if studentId <= 0 || courseId <= 0 {
        return INVALID_INPUT;
      }
      if studentId !in students || courseId !in courses {
        return FAILURE;
      }
      var course := courses[courseId];
      var student := students[studentId];
      if studentId in course.studentsInCourse {
        return FAILURE;
      }
      EnrollStudentConsistent(model, studentId, courseId);
      Enroll(student, course);
      return SUCCESS;
    }

    /** Puts `student` in `course`'s table and counts the enrollment on both records. */
    method Enroll(student: StudentData, course: CourseData)
      requires Heap()
      requires student.studentId in students && students[student.studentId] == student
      requires course.courseId in courses && courses[course.courseId] == course
      requires student.studentId !in course.studentsInCourse
      modifies this, student, course
      ensures Heap() && Repr() == old(Repr())
      ensures model == Enrolled(old(model), student.studentId, course.courseId)
    {
      var studentId, courseId := student.studentId, course.courseId;
      course.studentsInCourse := course.studentsInCourse[studentId := student];
      student.numRegisteredCourses := student.numRegisteredCourses + 1;
      course.numStudentsInCourse := course.numStudentsInCourse + 1;
      model := Enrolled(model, studentId, courseId);
      forall id | id in students
        ensures model.students[id] == Student(students[id].baseCredits, students[id].numRegisteredCourses)
      {
        assert id != studentId ==> students[id] != student;
      }
      forall id | id in courses
        ensures model.courses[id] == Course(courses[id].points, courses[id].numStudentsInCourse, courses[id].studentsInCourse.Keys)
      {
        assert id != courseId ==> courses[id] != course;
      }
      forall id | id in courses
        ensures SubTable(courses[id].studentsInCourse, students)
      {
        assert id != courseId ==> courses[id] != course;
      }
      assert Linked();
      assert Shared();
      assert Represents();
    }

    method CompleteCourse(studentId: int, courseId: int) returns (status: StatusType)
      requires Valid()
      modifies Repr()
      ensures Valid() && Repr() == old(Repr())
      ensures (model, status) == TechSpec.CompleteCourse(old(model), studentId, courseId)
    {
      if studentId <= 0 || courseId <= 0 {
        return INVALID_INPUT;
      }
      if courseId !in courses {
        return FAILURE;
      }
      var course := courses[courseId];
      if studentId !in course.studentsInCourse {
        return FAILURE;
      }
      var student := course.studentsInCourse[studentId];
      CompleteCourseConsistent(model, studentId, courseId);
      Complete(student, course);
      return SUCCESS;
    }

    /**
      Takes `student` out of `course`'s table, uncounts the enrollment on
      both records and credits the student with the course's points.
    */
    method Complete(student: StudentData, course: CourseData)
      requires Heap()
      requires course.courseId in courses && courses[course.courseId] == course
      requires student.studentId in course.studentsInCourse && course.studentsInCourse[student.studentId] == student
      modifies this, student, course
      ensures Heap() && Repr() == old(Repr())
      ensures model == Completed(old(model), student.studentId, course.courseId)
    {
      var studentId, courseId := student.studentId, course.courseId;
      course.studentsInCourse := course.studentsInCourse - {studentId};
      student.numRegisteredCourses := student.numRegisteredCourses - 1;
      student.baseCredits := student.baseCredits + course.points;
      course.numStudentsInCourse := course.numStudentsInCourse - 1;
      model := Completed(model, studentId, courseId);
      forall id | id in students
        ensures model.students[id] == Student(students[id].baseCredits, students[id].numRegisteredCourses)
      {
        assert id != studentId ==> students[id] != student;
      }
      forall id | id in courses
        ensures model.courses[id] == Course(courses[id].points, courses[id].numStudentsInCourse, courses[id].studentsInCourse.Keys)
      {
        assert id != courseId ==> courses[id] != course;
      }
      forall id | id in courses
        ensures SubTable(courses[id].studentsInCourse, students)
      {
        assert id != courseId ==> courses[id] != course;
      }
    }

    method AwardAcademicPoints(points: int) returns (status: StatusType)
      requires Valid()
      modifies this
      ensures Valid() && Repr() == old(Repr())
      ensures (model, status) == TechSpec.AwardAcademicPoints(old(model), points)
    {
      if points <= 0 {
        return INVALID_INPUT;
      }
      AwardAcademicPointsConsistent(model, points);
      globalBonus := globalBonus + points;
      model := TechSpec.AwardAcademicPoints(model, points).0;
      return SUCCESS;
    }

    method GetStudentPoints(studentId: int) returns (out: Output<int>)
      requires Valid()
      ensures out == TechSpec.GetStudentPoints(model, studentId)
    {
      if studentId <= 0 {
        return Error(INVALID_INPUT);
      }
      if studentId !in students {
        return Error(FAILURE);
      }
      var student := students[studentId];
      return Answer(student.baseCredits + globalBonus);
    }
  }
}
