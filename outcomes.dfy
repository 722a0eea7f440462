/** The outcome of each registration operation: one value per message the
    system reports to its user. */
module Outcomes {

  datatype Outcome =
    | Ok               // the operation took effect
    | DuplicateId      // addStudent: a student with this id already exists
    | StudentNotFound  // no student has the given id
    | CourseNotFound   // no course has the given code
    | CourseFull       // registerStudent: the course has no free seat
    | NotRegistered    // dropCourse: the student does not hold the course
}
