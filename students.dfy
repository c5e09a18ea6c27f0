/** The student records the application handlers look up; nothing in this model writes them. */
module Students {
  import opened Wrappers

  datatype Student = Student(
    name: string,
    email: string,
    branch: string,
    graduationYear: int,
    cgpa: Option<real>)
}
