/**
 * The one entity of the system: a student record as the hosted collection
 * `studentrecords` stores it. Every field but the identifier is optional.
 * Numbers are modelled as integers.
 */
module Records {
  import opened Wrappers

  /** The name of the hosted collection every remote call addresses. */
  const Collection := "studentrecords"

  datatype StudentRecord = StudentRecord(
    id: string,
    studentName: Option<string>,
    rollNumber: Option<int>,
    semester: Option<string>,
    dateOfBirth: Option<string>,
    emailAddress: Option<string>,
    totalClasses: Option<int>,
    classesAttended: Option<int>,
    subject1Name: Option<string>,
    subject1Marks: Option<int>,
    subject2Name: Option<string>,
    subject2Marks: Option<int>,
    overallGrade: Option<string>)
}
