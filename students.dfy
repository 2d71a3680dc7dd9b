/** The records a scraped graduate student is stored as (`college.rs`). */
module Students {

  /** `Office`: building and room, both empty by default. */
  datatype Office = Office(building: string, room: string)

  const NoOffice: Office := Office([], [])

  /** `GraduateStudent`; `Default` is the student with every field empty. */
  datatype GraduateStudent = GraduateStudent(
    id: string,
    names: seq<string>,
    email: string,
    department: string,
    office: Office)

  const EmptyStudent: GraduateStudent := GraduateStudent([], [], [], [], NoOffice)
}
