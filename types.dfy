/** The attendance record shared by the loaders and the list view. */
module Types {
  import opened Wrappers
  import opened JsNumbers

  datatype Gender = Male | Female

  /** One participant: the roll number, the trimmed name, the rounded
      percentage, the group, the eligibility flag and, for the male file
      only, an optional picture reference. */
  datatype Person = Person(
    id: int,
    name: string,
    attendancePercentage: Number,
    gender: Gender,
    isEligible: bool,
    profileImage: Option<string>)
}
