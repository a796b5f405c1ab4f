/** The student record stored per student of a class (the JSON object saved
    by the settings page or built by the Excel import). */
module Records {
  import opened Wrappers

  /** `"Okul No"` (the school number) is None when the field is missing or
      falsy; the six parent-contact fields are kept as strings. */
  datatype StudentInfo = StudentInfo(
    schoolNo: Option<string>,
    motherName: string,
    motherEmail: string,
    motherPhone: string,
    fatherName: string,
    fatherEmail: string,
    fatherPhone: string)
}
