/** The keyed roster store behind the settings page: every class name maps to
    its roster, every roster maps a student's full name to the student's
    record. Each operation loads the stored object, changes it and writes it
    back; here an operation is the function from the loaded store to the
    store written (or to nothing written). */
module DataManager {
  import opened Wrappers
  import opened Seqs
  import opened JsObject
  import opened Records

  type Roster = Dict<StudentInfo>
  type Store = Dict<Roster>

  /** `getClasses()`: the class names, in insertion order. */
  function GetClasses(data: Store): (r: seq<string>)
    ensures Distinct(r)
    ensures forall c :: c in r <==> c in data.values
  {
    data.keys
  }

  /** `getStudentsByClass(className)`: the stored roster, or an empty one for
      an unknown class. */
  function GetStudentsByClass(data: Store, className: string): (r: Roster)
    ensures className in data.values ==> r == data.values[className]
    ensures className !in data.values ==> r.keys == [] && r.values == map[]
  {
    Get(data, className).GetOr(Empty())
  }

  /** `saveClass(className, students)`: the class's roster is replaced as a
      whole (the caller passes `Empty()` for the default `{}`); a new class
      name goes last. */
  function SaveClass(data: Store, className: string, students: Roster): (r: Store)
    ensures r.values == data.values[className := students]
    ensures className in data.values ==> r.keys == data.keys
    ensures className !in data.values ==> r.keys == data.keys + [className]
  {
    Assign(data, className, students)
  }

  /** `deleteClass(className)`: the class key is removed, the other classes
      keep their order; deleting an unknown class writes the store back
      unchanged. */
  function DeleteClass(data: Store, className: string): (r: Store)
    ensures r.values == data.values - {className}
    ensures r.keys == Filter(data.keys, Other(className))
    ensures className !in data.values ==> r == data
  {
    Delete(data, className)
  }

  /** `saveStudent(className, studentName, studentInfo)`: the class is created
      (empty, last) when absent, then the one student is set; an existing
      student keeps its place in the roster, a new one goes last. */
  function SaveStudent(data: Store, className: string, studentName: string, info: StudentInfo): (r: Store)
    ensures className in r.values
    ensures r.values[className].values == GetStudentsByClass(data, className).values[studentName := info]
    ensures studentName in GetStudentsByClass(data, className).values ==>
      r.values[className].keys == GetStudentsByClass(data, className).keys
    ensures studentName !in GetStudentsByClass(data, className).values ==>
      r.values[className].keys == GetStudentsByClass(data, className).keys + [studentName]
    ensures forall c :: c != className ==> (c in r.values <==> c in data.values)
    ensures forall c :: c != className && c in data.values ==> r.values[c] == data.values[c]
    ensures className in data.values ==> r.keys == data.keys
    ensures className !in data.values ==> r.keys == data.keys + [className]
  {
    Assign(data, className, Assign(GetStudentsByClass(data, className), studentName, info))
  }

  /** `deleteStudent(className, studentName)`: the store to write, or None
      when the class does not exist and nothing is written. */
  function DeleteStudent(data: Store, className: string, studentName: string): (r: Option<Store>)
    ensures r.None? <==> className !in data.values
    ensures r.Some? ==>
      && r.value.keys == data.keys
      && r.value.values.Keys == data.values.Keys
      && r.value.values[className].values == data.values[className].values - {studentName}
      && r.value.values[className].keys == Filter(data.values[className].keys, Other(studentName))
      && forall c :: c in data.values && c != className ==> r.value.values[c] == data.values[c]
  {
    if className in data.values then
      Some(Assign(data, className, Delete(data.values[className], studentName)))
    else
      None
  }

  /** The store as it is after an operation that may write nothing. */
  function Stored(data: Store, written: Option<Store>): (r: Store)
    ensures written.None? ==> r == data
    ensures written.Some? ==> r == written.value
  {
    written.GetOr(data)
  }

  // ---------------------------------------------------------------- round trips

  /** Reading a class back after saving it gives the saved roster; every
      other class reads as before. */
  lemma SaveClassThenGet(data: Store, className: string, students: Roster, other: string)
    ensures GetStudentsByClass(SaveClass(data, className, students), className) == students
    ensures other != className ==>
      GetStudentsByClass(SaveClass(data, className, students), other) == GetStudentsByClass(data, other)
    ensures GetClasses(SaveClass(data, className, students))
         == if className in data.values then GetClasses(data) else GetClasses(data) + [className]
  {
  }

  /** A deleted class is gone from the class list and reads as empty; every
      other class reads as before. */
  lemma DeleteClassThenGet(data: Store, className: string, other: string)
    ensures className !in GetClasses(DeleteClass(data, className))
    ensures GetStudentsByClass(DeleteClass(data, className), className) == Empty()
    ensures other != className ==>
      GetStudentsByClass(DeleteClass(data, className), other) == GetStudentsByClass(data, other)
    ensures forall c :: c in GetClasses(DeleteClass(data, className)) <==> c in GetClasses(data) && c != className
  {
  }

  /** Creating a new class and deleting it again restores the store exactly,
      order of the other classes included. */
  lemma SaveDeleteClassRoundTrip(data: Store, className: string, students: Roster)
    requires className !in data.values
    ensures DeleteClass(SaveClass(data, className, students), className) == data
  {
    AssignDelete(data, className, students);
  }

  /** Reading a roster back after saving a student shows that student with
      the saved record; saving the same record twice is saving it once. */
  lemma SaveStudentThenGet(data: Store, className: string, studentName: string, info: StudentInfo)
    ensures
      var after := GetStudentsByClass(SaveStudent(data, className, studentName, info), className);
      studentName in after.values && after.values[studentName] == info
    ensures SaveStudent(SaveStudent(data, className, studentName, info), className, studentName, info)
         == SaveStudent(data, className, studentName, info)
  {
    var once := SaveStudent(data, className, studentName, info);
    AssignSame(once.values[className], studentName);
    AssignSame(once, className);
  }

  /** After deleting a student of an existing class, the class reads without
      that student and with every other student as before. */
  lemma DeleteStudentThenGet(data: Store, className: string, studentName: string)
    requires className in data.values
    ensures
      var after := GetStudentsByClass(Stored(data, DeleteStudent(data, className, studentName)), className);
      && studentName !in after.values
      && forall n :: n != studentName ==>
           (n in after.values <==> n in data.values[className].values)
           && (n in after.values ==> after.values[n] == data.values[className].values[n])
  {
  }

  /** Adding a new student to an existing class and deleting the student
      again restores the store exactly. */
  lemma SaveDeleteStudentRoundTrip(data: Store, className: string, studentName: string, info: StudentInfo)
    requires className in data.values && studentName !in data.values[className].values
    ensures DeleteStudent(SaveStudent(data, className, studentName, info), className, studentName) == Some(data)
  {
    var roster := data.values[className];
    var added := Assign(roster, studentName, info);
    var saved := Assign(data, className, added);
    assert saved == SaveStudent(data, className, studentName, info);
    AssignDelete(roster, studentName, info);
    assert DeleteStudent(saved, className, studentName) == Some(Assign(saved, className, roster));
    AssignTwice(data, className, added, roster);
    AssignSame(data, className);
  }
}
