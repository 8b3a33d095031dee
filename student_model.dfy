/**
 * The two record shapes the client exchanges with the backend: a persisted
 * Student (with its server-assigned key `stdid`) and the create/update
 * payload, which has every Student field except the key.
 */
module StudentModel {

  /** A persisted student record; `stdid` is assigned by the server. */
  datatype Student = Student(
    stdid: int,
    stdname: string,
    mobileno: string,
    email: string,
    city: string,
    state: string,
    pincode: string,
    address1: string,
    address2: string)

  /** The payload of a create or an update: a Student without its key. */
  datatype CreateStudentDto = CreateStudentDto(
    stdname: string,
    mobileno: string,
    email: string,
    city: string,
    state: string,
    pincode: string,
    address1: string,
    address2: string)

  /**
   * The object spread `{ ...s, ...dto }`: every field the payload carries
   * overwrites the record's, and the payload carries all of them except
   * `stdid`, which therefore survives from `s`.
   */
  function Merge(s: Student, dto: CreateStudentDto): (r: Student)
    ensures r.stdid == s.stdid
    ensures ToDto(r) == dto
  {
    Student(s.stdid, dto.stdname, dto.mobileno, dto.email, dto.city,
            dto.state, dto.pincode, dto.address1, dto.address2)
  }

  /** The non-key fields of a record, as a payload. */
  function ToDto(s: Student): CreateStudentDto {
    CreateStudentDto(s.stdname, s.mobileno, s.email, s.city,
                     s.state, s.pincode, s.address1, s.address2)
  }

  /** Merging a record's own fields back into it changes nothing. */
  lemma MergeOwnFields(s: Student)
    ensures Merge(s, ToDto(s)) == s
  {
  }

  /** A later merge wins outright over an earlier one. */
  lemma MergeTwice(s: Student, d1: CreateStudentDto, d2: CreateStudentDto)
    ensures Merge(Merge(s, d1), d2) == Merge(s, d2)
  {
  }
}
