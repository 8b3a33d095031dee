/**
 * The student service's client-side state container: the snapshot of the
 * student collection and the `loading` and `error` signals, with each of
 * the five asynchronous operations split into the step that issues the
 * HTTP request and the steps that settle it with a success or a failure.
 */
module StudentService {
  import opened Wrappers
  import opened StudentModel
  import opened Snapshot

  /**
   * What a failed request reports: `error.error?.message`, the message the
   * server put in the response body (None when the body is absent or has
   * no message), and `error.message`, the transport's own message.
   */
  datatype HttpError = HttpError(bodyMessage: Option<string>, message: Option<string>)

  /** JavaScript truthiness of an optional string: present and non-empty. */
  predicate Truthy(s: Option<string>) {
    s.Some? && s.value != ""
  }

  const FallbackMessage: string := "An error occurred"

  /** The message `handleError` publishes: body message, else transport message, else the fallback. */
  function ErrorText(err: HttpError): (r: string)
    ensures r != ""
    ensures Truthy(err.bodyMessage) ==> r == err.bodyMessage.value
    ensures !Truthy(err.bodyMessage) && Truthy(err.message) ==> r == err.message.value
    ensures !Truthy(err.bodyMessage) && !Truthy(err.message) ==> r == FallbackMessage
  {
    if Truthy(err.bodyMessage) then err.bodyMessage.value
    else if Truthy(err.message) then err.message.value
    else FallbackMessage
  }

  /** Empty messages do not count: an empty server message falls through to the next candidate. */
  lemma EmptyMessagesFallThrough()
    ensures ErrorText(HttpError(Some(""), Some("timeout"))) == "timeout"
    ensures ErrorText(HttpError(Some(""), Some(""))) == "An error occurred"
    ensures ErrorText(HttpError(None, None)) == "An error occurred"
  {
  }

  /** An HTTP request the service has issued (the REST call, without its URL). */
  datatype Request =
    | GetAll                                    // GET    /Student
    | GetById(id: int)                          // GET    /Student/{id}
    | Create(dto: CreateStudentDto)             // POST   /Student
    | Update(id: int, dto: CreateStudentDto)    // PUT    /Student/{id}
    | Delete(id: int)                           // DELETE /Student/{id}

  class Service {
    /** The value of `studentsSubject`: the current snapshot. */
    var snapshot: seq<Student>
    /** The value of `loadingSubject`. */
    var loading: bool
    /** The value of `errorSubject` (`string | null`). */
    var error: Option<string>
    /** Every HTTP request issued so far, oldest first. */
    var sent: seq<Request>

    /** A published error is never the empty string. */
    ghost predicate Valid()
      reads this
    {
      error.Some? ==> error.value != ""
    }

    constructor ()
      ensures Valid()
      ensures snapshot == [] && !loading && error == None && sent == []
    {
      snapshot := [];
      loading := false;
      error := None;
      sent := [];
    }

    method SetLoading(v: bool)
      requires Valid()
      modifies this
      ensures Valid()
      ensures loading == v
      ensures snapshot == old(snapshot) && error == old(error) && sent == old(sent)
    {
      loading := v;
    }

    method ClearError()
      requires Valid()
      modifies this
      ensures Valid()
      ensures error == None
      ensures snapshot == old(snapshot) && loading == old(loading) && sent == old(sent)
    {
      error := None;
    }

    /** `forwardError`: publish the derived message and hand the same failure back to the caller. */
    method ForwardError(err: HttpError) returns (rethrown: HttpError)
      requires Valid()
      modifies this
      ensures Valid()
      ensures error == Some(ErrorText(err)) && rethrown == err
      ensures snapshot == old(snapshot) && loading == old(loading) && sent == old(sent)
    {
      error := Some(ErrorText(err));
      rethrown := err;
    }

    /** `getStudentsSnapshot`. */
    method GetStudentsSnapshot() returns (s: seq<Student>)
      ensures s == snapshot
    {
      s := snapshot;
    }

    /** The common start of every operation: `setLoading(true)`, then the HTTP call goes out. */
    method Issue(req: Request)
      requires Valid()
      modifies this
      ensures Valid()
      ensures loading && sent == old(sent) + [req]
      ensures snapshot == old(snapshot) && error == old(error)
    {
      SetLoading(true);
      sent := sent + [req];
    }

    /** A failure settles every operation alike: snapshot untouched, error published, loading off. */
    method SettleFailure(err: HttpError) returns (rethrown: HttpError)
      requires Valid()
      modifies this
      ensures Valid()
      ensures snapshot == old(snapshot) && sent == old(sent)
      ensures error == Some(ErrorText(err)) && !loading && rethrown == err
    {
      rethrown := ForwardError(err);
      SetLoading(false);
    }

    // --- getAllStudents -------------------------------------------------

    method StartGetAll()
      requires Valid()
      modifies this
      ensures Valid()
      ensures loading && sent == old(sent) + [GetAll]
      ensures snapshot == old(snapshot) && error == old(error)
    {
      Issue(GetAll);
    }

    method SettleGetAllSuccess(students: seq<Student>)
      requires Valid()
      modifies this
      ensures Valid()
      ensures snapshot == students && error == None && !loading && sent == old(sent)
    {
      snapshot := students;
      ClearError();
      SetLoading(false);
    }

    // --- getStudentById -------------------------------------------------

    method StartGetById(id: int)
      requires Valid()
      modifies this
      ensures Valid()
      ensures loading && sent == old(sent) + [GetById(id)]
      ensures snapshot == old(snapshot) && error == old(error)
    {
      Issue(GetById(id));
    }

    /** The fetched record is passed on to the caller; the snapshot is not touched. */
    method SettleGetByIdSuccess(student: Student) returns (r: Student)
      requires Valid()
      modifies this
      ensures Valid()
      ensures r == student
      ensures snapshot == old(snapshot) && error == None && !loading && sent == old(sent)
    {
      ClearError();
      SetLoading(false);
      r := student;
    }

    // --- createStudent --------------------------------------------------

    method StartCreate(dto: CreateStudentDto)
      requires Valid()
      modifies this
      ensures Valid()
      ensures loading && sent == old(sent) + [Create(dto)]
      ensures snapshot == old(snapshot) && error == old(error)
    {
      Issue(Create(dto));
    }

    /** `created` is the record the server returned, with its assigned key. */
    method SettleCreateSuccess(created: Student) returns (r: Student)
      requires Valid()
      modifies this
      ensures Valid()
      ensures r == created
      ensures snapshot == Appended(old(snapshot), created)
      ensures error == None && !loading && sent == old(sent)
    {
      snapshot := Appended(snapshot, created);
      ClearError();
      SetLoading(false);
      r := created;
    }

    // --- updateStudent --------------------------------------------------

    method StartUpdate(id: int, dto: CreateStudentDto)
      requires Valid()
      modifies this
      ensures Valid()
      ensures loading && sent == old(sent) + [Update(id, dto)]
      ensures snapshot == old(snapshot) && error == old(error)
    {
      Issue(Update(id, dto));
    }

    /**
     * `id` and `dto` are the arguments the request was issued with (the
     * values the success handler closes over).
     */
    method SettleUpdateSuccess(id: int, dto: CreateStudentDto)
      requires Valid()
      modifies this
      ensures Valid()
      ensures snapshot == UpdatedById(old(snapshot), id, dto)
      ensures error == None && !loading && sent == old(sent)
    {
      snapshot := UpdatedById(snapshot, id, dto);
      ClearError();
      SetLoading(false);
    }

    // --- deleteStudent --------------------------------------------------

    method StartDelete(id: int)
      requires Valid()
      modifies this
      ensures Valid()
      ensures loading && sent == old(sent) + [Delete(id)]
      ensures snapshot == old(snapshot) && error == old(error)
    {
      Issue(Delete(id));
    }

    method SettleDeleteSuccess(id: int)
      requires Valid()
      modifies this
      ensures Valid()
      ensures snapshot == DeletedById(old(snapshot), id)
      ensures error == None && !loading && sent == old(sent)
    {
      snapshot := DeletedById(snapshot, id);
      ClearError();
      SetLoading(false);
    }
  }

  /**
   * A complete create round trip on a fresh service: the snapshot becomes
   * exactly the one record the server returned.
   */
  method CreateOnEmptySnapshot(created: Student) returns (svc: Service)
    ensures svc.snapshot == [created] && !svc.loading && svc.error == None
    ensures svc.sent == [Create(ToDto(created))]
  {
    svc := new Service();
    svc.StartCreate(ToDto(created));
    assert svc.loading;
    var r := svc.SettleCreateSuccess(created);
  }

  /**
   * A failed update followed by a successful delete of the same key: the
   * failure leaves the snapshot alone and the later success clears the error.
   */
  method FailureThenSuccess(svc: Service, id: int, dto: CreateStudentDto, err: HttpError)
    requires svc.Valid()
    modifies svc
    ensures svc.Valid()
    ensures svc.snapshot == DeletedById(old(svc.snapshot), id)
    ensures svc.error == None && !svc.loading
    ensures svc.sent == old(svc.sent) + [Update(id, dto), Delete(id)]
  {
    svc.StartUpdate(id, dto);
    var e := svc.SettleFailure(err);
    assert svc.error == Some(ErrorText(err)) && svc.snapshot == old(svc.snapshot);
    svc.StartDelete(id);
    svc.SettleDeleteSuccess(id);
  }
}
