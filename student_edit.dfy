/**
 * The edit-student component: the same form as the create component,
 * the record it loads into the form, its submit gate (which also needs a
 * record key) and what it does when the update request settles.
 */
module StudentEdit {
  import opened Wrappers
  import opened StudentModel
  import opened Forms
  import opened Snapshot
  import StudentForm
  import StudentService

  /** `initializeForm` of the edit component, declared separately from the create form's. */
  function EditFormRules(f: Field): (r: Rules)
    ensures r.required <==> f == StdName
    ensures r.minLength.Some? <==> f == StdName
    ensures r.maxLength.Some?
    ensures r.email <==> f == Email
    ensures r.phone <==> f == MobileNo
    ensures r.pincode <==> f == Pincode
  {
    match f
    case StdName => Rules(required := true, minLength := Some(2), maxLength := Some(100),
                          email := false, phone := false, pincode := false)
    case MobileNo => Rules(required := false, minLength := None, maxLength := Some(15),
                           email := false, phone := true, pincode := false)
    case Email => Rules(required := false, minLength := None, maxLength := Some(100),
                        email := true, phone := false, pincode := false)
    case City => Rules(false, None, Some(50), false, false, false)
    case State => Rules(false, None, Some(50), false, false, false)
    case Pincode => Rules(required := false, minLength := None, maxLength := Some(10),
                          email := false, phone := false, pincode := true)
    case Address1 => Rules(false, None, Some(255), false, false, false)
    case Address2 => Rules(false, None, Some(255), false, false, false)
  }

  /** Both components put the same validators on every control. */
  lemma SameRulesAsCreateForm(f: Field)
    ensures EditFormRules(f) == StudentForm.CreateFormRules(f)
  {
  }

  /**
   * `!this.studentId` is false: the key is present and not 0. The key is
   * declared `number | null` and modelled so; at run time the router
   * supplies `params['id']` as a string, which the service's strict
   * comparison `s.stdid === id` never equates with a numeric key. As a
   * string, the route key `"0"` is non-empty and so truthy: the component
   * then loads record 0 and lets a valid form send its update, where this
   * predicate, on the number 0, blocks both.
   */
  predicate IdTruthy(id: Option<int>) {
    id.Some? && id.value != 0
  }

  /**
   * Loading record `s` into the form and saving it unchanged leaves a
   * snapshot with unique keys that holds `s` exactly as it was.
   */
  lemma SaveUnchangedRecordIsNoOp(controls: seq<Control>, snapshot: seq<Student>, k: nat)
    requires WellFormed(controls) && UniqueIds(snapshot) && k < |snapshot|
    ensures UpdatedById(snapshot, snapshot[k].stdid, FormValue(Patched(controls, snapshot[k]))) == snapshot
  {
    PatchedFormValue(controls, snapshot[k]);
    UpdateWithOwnFieldsIsNoOp(snapshot, k);
  }

  class EditComponent {
    const service: StudentService.Service
    /** Angular's `Validators.email` pattern test, taken as given. */
    const isEmail: string -> bool
    /** `studentForm`'s controls. */
    var controls: seq<Control>
    var studentId: Option<int>
    var successMessage: Option<string>
    var isLoadingStudent: bool

    ghost predicate Valid()
      reads this
    {
      WellFormed(controls) &&
      forall i :: 0 <= i < |controls| ==> controls[i].rules == EditFormRules(controls[i].field)
    }

    /** Construction followed by `ngOnInit`'s `initializeForm`. */
    constructor (service: StudentService.Service, isEmail: string -> bool)
      ensures this.service == service && this.isEmail == isEmail
      ensures Valid()
      ensures controls == InitialControls(EditFormRules)
      ensures studentId == None && successMessage == None && !isLoadingStudent
    {
      this.service := service;
      this.isEmail := isEmail;
      controls := InitialControls(EditFormRules);
      studentId := None;
      successMessage := None;
      isLoadingStudent := false;
    }

    /** `studentForm.invalid`: some control of the form shows a message. */
    predicate Invalid()
      reads this
      ensures Invalid() <==> exists i :: 0 <= i < |controls| &&
                                         ErrorMessage(FieldName(controls[i].field), ControlErrors(controls[i], isEmail)) != ""
    {
      FormInvalid(controls, isEmail)
    }

    /** The route supplies `routeId`; a truthy key starts loading that record. */
    method Activate(routeId: Option<int>)
      requires Valid()
      requires service.Valid()
      modifies this, service
      ensures service.Valid()
      ensures Valid() && studentId == routeId && controls == old(controls)
      ensures successMessage == old(successMessage)
      ensures IdTruthy(routeId) ==>
        isLoadingStudent && service.loading &&
        service.sent == old(service.sent) + [StudentService.GetById(routeId.value)] &&
        service.snapshot == old(service.snapshot) && service.error == old(service.error)
      ensures !IdTruthy(routeId) ==> isLoadingStudent == old(isLoadingStudent) && unchanged(service)
    {
      studentId := routeId;
      if IdTruthy(studentId) {
        LoadStudent(studentId.value);
      }
    }

    /** `loadStudent(id)`: raise the record-loading flag and fetch the record. */
    method LoadStudent(id: int)
      requires Valid()
      requires service.Valid()
      modifies this, service
      ensures service.Valid()
      ensures Valid() && controls == old(controls) && studentId == old(studentId)
      ensures successMessage == old(successMessage)
      ensures isLoadingStudent && service.loading
      ensures service.sent == old(service.sent) + [StudentService.GetById(id)]
      ensures service.snapshot == old(service.snapshot) && service.error == old(service.error)
    {
      isLoadingStudent := true;
      service.StartGetById(id);
    }

    /** The record arrived: the form takes its values and the flag drops. */
    method SettleLoadSuccess(student: Student)
      requires Valid()
      requires service.Valid()
      modifies this, service
      ensures Valid() && !isLoadingStudent && studentId == old(studentId)
      ensures controls == Patched(old(controls), student) && FormValue(controls) == ToDto(student)
      ensures successMessage == old(successMessage)
      ensures service.Valid()
      ensures service.snapshot == old(service.snapshot) && service.error == None
      ensures !service.loading && service.sent == old(service.sent)
    {
      var s := service.SettleGetByIdSuccess(student);
      PatchedFormValue(controls, s);
      controls := Patched(controls, s);
      isLoadingStudent := false;
    }

    /** The fetch failed: the form is left as it was and the flag drops. */
    method SettleLoadFailure(err: StudentService.HttpError)
      requires Valid()
      requires service.Valid()
      modifies this, service
      ensures Valid() && !isLoadingStudent && controls == old(controls) && studentId == old(studentId)
      ensures successMessage == old(successMessage)
      ensures service.Valid()
      ensures service.snapshot == old(service.snapshot) && service.sent == old(service.sent)
      ensures service.error == Some(StudentService.ErrorText(err)) && !service.loading
    {
      var e := service.SettleFailure(err);
      isLoadingStudent := false;
    }

    method MarkFormGroupTouched()
      requires Valid()
      modifies this
      ensures Valid()
      ensures |controls| == |old(controls)|
      ensures forall i :: 0 <= i < |controls| ==> controls[i] == old(controls)[i].(touched := true)
      ensures studentId == old(studentId) && successMessage == old(successMessage)
      ensures isLoadingStudent == old(isLoadingStudent)
    {
      controls := MarkAllTouched(controls);
    }

    /**
     * `onSubmit`: an invalid form or a missing key gets every control
     * touched and the service is not called; otherwise exactly one update
     * of `studentId` with the form's value is issued.
     */
    method OnSubmit()
      requires Valid()
      requires service.Valid()
      modifies this, service
      ensures service.Valid()
      ensures Valid() && studentId == old(studentId) && successMessage == old(successMessage)
      ensures isLoadingStudent == old(isLoadingStudent)
      ensures old(Invalid()) || !IdTruthy(studentId) ==>
        unchanged(service) && |controls| == |old(controls)| &&
        forall i :: 0 <= i < |controls| ==> controls[i] == old(controls)[i].(touched := true)
      ensures !old(Invalid()) && IdTruthy(studentId) ==>
        controls == old(controls) &&
        service.sent == old(service.sent) + [StudentService.Update(studentId.value, FormValue(old(controls)))] &&
        service.loading &&
        service.snapshot == old(service.snapshot) && service.error == old(service.error)
    {
      if Invalid() || !IdTruthy(studentId) {
        MarkFormGroupTouched();
        return;
      }
      var formValue := FormValue(controls);
      service.StartUpdate(studentId.value, formValue);
    }

    /** The update of `id` with `dto` (the request's own arguments) succeeded. */
    method SettleSubmitSuccess(id: int, dto: CreateStudentDto)
      requires service.Valid()
      modifies this, service
      ensures service.Valid()
      ensures service.snapshot == UpdatedById(old(service.snapshot), id, dto)
      ensures service.error == None && !service.loading && service.sent == old(service.sent)
      ensures successMessage == Some("Student updated successfully!")
      ensures controls == old(controls) && studentId == old(studentId)
      ensures isLoadingStudent == old(isLoadingStudent)
    {
      service.SettleUpdateSuccess(id, dto);
      successMessage := Some("Student updated successfully!");
    }

    /** The update failed: the form stays as it was and the service publishes the error. */
    method SettleSubmitFailure(err: StudentService.HttpError)
      requires service.Valid()
      modifies service
      ensures service.Valid()
      ensures service.snapshot == old(service.snapshot) && service.sent == old(service.sent)
      ensures service.error == Some(StudentService.ErrorText(err)) && !service.loading
    {
      var e := service.SettleFailure(err);
    }

    method ClearSuccessMessage()
      modifies this
      ensures successMessage == None && controls == old(controls) && studentId == old(studentId)
      ensures isLoadingStudent == old(isLoadingStudent)
    {
      successMessage := None;
    }

    /** `getErrorMessage(fieldName)`, with the create form's priority order. */
    function GetErrorMessage(fieldName: string): (r: string)
      requires Valid()
      reads this
      ensures (forall f :: fieldName != FieldName(f)) ==> r == ""
      ensures forall k :: 0 <= k < |controls| && fieldName == FieldName(FieldOrder[k]) ==>
        r == ErrorMessage(fieldName, ControlErrors(controls[k], isEmail)) &&
        (r == "" <==> ControlValid(controls[k], isEmail))
    {
      FormErrorMessageOfFields(controls, isEmail);
      FormErrorMessage(controls, fieldName, isEmail)
    }
  }

  /**
   * Load record `k` of the snapshot, save the form untouched, and the
   * update settles: the snapshot is what it was and the notice is shown.
   */
  method EditRoundTrip(c: EditComponent, k: nat)
    requires c.Valid() && UniqueIds(c.service.snapshot) && k < |c.service.snapshot|
    requires IdTruthy(Some(c.service.snapshot[k].stdid))
    requires !FormInvalid(Patched(c.controls, c.service.snapshot[k]), c.isEmail)
    requires c.service.Valid()
    modifies c, c.service
    ensures c.service.Valid()
    ensures c.service.snapshot == old(c.service.snapshot)
    ensures c.successMessage == Some("Student updated successfully!")
    ensures !c.service.loading && c.service.error == None && !c.isLoadingStudent
  {
    var s := c.service.snapshot[k];
    c.Activate(Some(s.stdid));
    c.SettleLoadSuccess(s);
    var form := c.controls;
    c.OnSubmit();
    SaveUnchangedRecordIsNoOp(old(c.controls), c.service.snapshot, k);
    c.SettleSubmitSuccess(s.stdid, FormValue(form));
  }
}
