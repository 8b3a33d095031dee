/**
 * The create-student component: the form it builds, its submit gate and
 * what it does when the create request settles.
 */
module StudentForm {
  import opened Wrappers
  import opened StudentModel
  import opened Forms
  import opened Snapshot
  import StudentService

  /** `initializeForm`: the validators of each control of the create form. */
  function CreateFormRules(f: Field): (r: Rules)
    ensures r.required <==> f == StdName
    ensures r.minLength.Some? <==> f == StdName
    ensures r.maxLength.Some?
    ensures r.email <==> f == Email
    ensures r.phone <==> f == MobileNo
    ensures r.pincode <==> f == Pincode
  {
    match f
    case StdName => Rules(required := true, minLength := Some(2), maxLength := Some(100),
                          email := false, phone := false, pincode := false)
    case MobileNo => Rules(required := false, minLength := None, maxLength := Some(15),
                           email := false, phone := true, pincode := false)
    case Email => Rules(required := false, minLength := None, maxLength := Some(100),
                        email := true, phone := false, pincode := false)
    case City => Rules(false, None, Some(50), false, false, false)
    case State => Rules(false, None, Some(50), false, false, false)
    case Pincode => Rules(required := false, minLength := None, maxLength := Some(10),
                          email := false, phone := false, pincode := true)
    case Address1 => Rules(false, None, Some(255), false, false, false)
    case Address2 => Rules(false, None, Some(255), false, false, false)
  }

  /** The controls are the create form's, each with its own validators. */
  predicate HasCreateRules(controls: seq<Control>) {
    WellFormed(controls) &&
    forall i :: 0 <= i < |controls| ==> controls[i].rules == CreateFormRules(controls[i].field)
  }

  /** Whether the create form accepts `v` as the value of `f`. */
  predicate Accepts(f: Field, v: string, isEmail: string -> bool) {
    ControlValid(Control(f, v, false, CreateFormRules(f)), isEmail)
  }

  lemma NameLimits(v: string, isEmail: string -> bool)
    ensures Accepts(StdName, v, isEmail) <==> 2 <= JsLength(v) <= 100
  {
    if v == "" {
      assert JsLength(v) == 0;
    }
  }

  lemma MobileLimits(v: string, isEmail: string -> bool)
    ensures Accepts(MobileNo, v, isEmail) <==>
      JsLength(v) <= 15 && (v == "" || forall i :: 0 <= i < |v| ==> InClass(PhoneChars, v[i]))
  {
  }

  lemma EmailLimits(v: string, isEmail: string -> bool)
    ensures Accepts(Email, v, isEmail) <==> JsLength(v) <= 100 && (v == "" || isEmail(v))
  {
  }

  lemma PincodeLimits(v: string, isEmail: string -> bool)
    ensures Accepts(Pincode, v, isEmail) <==>
      JsLength(v) <= 10 && (v == "" || forall i :: 0 <= i < |v| ==> InClass(PincodeChars, v[i]))
  {
    var e := ControlErrors(Control(Pincode, v, false, CreateFormRules(Pincode)), isEmail);
    assert e == Errors(false, None, if JsLength(v) > 10 then Some(10) else None,
                       false, false, PincodeValidator(v), false);
  }

  lemma FreeTextLimits(v: string, isEmail: string -> bool)
    ensures Accepts(City, v, isEmail) <==> JsLength(v) <= 50
    ensures Accepts(State, v, isEmail) <==> JsLength(v) <= 50
    ensures Accepts(Address1, v, isEmail) <==> JsLength(v) <= 255
    ensures Accepts(Address2, v, isEmail) <==> JsLength(v) <= 255
  {
  }

  /** An empty name makes the form invalid and is reported as required. */
  lemma EmptyNameIsRequired(controls: seq<Control>, isEmail: string -> bool)
    requires HasCreateRules(controls) && controls[0].value == ""
    ensures FormInvalid(controls, isEmail)
    ensures FormErrorMessage(controls, "stdname", isEmail) == "stdname is required"
  {
    EmptyNameErrors(controls[0], isEmail);
    RequiredMessage();
    GetField(controls, 0);
  }

  lemma EmptyNameErrors(c: Control, isEmail: string -> bool)
    requires c.rules == CreateFormRules(StdName) && c.value == ""
    ensures ControlErrors(c, isEmail) == Errors(true, None, None, false, false, false, false)
  {
  }

  lemma RequiredMessage()
    ensures ErrorMessage("stdname", Errors(true, None, None, false, false, false, false)) == "stdname is required"
  {
    var e := Errors(true, None, None, false, false, false, false);
    assert ErrorMessage("stdname", e) == "stdname" + " is required";
  }

  /** A one-character name is reported against the minimum length. */
  lemma ShortNameMessage(controls: seq<Control>, isEmail: string -> bool)
    requires HasCreateRules(controls) && |controls[0].value| == 1 && controls[0].value[0] as int < 0x1_0000
    ensures FormInvalid(controls, isEmail)
    ensures FormErrorMessage(controls, "stdname", isEmail) == "stdname must be at least 2 characters"
  {
    ShortNameErrors(controls[0], isEmail);
    MinLengthTwoMessage();
    GetField(controls, 0);
  }

  lemma ShortNameErrors(c: Control, isEmail: string -> bool)
    requires c.rules == CreateFormRules(StdName) && |c.value| == 1 && c.value[0] as int < 0x1_0000
    ensures ControlErrors(c, isEmail) == Errors(false, Some(2), None, false, false, false, false)
  {
    assert JsLength(c.value[1..]) == 0;
  }

  lemma MinLengthTwoMessage()
    ensures ErrorMessage("stdname", Errors(false, Some(2), None, false, false, false, false))
      == "stdname must be at least 2 characters"
  {
    var e := Errors(false, Some(2), None, false, false, false, false);
    assert NatToString(2) == "2";
    assert KindMessage("stdname", e, MinLengthError) == "stdname" + " must be at least " + "2" + " characters";
    assert ErrorMessage("stdname", e) == KindMessage("stdname", e, MinLengthError);
  }

  /** A pincode with a letter makes the form invalid and is reported as such. */
  lemma LetterInPincodeRejected(controls: seq<Control>, isEmail: string -> bool)
    requires HasCreateRules(controls) && controls[5].value == "12A34"
    ensures FormInvalid(controls, isEmail)
    ensures FormErrorMessage(controls, "pincode", isEmail) == "Please enter a valid pincode"
  {
    LetterPincodeErrors(controls[5], isEmail);
    InvalidPincodeMessage();
    GetField(controls, 5);
  }

  lemma LetterPincodeErrors(c: Control, isEmail: string -> bool)
    requires c.rules == CreateFormRules(Pincode) && c.value == "12A34"
    ensures ControlErrors(c, isEmail) == Errors(false, None, None, false, false, true, false)
  {
    PincodeExamples();
  }

  lemma InvalidPincodeMessage()
    ensures ErrorMessage("pincode", Errors(false, None, None, false, false, true, false))
      == "Please enter a valid pincode"
  {
  }

  class CreateComponent {
    const service: StudentService.Service
    /** Angular's `Validators.email` pattern test, taken as given. */
    const isEmail: string -> bool
    /** `studentForm`'s controls. */
    var controls: seq<Control>
    var successMessage: Option<string>

    ghost predicate Valid()
      reads this
    {
      HasCreateRules(controls)
    }

    /** Construction followed by `ngOnInit`'s `initializeForm`. */
    constructor (service: StudentService.Service, isEmail: string -> bool)
      ensures this.service == service && this.isEmail == isEmail
      ensures Valid()
      ensures controls == InitialControls(CreateFormRules) && successMessage == None
    {
      this.service := service;
      this.isEmail := isEmail;
      controls := InitialControls(CreateFormRules);
      successMessage := None;
    }

    /** `studentForm.invalid`: some control of the form shows a message. */
    predicate Invalid()
      reads this
      ensures Invalid() <==> exists i :: 0 <= i < |controls| &&
                                         ErrorMessage(FieldName(controls[i].field), ControlErrors(controls[i], isEmail)) != ""
    {
      FormInvalid(controls, isEmail)
    }

    /** The user types `v` into control `k`; validators re-run on the new value. */
    method Input(k: nat, v: string)
      requires Valid() && k < |controls|
      modifies this
      ensures Valid()
      ensures controls == old(controls)[k := old(controls)[k].(value := v)]
      ensures successMessage == old(successMessage)
    {
      controls := controls[k := controls[k].(value := v)];
    }

    method MarkFormGroupTouched()
      requires Valid()
      modifies this
      ensures Valid()
      ensures |controls| == |old(controls)|
      ensures forall i :: 0 <= i < |controls| ==> controls[i] == old(controls)[i].(touched := true)
      ensures successMessage == old(successMessage)
    {
      controls := MarkAllTouched(controls);
    }

    /**
     * `onSubmit`: an invalid form gets every control touched and the service
     * is not called; a valid form issues exactly one create with its value.
     */
    method OnSubmit()
      requires Valid()
      requires service.Valid()
      modifies this, service
      ensures service.Valid()
      ensures Valid() && successMessage == old(successMessage)
      ensures old(Invalid()) ==>
        unchanged(service) && |controls| == |old(controls)| &&
        forall i :: 0 <= i < |controls| ==> controls[i] == old(controls)[i].(touched := true)
      ensures !old(Invalid()) ==>
        controls == old(controls) &&
        service.sent == old(service.sent) + [StudentService.Create(FormValue(old(controls)))] &&
        service.loading &&
        service.snapshot == old(service.snapshot) && service.error == old(service.error)
    {
      if Invalid() {
        MarkFormGroupTouched();
        return;
      }
      var formValue := FormValue(controls);
      service.StartCreate(formValue);
    }

    /** The create succeeded with the server's record `created`. */
    method SettleSubmitSuccess(created: Student)
      requires service.Valid()
      modifies this, service
      ensures service.Valid()
      ensures service.snapshot == Appended(old(service.snapshot), created)
      ensures service.error == None && !service.loading && service.sent == old(service.sent)
      ensures successMessage == Some("Student \"" + created.stdname + "\" created successfully!")
      ensures controls == old(controls)
    {
      var student := service.SettleCreateSuccess(created);
      successMessage := Some("Student \"" + student.stdname + "\" created successfully!");
    }

    /** The create failed: the form stays as it was and the service publishes the error. */
    method SettleSubmitFailure(err: StudentService.HttpError)
      requires service.Valid()
      modifies service
      ensures service.Valid()
      ensures service.snapshot == old(service.snapshot) && service.sent == old(service.sent)
      ensures service.error == Some(StudentService.ErrorText(err)) && !service.loading
    {
      var e := service.SettleFailure(err);
    }

    method ClearSuccessMessage()
      modifies this
      ensures successMessage == None && controls == old(controls)
    {
      successMessage := None;
    }

    /** `getErrorMessage(fieldName)`. */
    function GetErrorMessage(fieldName: string): (r: string)
      requires Valid()
      reads this
      ensures (forall f :: fieldName != FieldName(f)) ==> r == ""
      ensures forall k :: 0 <= k < |controls| && fieldName == FieldName(FieldOrder[k]) ==>
        r == ErrorMessage(fieldName, ControlErrors(controls[k], isEmail)) &&
        (r == "" <==> ControlValid(controls[k], isEmail))
    {
      FormErrorMessageOfFields(controls, isEmail);
      FormErrorMessage(controls, fieldName, isEmail)
    }
  }
}
