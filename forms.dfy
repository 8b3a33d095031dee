/**
 * The reactive-form rules shared by the create and the edit components:
 * the eight controls of the student form, the validators attached to
 * each control, the errors they produce, the phone and pincode character
 * classes, marking every control touched, and the per-field message.
 */
module Forms {
  import opened Wrappers
  import opened StudentModel

  // ---------------------------------------------------------------------
  // Controls

  /** The controls of the student form, in the order the form declares them. */
  datatype Field = StdName | MobileNo | Email | City | State | Pincode | Address1 | Address2

  const FieldOrder: seq<Field> := [StdName, MobileNo, Email, City, State, Pincode, Address1, Address2]

  /** The control's key in the form group. */
  function FieldName(f: Field): string {
    match f
    case StdName => "stdname"
    case MobileNo => "mobileno"
    case Email => "email"
    case City => "city"
    case State => "state"
    case Pincode => "pincode"
    case Address1 => "address1"
    case Address2 => "address2"
  }

  /** The validators attached to one control. */
  datatype Rules = Rules(
    required: bool,
    minLength: Option<nat>,
    maxLength: Option<nat>,
    email: bool,
    phone: bool,
    pincode: bool)

  /** A form control: its key, its current value, its touched flag and its validators. */
  datatype Control = Control(field: Field, value: string, touched: bool, rules: Rules)

  /** The controls are exactly the form's eight keys, in declaration order. */
  predicate WellFormed(controls: seq<Control>) {
    |controls| == |FieldOrder| &&
    forall i :: 0 <= i < |controls| ==> controls[i].field == FieldOrder[i]
  }

  /** A fresh, untouched form whose control for `f` carries `rules(f)` and value `''`. */
  function InitialControls(rules: Field -> Rules): (r: seq<Control>)
    ensures WellFormed(r)
    ensures forall i :: 0 <= i < |r| ==>
      r[i].value == "" && !r[i].touched && r[i].rules == rules(r[i].field)
  {
    seq(|FieldOrder|, i requires 0 <= i < |FieldOrder| =>
      Control(FieldOrder[i], "", false, rules(FieldOrder[i])))
  }

  /** The payload's value for the control `f`. */
  function DtoField(d: CreateStudentDto, f: Field): string {
    match f
    case StdName => d.stdname
    case MobileNo => d.mobileno
    case Email => d.email
    case City => d.city
    case State => d.state
    case Pincode => d.pincode
    case Address1 => d.address1
    case Address2 => d.address2
  }

  /** `studentForm.value`: the payload built from the controls' values. */
  function FormValue(controls: seq<Control>): (d: CreateStudentDto)
    requires WellFormed(controls)
    ensures forall i :: 0 <= i < |controls| ==> DtoField(d, controls[i].field) == controls[i].value
  {
    CreateStudentDto(controls[0].value, controls[1].value, controls[2].value, controls[3].value,
                     controls[4].value, controls[5].value, controls[6].value, controls[7].value)
  }

  /** The record's value for the control `f` (the record's `stdid` has no control). */
  function StudentField(s: Student, f: Field): string {
    match f
    case StdName => s.stdname
    case MobileNo => s.mobileno
    case Email => s.email
    case City => s.city
    case State => s.state
    case Pincode => s.pincode
    case Address1 => s.address1
    case Address2 => s.address2
  }

  /** `patchValue(student)`: every control takes the record's value of the same key. */
  function Patched(controls: seq<Control>, s: Student): (r: seq<Control>)
    ensures |r| == |controls|
    ensures forall i :: 0 <= i < |r| ==>
      r[i] == controls[i].(value := StudentField(s, controls[i].field))
  {
    seq(|controls|, i requires 0 <= i < |controls| =>
      controls[i].(value := StudentField(s, controls[i].field)))
  }

  /** After patching with a record, the form's value is that record's payload. */
  lemma PatchedFormValue(controls: seq<Control>, s: Student)
    requires WellFormed(controls)
    ensures WellFormed(Patched(controls, s))
    ensures FormValue(Patched(controls, s)) == ToDto(s)
  {
    var r := Patched(controls, s);
    assert forall i :: 0 <= i < |r| ==> r[i].field == controls[i].field;
  }

  /** `form.get(name)`: the control with that key, if any. */
  function Get(controls: seq<Control>, name: string): (r: Option<Control>)
    ensures r.Some? ==> r.value in controls && FieldName(r.value.field) == name
    ensures r.None? ==> forall c :: c in controls ==> FieldName(c.field) != name
  {
    if controls == [] then None
    else if FieldName(controls[0].field) == name then Some(controls[0])
    else Get(controls[1..], name)
  }

  /** In a well-formed form, `get` by a field's key finds that field's control. */
  lemma {:induction false} GetField(controls: seq<Control>, k: nat)
    requires WellFormed(controls) && k < |controls|
    ensures Get(controls, FieldName(FieldOrder[k])) == Some(controls[k])
  {
    var name := FieldName(FieldOrder[k]);
    assert forall i :: 0 <= i < k ==> FieldName(controls[i].field) != name;
    GetFirstMatch(controls, name, k);
  }

  lemma {:induction false} GetFirstMatch(controls: seq<Control>, name: string, k: nat)
    requires k < |controls| && FieldName(controls[k].field) == name
    requires forall i :: 0 <= i < k ==> FieldName(controls[i].field) != name
    ensures Get(controls, name) == Some(controls[k])
  {
    if k > 0 {
      assert FieldName(controls[0].field) != name;
      forall i | 0 <= i < k - 1 ensures FieldName(controls[1..][i].field) != name {
        assert controls[1..][i] == controls[i + 1];
      }
      GetFirstMatch(controls[1..], name, k - 1);
    }
  }

  // ---------------------------------------------------------------------
  // Lengths and character classes

  /**
   * A JavaScript string's `length`: UTF-16 code units, so a character
   * outside the Basic Multilingual Plane counts twice.
   */
  function JsLength(s: string): (n: nat)
    ensures n >= |s|
    ensures (forall i :: 0 <= i < |s| ==> s[i] as int < 0x1_0000) ==> n == |s|
  {
    if s == [] then 0
    else (if s[0] as int < 0x1_0000 then 1 else 2) + JsLength(s[1..])
  }

  /** One character is one UTF-16 code unit, or a surrogate pair above U+FFFF. */
  lemma JsLengthOfChar(c: char)
    ensures JsLength([c]) == if c as int < 0x1_0000 then 1 else 2
  {
  }

  /** The length of a concatenation is the sum of the lengths. */
  lemma {:induction false} JsLengthAppend(a: string, b: string)
    ensures JsLength(a + b) == JsLength(a) + JsLength(b)
    decreases |a|
  {
    if a != [] {
      assert (a + b)[0] == a[0];
      assert (a + b)[1..] == a[1..] + b;
      JsLengthAppend(a[1..], b);
    } else {
      assert a + b == b;
    }
  }

  predicate IsDigit(c: char) {
    '0' <= c <= '9'
  }

  /** `\s` in a JavaScript regular expression: WhiteSpace and LineTerminator code points. */
  predicate IsJsWhitespace(c: char) {
    c == '\t' || c == '\n' || c == '\U{B}' || c == '\U{C}' || c == '\r' || c == ' ' ||
    c == '\U{A0}' || c == '\U{1680}' || ('\U{2000}' <= c <= '\U{200A}') ||
    c == '\U{2028}' || c == '\U{2029}' || c == '\U{202F}' || c == '\U{205F}' ||
    c == '\U{3000}' || c == '\U{FEFF}'
  }

  /** The two bracket expressions of the form's patterns. */
  datatype CharClass =
    | PhoneChars     // [0-9\-\+\(\)\s]
    | PincodeChars   // [0-9\-]

  predicate InClass(k: CharClass, c: char) {
    match k
    case PhoneChars => IsDigit(c) || c == '-' || c == '+' || c == '(' || c == ')' || IsJsWhitespace(c)
    case PincodeChars => IsDigit(c) || c == '-'
  }

  /** `/^[k]+$/.test(s)`: one or more characters of the class, and nothing else. */
  function MatchesOneOrMore(k: CharClass, s: string): (r: bool)
    ensures r ==> |s| > 0 && InClass(k, s[0]) && InClass(k, s[|s| - 1])
    decreases |s|
  {
    |s| > 0 && InClass(k, s[0]) && (|s| == 1 || MatchesOneOrMore(k, s[1..]))
  }

  /** The anchored pattern accepts exactly the non-empty strings drawn from the class. */
  lemma {:induction false} MatchesOneOrMoreIff(k: CharClass, s: string)
    ensures MatchesOneOrMore(k, s) <==> s != [] && forall i :: 0 <= i < |s| ==> InClass(k, s[i])
    decreases |s|
  {
    if |s| > 1 {
      MatchesOneOrMoreIff(k, s[1..]);
      assert forall i :: 1 <= i < |s| ==> s[i] == s[1..][i - 1];
    }
  }

  /** `phoneValidator`: true when it reports `{ invalidPhone: true }`; the empty value passes. */
  function PhoneValidator(value: string): (invalidPhone: bool)
    ensures !invalidPhone <==>
      value == "" || forall i :: 0 <= i < |value| ==> InClass(PhoneChars, value[i])
  {
    MatchesOneOrMoreIff(PhoneChars, value);
    if value == "" then false else !MatchesOneOrMore(PhoneChars, value)
  }

  /** `pincodeValidator`: true when it reports `{ invalidPincode: true }`; the empty value passes. */
  function PincodeValidator(value: string): (invalidPincode: bool)
    ensures !invalidPincode <==>
      value == "" || forall i :: 0 <= i < |value| ==> InClass(PincodeChars, value[i])
  {
    MatchesOneOrMoreIff(PincodeChars, value);
    if value == "" then false else !MatchesOneOrMore(PincodeChars, value)
  }

  /** A letter in a pincode is rejected; digits and hyphens are not. */
  lemma PincodeExamples()
    ensures PincodeValidator("12A34")
    ensures !PincodeValidator("560-001")
    ensures !PincodeValidator("")
  {
    assert !InClass(PincodeChars, "12A34"[2]);
  }

  // ---------------------------------------------------------------------
  // Errors

  /**
   * `control.errors`: the merged results of the control's validators. The
   * lengths are the `requiredLength` of the `minlength`/`maxlength` entries;
   * `other` stands for any key no validator of this form produces.
   */
  datatype Errors = Errors(
    required: bool,
    minLength: Option<nat>,
    maxLength: Option<nat>,
    email: bool,
    invalidPhone: bool,
    invalidPincode: bool,
    other: bool)
  {
    /** `control.errors` is null. */
    predicate IsNull() {
      !required && minLength.None? && maxLength.None? && !email && !invalidPhone && !invalidPincode && !other
    }
  }

  /**
   * Runs the control's validators on its value. Angular's required fails
   * on `''`; its minlength and email validators pass `''`; its maxlength
   * compares the string's `length`. `isEmail` is Angular's email pattern.
   */
  function ControlErrors(c: Control, isEmail: string -> bool): (e: Errors)
    ensures !e.other
    ensures e.required ==> c.rules.required
    ensures e.minLength.Some? ==> e.minLength == c.rules.minLength
    ensures e.maxLength.Some? ==> e.maxLength == c.rules.maxLength
    ensures e.email ==> c.rules.email
    ensures e.invalidPhone ==> c.rules.phone
    ensures e.invalidPincode ==> c.rules.pincode
  {
    var v := c.value;
    Errors(
      required := c.rules.required && v == "",
      minLength := if c.rules.minLength.Some? && v != "" && JsLength(v) < c.rules.minLength.value
                   then c.rules.minLength else None,
      maxLength := if c.rules.maxLength.Some? && JsLength(v) > c.rules.maxLength.value
                   then c.rules.maxLength else None,
      email := c.rules.email && v != "" && !isEmail(v),
      invalidPhone := c.rules.phone && PhoneValidator(v),
      invalidPincode := c.rules.pincode && PincodeValidator(v),
      other := false)
  }

  /** The control has no errors, which is exactly when no message is shown for it. */
  predicate ControlValid(c: Control, isEmail: string -> bool)
    ensures ControlValid(c, isEmail) <==> ErrorMessage(FieldName(c.field), ControlErrors(c, isEmail)) == ""
  {
    ControlErrors(c, isEmail).IsNull()
  }

  /** `studentForm.invalid`: some control has errors, so some control shows a message. */
  predicate FormInvalid(controls: seq<Control>, isEmail: string -> bool)
    ensures FormInvalid(controls, isEmail) <==>
      exists i :: 0 <= i < |controls| && ErrorMessage(FieldName(controls[i].field), ControlErrors(controls[i], isEmail)) != ""
  {
    exists i :: 0 <= i < |controls| && !ControlValid(controls[i], isEmail)
  }

  /** Validity depends on values and validators only, never on the touched flags. */
  lemma TouchedIrrelevant(controls: seq<Control>, marked: seq<Control>, isEmail: string -> bool)
    requires |marked| == |controls|
    requires forall i :: 0 <= i < |controls| ==> marked[i] == controls[i].(touched := true)
    ensures FormInvalid(marked, isEmail) <==> FormInvalid(controls, isEmail)
  {
    assert forall i :: 0 <= i < |controls| ==>
      ControlErrors(marked[i], isEmail) == ControlErrors(controls[i], isEmail);
  }

  /** `markFormGroupTouched`: every control is marked touched, nothing else changes. */
  method MarkAllTouched(controls: seq<Control>) returns (r: seq<Control>)
    ensures |r| == |controls|
    ensures forall i :: 0 <= i < |r| ==> r[i] == controls[i].(touched := true)
  {
    r := controls;
    var i := 0;
    while i < |r|
      invariant |r| == |controls| && 0 <= i <= |r|
      invariant forall j :: 0 <= j < i ==> r[j] == controls[j].(touched := true)
      invariant forall j :: i <= j < |r| ==> r[j] == controls[j]
    {
      r := r[i := r[i].(touched := true)];
      i := i + 1;
    }
  }

  // ---------------------------------------------------------------------
  // Messages

  /** The value of a digit character; 0 for any other character. */
  function DigitValue(c: char): nat {
    if IsDigit(c) then c as int - '0' as int else 0
  }

  /** The number a string of decimal digits denotes, most significant digit first. */
  function DecimalValue(s: string): nat
    decreases |s|
  {
    if s == [] then 0 else 10 * DecimalValue(s[..|s| - 1]) + DigitValue(s[|s| - 1])
  }

  /**
   * The decimal form of a number, as a template literal renders it: the
   * digits denote `n`, with no leading zero.
   */
  function NatToString(n: nat): (s: string)
    ensures |s| >= 1
    ensures forall i :: 0 <= i < |s| ==> IsDigit(s[i])
    ensures DecimalValue(s) == n
    ensures |s| > 1 ==> s[0] != '0'
  {
    var d := ['0', '1', '2', '3', '4', '5', '6', '7', '8', '9'][n % 10];
    if n < 10 then [d] else NatToString(n / 10) + [d]
  }

  /** The error kinds `getErrorMessage` checks, in the order it checks them. */
  datatype ErrorKind = RequiredError | MinLengthError | MaxLengthError | EmailError | PhoneError | PincodeError

  const Priority: seq<ErrorKind> :=
    [RequiredError, MinLengthError, MaxLengthError, EmailError, PhoneError, PincodeError]

  predicate Has(e: Errors, k: ErrorKind) {
    match k
    case RequiredError => e.required
    case MinLengthError => e.minLength.Some?
    case MaxLengthError => e.maxLength.Some?
    case EmailError => e.email
    case PhoneError => e.invalidPhone
    case PincodeError => e.invalidPincode
  }

  /** The message for one kind of error on the field `name`. */
  function KindMessage(name: string, e: Errors, k: ErrorKind): (m: string)
    requires Has(e, k)
    ensures m != ""
  {
    match k
    case RequiredError => name + " is required"
    case MinLengthError => name + " must be at least " + NatToString(e.minLength.value) + " characters"
    case MaxLengthError => name + " cannot exceed " + NatToString(e.maxLength.value) + " characters"
    case EmailError => "Please enter a valid email"
    case PhoneError => "Please enter a valid phone number"
    case PincodeError => "Please enter a valid pincode"
  }

  /** The first kind in `Priority` the errors have, if any. */
  predicate IsFirstKind(e: Errors, i: int) {
    0 <= i < |Priority| && Has(e, Priority[i]) && forall j :: 0 <= j < i ==> !Has(e, Priority[j])
  }

  /**
   * `getErrorMessage` for a control with errors `e`: `''` when there are
   * none, else the message of the first failing check in priority order,
   * else `'Invalid input'`.
   */
  function ErrorMessage(name: string, e: Errors): (r: string)
    ensures r == "" <==> e.IsNull()
  {
    if e.IsNull() then ""
    else if e.required then KindMessage(name, e, RequiredError)
    else if e.minLength.Some? then KindMessage(name, e, MinLengthError)
    else if e.maxLength.Some? then KindMessage(name, e, MaxLengthError)
    else if e.email then KindMessage(name, e, EmailError)
    else if e.invalidPhone then KindMessage(name, e, PhoneError)
    else if e.invalidPincode then KindMessage(name, e, PincodeError)
    else "Invalid input"
  }

  /** The message reports the first failing check in priority order. */
  lemma ErrorMessagePriority(name: string, e: Errors, i: int)
    requires IsFirstKind(e, i)
    ensures ErrorMessage(name, e) == KindMessage(name, e, Priority[i])
  {
    assert forall j :: 0 <= j < i ==> !Has(e, Priority[j]);
    if i >= 1 { assert !Has(e, Priority[0]); }
    if i >= 2 { assert !Has(e, Priority[1]); }
    if i >= 3 { assert !Has(e, Priority[2]); }
    if i >= 4 { assert !Has(e, Priority[3]); }
    if i >= 5 { assert !Has(e, Priority[4]); }
  }

  /** Errors of no known kind fall back to `'Invalid input'`. */
  lemma ErrorMessageFallback(name: string, e: Errors)
    requires !e.IsNull() && forall k :: !Has(e, k)
    ensures ErrorMessage(name, e) == "Invalid input"
  {
    assert !Has(e, RequiredError) && !Has(e, MinLengthError) && !Has(e, MaxLengthError);
    assert !Has(e, EmailError) && !Has(e, PhoneError) && !Has(e, PincodeError);
  }

  /** `getErrorMessage(fieldName)` on a whole form. */
  function FormErrorMessage(controls: seq<Control>, name: string, isEmail: string -> bool): (r: string)
    ensures Get(controls, name).None? ==> r == ""
    ensures Get(controls, name).Some? ==>
      (r == "" <==> ControlValid(Get(controls, name).value, isEmail))
  {
    match Get(controls, name)
    case None => ""
    case Some(c) => ErrorMessage(name, ControlErrors(c, isEmail))
  }

  /** In a well-formed form, each field's key reports that field's control. */
  lemma FormErrorMessageOfFields(controls: seq<Control>, isEmail: string -> bool)
    requires WellFormed(controls)
    ensures forall k :: 0 <= k < |controls| ==>
      FormErrorMessage(controls, FieldName(FieldOrder[k]), isEmail) ==
      ErrorMessage(FieldName(FieldOrder[k]), ControlErrors(controls[k], isEmail))
  {
    forall k | 0 <= k < |controls| {
      GetField(controls, k);
    }
  }

  /**
   * On this form's controls the `'Invalid input'` fallback is dead: an
   * invalid control always reports its first failing check.
   */
  lemma ControlMessageIsFirstFailure(name: string, c: Control, isEmail: string -> bool)
    requires !ControlValid(c, isEmail)
    ensures exists i :: (IsFirstKind(ControlErrors(c, isEmail), i) &&
      ErrorMessage(name, ControlErrors(c, isEmail)) == KindMessage(name, ControlErrors(c, isEmail), Priority[i]))
  {
    var e := ControlErrors(c, isEmail);
    var i := if e.required then 0
             else if e.minLength.Some? then 1
             else if e.maxLength.Some? then 2
             else if e.email then 3
             else if e.invalidPhone then 4
             else 5;
    assert IsFirstKind(e, i);
    ErrorMessagePriority(name, e, i);
  }
}
