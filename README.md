# Student CRUD client — verified model

This project models the logic of an Angular single-page client for a
"student" record collection:

* **`StudentService`**: the client-side state container. It holds the
  snapshot of the student list, the `loading` flag and the `error`
  message (`string | null`). Each of its five operations (list, get one,
  create, update, delete) raises `loading`, issues one HTTP request, and
  settles in one of two ways. On success it applies a snapshot
  transformation and clears `error`. On failure it publishes a derived
  message and leaves the snapshot alone. In both cases `loading` drops.
* **The create and edit form components**: the per-field validators,
  the phone and pincode character classes, the priority order of the
  field messages, and the submit gate. An invalid form has every control
  marked touched and never calls the service. A valid form issues exactly
  one request (the edit form also needs a truthy key; otherwise it too
  marks every control touched and sends nothing).

Files and modules:

| file | module | models |
|---|---|---|
| `wrappers.dfy` | `Wrappers` | `Option`, for `T \| null` |
| `student_model.dfy` | `StudentModel` | `Student`, `CreateStudentDto`, the spread merge `{...s, ...dto}` |
| `snapshot.dfy` | `Snapshot` | the four snapshot transformations, as pure functions, with their properties |
| `student_service.dfy` | `StudentService` | the error-message fallback and the `Service` class (start and settle steps) |
| `forms.dfy` | `Forms` | controls, validators, errors, JavaScript string length and `\s`, mark-touched, messages |
| `student_form.dfy` | `StudentForm` | the create component (`CreateComponent`) and its field limits |
| `student_edit.dfy` | `StudentEdit` | the edit component (`EditComponent`) |

How the asynchrony is modelled. Each asynchronous operation becomes a
`Start…` method followed by one of the `Settle…` methods. `Start` stands
for `setLoading(true)` plus the HTTP call. The settle methods stand for
the `tap`, `catchError` and `finalize` handlers. The outcome of the HTTP
call is an argument of the settle method. The service keeps `sent`, the
list of requests it has issued, so that "the service is called exactly
once" can be stated. A settle method needs nothing beyond `Valid()`, and
nothing ties it to a matching `Start…`: `finalize` lowers `loading` even
while another request is still in flight.

The phone and pincode checks are the anchored patterns `^[0-9\-\+\(\)\s]+$`
and `^[0-9\-]+$`. Each is modelled as a one-or-more matcher over its
character class. `Forms.MatchesOneOrMoreIff` proves that the matcher
accepts exactly the non-empty strings made of characters from the class.
`\s` is JavaScript's whitespace set. Length limits count UTF-16 code
units, as JavaScript's `length` does. Both components declare the same
validators; the model defines them once in `Forms` and checks that the two
rule tables are equal (`StudentEdit.SameRulesAsCreateForm`).

`deleteStudent` filters out every record with the key, so a delete
shortens the snapshot by exactly one only when keys are unique
(`Snapshot.DeleteLength`).

The edit component takes its key from `params['id']`
(`src/app/components/student-edit/student-edit.component.ts:41`). At run
time that value is a string, while the service compares `s.stdid === id`
strictly (`src/app/services/student.service.ts:73`). So an update made from
the edit page matches no snapshot entry, and the snapshot stays as it was.
The string key also changes which keys are truthy: the route key `"0"` is
a non-empty string, so the component loads record 0
(`src/app/components/student-edit/student-edit.component.ts:42`) and a
valid form sends its update (line 113), while the model's numeric key 0 is
falsy and blocks both. The model follows the declared type `number | null`
(`Option<int>`) and records the mismatch in a comment on
`StudentEdit.IdTruthy`.

## Model

| member | source | states |
|---|---|---|
| `StudentModel.Merge` | src/app/services/student.service.ts:73 | the merge keeps the record's `stdid`; every payload field overwrites the record's |
| `StudentModel.MergeOwnFields` | src/app/services/student.service.ts:73 | merging a record's own fields back into it gives the same record |
| `StudentModel.MergeTwice` | src/app/services/student.service.ts:73 | of two merges, only the later one has any effect |
| `Snapshot.Appended` | src/app/services/student.service.ts:57-60 | after a create: length grows by one, the old snapshot is an unchanged prefix, and the returned record is last |
| `Snapshot.AppendedUniqueIds` | src/app/services/student.service.ts:57-60 | appending keeps keys unique iff the new key is not already present |
| `Snapshot.UpdatedById` | src/app/services/student.service.ts:72-75 | after an update: same length; each record with the key is merged with the payload; every other record is unchanged |
| `Snapshot.UpdateKeepsIds` | src/app/services/student.service.ts:72-75 | an update leaves the sequence of keys unchanged |
| `Snapshot.UpdateMissIsNoOp` | src/app/services/student.service.ts:72-75 | updating a key that is absent leaves the snapshot unchanged |
| `Snapshot.UpdateHitCarriesPayload` | src/app/services/student.service.ts:73 | a matched record keeps its key and afterwards carries exactly the payload |
| `Snapshot.UpdateIdempotent` | src/app/services/student.service.ts:72-75 | applying the same update twice equals applying it once |
| `Snapshot.UpdateKeepsUniqueIds` | src/app/services/student.service.ts:72-75 | an update keeps keys unique |
| `Snapshot.UpdateWithOwnFieldsIsNoOp` | src/app/services/student.service.ts:72-75 | on unique keys, updating a record with its own fields leaves the snapshot unchanged |
| `Snapshot.DeletedById` | src/app/services/student.service.ts:88-90 | after a delete: a record remains iff it was present and has another key; the length drops by the number of matches |
| `Snapshot.DeleteRemovesId` | src/app/services/student.service.ts:88-90 | after a delete, no record has the key |
| `Snapshot.DeleteKeepsOrder` | src/app/services/student.service.ts:88-90 | delete distributes over concatenation, so the remaining records keep their order |
| `Snapshot.DeleteIdempotent` | src/app/services/student.service.ts:88-90 | deleting twice equals deleting once |
| `Snapshot.DeleteMissIsNoOp` | src/app/services/student.service.ts:88-90 | deleting an absent key leaves the snapshot unchanged |
| `Snapshot.DeleteLength` | src/app/services/student.service.ts:88-90 | on unique keys, a delete removes one record if the key is present and none otherwise |
| `Snapshot.DeleteKeepsUniqueIds` | src/app/services/student.service.ts:88-90 | a delete keeps keys unique |
| `StudentService.ErrorText` | src/app/services/student.service.ts:103-107 | the message is the body's message if truthy (`Truthy`: present and non-empty), else the transport message if truthy, else `'An error occurred'`; it is never empty |
| `StudentService.EmptyMessagesFallThrough` | src/app/services/student.service.ts:105 | empty body and transport messages fall through to the next candidate |
| `StudentService.Service.constructor` | src/app/services/student.service.ts:19-26 | the service starts with an empty snapshot, `loading` false, no error and no requests sent |
| `StudentService.Service.SetLoading` | src/app/services/student.service.ts:99-101 | sets `loading` and changes nothing else |
| `StudentService.Service.ClearError` | src/app/services/student.service.ts:109-111 | clears `error` and changes nothing else |
| `StudentService.Service.ForwardError` | src/app/services/student.service.ts:113-116 | publishes the derived message, returns the same failure to the caller, and leaves the snapshot unchanged |
| `StudentService.Service.GetStudentsSnapshot` | src/app/services/student.service.ts:119-121 | returns the current snapshot |
| `StudentService.Service.Issue` | src/app/services/student.service.ts:32-33 | starting an operation sets `loading` and appends exactly one request; snapshot and error are unchanged |
| `StudentService.Service.SettleFailure` | src/app/services/student.service.ts:38-39 | on any failure: snapshot unchanged, `error` is the derived non-empty message, `loading` false, the failure is rethrown |
| `StudentService.Service.StartGetAll` | src/app/services/student.service.ts:32-33 | `loading` true; one `GET /Student` sent |
| `StudentService.Service.SettleGetAllSuccess` | src/app/services/student.service.ts:34-39 | the snapshot becomes exactly the fetched list; `error` null; `loading` false |
| `StudentService.Service.StartGetById` | src/app/services/student.service.ts:45-46 | `loading` true; one `GET /Student/{id}` sent |
| `StudentService.Service.SettleGetByIdSuccess` | src/app/services/student.service.ts:47-49 | the snapshot is untouched; `error` cleared; `loading` false; the record is passed on |
| `StudentService.Service.StartCreate` | src/app/services/student.service.ts:55-56 | `loading` true; one `POST /Student` with the payload sent |
| `StudentService.Service.SettleCreateSuccess` | src/app/services/student.service.ts:57-63 | the snapshot is the old one with the returned record appended; `error` null; `loading` false |
| `StudentService.Service.StartUpdate` | src/app/services/student.service.ts:69-70 | `loading` true; one `PUT /Student/{id}` with the payload sent |
| `StudentService.Service.SettleUpdateSuccess` | src/app/services/student.service.ts:71-79 | the snapshot is the merge-by-key of the old one; `error` null; `loading` false |
| `StudentService.Service.StartDelete` | src/app/services/student.service.ts:85-86 | `loading` true; one `DELETE /Student/{id}` sent |
| `StudentService.Service.SettleDeleteSuccess` | src/app/services/student.service.ts:87-94 | the snapshot is the old one with the key filtered out; `error` null; `loading` false |
| `StudentService.CreateOnEmptySnapshot` | src/app/services/student.service.ts:54-64 | on a fresh service, a create that succeeds leaves the snapshot as exactly the returned record, with one request sent |
| `StudentService.FailureThenSuccess` | src/app/services/student.service.ts:67-96 | a failed update leaves the snapshot alone; a later successful delete clears the error and lowers `loading` |
| `Forms.InitialControls` | src/app/components/student-form/student-form.component.ts:51-60 | the form has its eight controls in order, each with value `''`, untouched, and carrying its own validators |
| `Forms.FormValue` | src/app/components/student-form/student-form.component.ts:90 | each field of the submitted payload is the value of the control with the same key |
| `Forms.Patched` | src/app/components/student-edit/student-edit.component.ts:81 | `patchValue` sets each control to the record's field of the same key and changes nothing else |
| `Forms.PatchedFormValue` | src/app/components/student-edit/student-edit.component.ts:81 | after patching with a record, the form value is that record's payload |
| `Forms.Get` | src/app/components/student-form/student-form.component.ts:133 | `form.get(name)` returns a control with that key, or nothing when no such control exists |
| `Forms.GetField` | src/app/components/student-form/student-form.component.ts:133 | in the form, each field's key finds that field's control |
| `Forms.FormErrorMessageOfFields` | src/app/components/student-form/student-form.component.ts:133-134 | for each field's key, the form-level message is that control's message |
| `Forms.JsLength` | src/app/components/student-form/student-form.component.ts:52-59 | a string's `length` is never less than its number of characters, and equal to it for BMP-only strings |
| `Forms.JsLengthOfChar` | src/app/components/student-form/student-form.component.ts:52-59 | one character counts as one UTF-16 code unit below U+10000 and as two (a surrogate pair) above |
| `Forms.JsLengthAppend` | src/app/components/student-form/student-form.component.ts:52-59 | the length of a concatenation is the sum of the lengths; with `JsLengthOfChar` this fixes the UTF-16 count of every string |
| `Forms.MatchesOneOrMoreIff` | src/app/components/student-form/student-form.component.ts:68-69 | an anchored one-or-more class pattern accepts exactly the non-empty strings drawn from the class |
| `Forms.MatchesOneOrMore` | src/app/components/student-form/student-form.component.ts:68-69 | an accepted string is non-empty and its first and last characters are in the class; the exact language is given by `MatchesOneOrMoreIff` |
| `Forms.PhoneValidator` | src/app/components/student-form/student-form.component.ts:66-70 | accepts `''`, and otherwise accepts iff every character is a digit, `-`, `+`, `(`, `)` or JavaScript whitespace |
| `Forms.PincodeValidator` | src/app/components/student-form/student-form.component.ts:75-79 | accepts `''`, and otherwise accepts iff every character is a digit or `-` |
| `Forms.PincodeExamples` | src/app/components/student-form/student-form.component.ts:77-78 | `"12A34"` is rejected; `"560-001"` and `''` are accepted |
| `Forms.ControlErrors` | src/app/components/student-form/student-form.component.ts:51-60 | each error kind appears only when the control carries that validator, a length error reports the control's own limit, and no unknown error key ever appears |
| `Forms.TouchedIrrelevant` | src/app/components/student-form/student-form.component.ts:108-113 | marking controls touched never changes whether the form is valid |
| `Forms.ControlValid` | src/app/components/student-form/student-form.component.ts:134 | a control has no errors exactly when no message is shown for it |
| `Forms.FormInvalid` | src/app/components/student-form/student-form.component.ts:85 | the form is invalid exactly when some control shows a message |
| `Forms.MarkAllTouched` | src/app/components/student-form/student-form.component.ts:108-113 | every control is marked touched; keys, values and validators are unchanged |
| `Forms.NatToString` | src/app/components/student-form/student-form.component.ts:137-138 | a length renders as its decimal digits: they denote the length (`DecimalValue`) and have no leading zero |
| `Forms.KindMessage` | src/app/components/student-form/student-form.component.ts:136-141 | each error kind has a non-empty message |
| `Forms.ErrorMessage` | src/app/components/student-form/student-form.component.ts:132-144 | the message is `''` iff the control has no errors |
| `Forms.ErrorMessagePriority` | src/app/components/student-form/student-form.component.ts:136-141 | the message reports the first failing check in the order required, minlength, maxlength, email, invalidPhone, invalidPincode |
| `Forms.ErrorMessageFallback` | src/app/components/student-form/student-form.component.ts:143 | errors of no known kind yield `'Invalid input'` |
| `Forms.FormErrorMessage` | src/app/components/student-form/student-form.component.ts:132-134 | an unknown key yields `''`; a known key yields `''` iff its control is valid |
| `Forms.ControlMessageIsFirstFailure` | src/app/components/student-form/student-form.component.ts:132-144 | an invalid control of this form always reports its first failing check, never the fallback |
| `StudentForm.NameLimits` | src/app/components/student-form/student-form.component.ts:52 | `stdname` is accepted iff its length is between 2 and 100 |
| `StudentForm.MobileLimits` | src/app/components/student-form/student-form.component.ts:53 | `mobileno` is accepted iff its length is at most 15 and it is empty or all phone characters |
| `StudentForm.EmailLimits` | src/app/components/student-form/student-form.component.ts:54 | `email` is accepted iff its length is at most 100 and it is empty or passes the email pattern |
| `StudentForm.PincodeLimits` | src/app/components/student-form/student-form.component.ts:57 | `pincode` is accepted iff its length is at most 10 and it is empty or all digits and hyphens |
| `StudentForm.FreeTextLimits` | src/app/components/student-form/student-form.component.ts:55-59 | `city` and `state` are accepted iff their length is at most 50; `address1` and `address2` iff at most 255 |
| `StudentForm.EmptyNameIsRequired` | src/app/components/student-form/student-form.component.ts:136 | an empty name makes the form invalid, with the message "stdname is required" |
| `StudentForm.CreateFormRules` | src/app/components/student-form/student-form.component.ts:51-60 | only the name is required and has a minimum length; every control has a maximum length; the email, phone and pincode validators sit on exactly the email, mobile and pincode controls |
| `StudentForm.CreateComponent.Invalid` | src/app/components/student-form/student-form.component.ts:85 | the component's form is invalid exactly when some control shows a message |
| `StudentForm.ShortNameMessage` | src/app/components/student-form/student-form.component.ts:137 | a name of one character below U+10000 (one UTF-16 unit) gives "stdname must be at least 2 characters" |
| `StudentForm.LetterInPincodeRejected` | src/app/components/student-form/student-form.component.ts:141 | a pincode `"12A34"` makes the form invalid, with "Please enter a valid pincode" |
| `StudentForm.CreateComponent.constructor` | src/app/components/student-form/student-form.component.ts:33-34 | the component starts with the initial form and no success message |
| `StudentForm.CreateComponent.Input` | src/app/components/student-form/student-form.component.ts:51-60 | a user edit changes one control's value and nothing else; the validators stay attached |
| `StudentForm.CreateComponent.MarkFormGroupTouched` | src/app/components/student-form/student-form.component.ts:108-113 | every control becomes touched and nothing else changes |
| `StudentForm.CreateComponent.OnSubmit` | src/app/components/student-form/student-form.component.ts:84-92 | if the form is invalid, every control is touched and the service is unchanged; otherwise exactly one create with the form value is sent |
| `StudentForm.CreateComponent.SettleSubmitSuccess` | src/app/components/student-form/student-form.component.ts:92-94 | the snapshot gains the returned record; the success message names the returned `stdname` |
| `StudentForm.CreateComponent.SettleSubmitFailure` | src/app/components/student-form/student-form.component.ts:92-101 | the snapshot is unchanged, the error is published and `loading` drops |
| `StudentForm.CreateComponent.ClearSuccessMessage` | src/app/components/student-form/student-form.component.ts:125-127 | the success message is cleared |
| `StudentForm.CreateComponent.GetErrorMessage` | src/app/components/student-form/student-form.component.ts:132-144 | an unknown key yields `''`; a field's key yields its control's message, which is `''` iff the control is valid |
| `StudentEdit.SameRulesAsCreateForm` | src/app/components/student-edit/student-edit.component.ts:62-71 | the edit form puts the same validators on every control as the create form |
| `StudentEdit.EditFormRules` | src/app/components/student-edit/student-edit.component.ts:61-72 | the same placement of validators as the create form: required and minimum length only on the name, a maximum length everywhere, email, phone and pincode only on their own controls |
| `StudentEdit.EditComponent.Invalid` | src/app/components/student-edit/student-edit.component.ts:113 | the component's form is invalid exactly when some control shows a message |
| `StudentEdit.SaveUnchangedRecordIsNoOp` | src/app/components/student-edit/student-edit.component.ts:118-120 | loading a record and saving it unchanged leaves a unique-key snapshot unchanged |
| `StudentEdit.EditComponent.constructor` | src/app/components/student-edit/student-edit.component.ts:36-37 | the component starts with the initial form, no key, no message, and not loading |
| `StudentEdit.EditComponent.Activate` | src/app/components/student-edit/student-edit.component.ts:40-45 | the route key is stored; a truthy key (`IdTruthy`: present and not 0) starts loading that record, and any other key leaves the service unchanged |
| `StudentEdit.EditComponent.LoadStudent` | src/app/components/student-edit/student-edit.component.ts:77-79 | `isLoadingStudent` becomes true and one fetch of the key is sent |
| `StudentEdit.EditComponent.SettleLoadSuccess` | src/app/components/student-edit/student-edit.component.ts:80-83 | the form takes the record's values; `isLoadingStudent` becomes false; the snapshot is untouched |
| `StudentEdit.EditComponent.SettleLoadFailure` | src/app/components/student-edit/student-edit.component.ts:84-87 | `isLoadingStudent` becomes false, the form is unchanged and the error is published |
| `StudentEdit.EditComponent.MarkFormGroupTouched` | src/app/components/student-edit/student-edit.component.ts:136-141 | every control becomes touched and nothing else changes |
| `StudentEdit.EditComponent.OnSubmit` | src/app/components/student-edit/student-edit.component.ts:112-120 | if the form is invalid or the key falsy (absent or 0), every control is touched and the service is unchanged; otherwise exactly one update of the key with the form value is sent |
| `StudentEdit.EditComponent.SettleSubmitSuccess` | src/app/components/student-edit/student-edit.component.ts:120-122 | the snapshot is merged by key; the success message is exactly 'Student updated successfully!' |
| `StudentEdit.EditComponent.SettleSubmitFailure` | src/app/components/student-edit/student-edit.component.ts:120-129 | the snapshot is unchanged, the error is published and `loading` drops |
| `StudentEdit.EditComponent.ClearSuccessMessage` | src/app/components/student-edit/student-edit.component.ts:153-155 | the success message is cleared |
| `StudentEdit.EditComponent.GetErrorMessage` | src/app/components/student-edit/student-edit.component.ts:160-172 | same result and priority as the create form: `''` for unknown keys, else the control's message |
| `StudentEdit.EditRoundTrip` | src/app/components/student-edit/student-edit.component.ts:77-131 | loading a snapshot record, saving it unchanged, and the update succeeding leaves the snapshot as it was and sets the notice |

## Left out

- HTTP transport, URL construction and the environment base URL: network I/O. Each request's outcome is an argument of a settle method.
- RxJS observables, subject push semantics and ordering of intermediate publications to subscribers: the model keeps only the state after each handler has run. The components' `loading`/`error` mirrors of the service signals and their `takeUntil` teardown are subscription plumbing.
- Races between overlapping requests: modelled only to the extent that settle methods need no matching start. No interleaving is explored. Also not modelled: a request is only issued once its observable is subscribed (every caller here subscribes).
- `Validators.email`: Angular's email pattern is a parameter `isEmail` of each component, not a definition. The rule that Angular's required/minlength/email validators treat `''` as empty follows Angular's documented behaviour.
- `patchValue` of fields that are null or missing on the record: the model's record always has all eight string fields.
- Control values other than strings (null, numbers): every control holds a string.
- `setTimeout` delayed navigation, `router.navigate`, `cancel()`, and `ActivatedRoute` parameter parsing. Routing and timers.
- `console.error` logging, templates and CSS.
- The list and detail components, the route table, app configuration and bootstrap. These only forward to the service, navigate, or confirm deletes in a browser dialog.
- `StudentEdit.EditComponent.OnSubmit`: the key is an `int`, as declared, so the string key the router really supplies, which never matches a numeric `stdid`, is not modelled.
