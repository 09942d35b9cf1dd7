/** What happens when the registration form is submitted (app.py:79-110):
    the gate in front of the request, and the classification of what the
    registration endpoint answers.

    The request itself is not modelled: the endpoint's answer is an input,
    a status code with the body's `error` field when there is one, or a
    connection failure.
 */
module Registration {

  import opened Wrappers
  import PasswordPolicy

  /** The registration form's fields, as sent in the JSON body. */
  datatype Form = Form(
    username: string,
    email: string,
    name: string,
    password: string,
    age: int,
    city: string,
    phoneNumber: string)

  /** What the POST to the register endpoint produced. */
  datatype Response =
    | Reply(statusCode: int, errorField: Option<string>)
    | ConnectionError

  /** The status code the endpoint answers a created account with. */
  const Created: int := 201

  /** What the form does with a submission, before any request. */
  datatype Gate =
    | Mismatch                    // the two password fields differ
    | Weak(errors: seq<string>)   // the password fails some rules
    | Send(body: Form)            // the form is posted

  /** How the endpoint's answer is read. */
  datatype Verdict =
    | Accepted
    | Rejected(reason: string)
    | Unreachable

  /** A message shown on the page: `st.error` or `st.success`. */
  datatype Notice = Error(text: string) | Success(text: string)

  const MismatchMessage: string := "Passwords do not match."
  const SuccessMessage: string := "Registration successful! You can now log in."
  const FailurePrefix: string := "Registration failed: "
  const UnknownError: string := "Unknown error"
  /** The single message of app.py:110, written as its two sentences. */
  const ConnectionMessage: string :=
    "Could not connect to the server." + " Please ensure the Django backend is running."

  /** The submit gate: a mismatch is checked first, then the password rules. */
  ghost function Decide(form: Form, confirm: string): Gate
  {
    if form.password != confirm then Mismatch
    else if PasswordPolicy.Validate(form.password) != [] then Weak(PasswordPolicy.Validate(form.password))
    else Send(form)
  }

  /** The failure reason: the body's `error` field, or "Unknown error". */
  function Reason(errorField: Option<string>): string
  {
    match errorField
    case Some(e) => e
    case None => UnknownError
  }

  /** Reading the endpoint's answer. */
  function Classify(response: Response): Verdict
  {
    match response
    case Reply(code, field) => if code == Created then Accepted else Rejected(Reason(field))
    case ConnectionError => Unreachable
  }

  /** The notice shown for a verdict. */
  function VerdictNotice(v: Verdict): Notice
  {
    match v
    case Accepted => Success(SuccessMessage)
    case Rejected(reason) => Error(FailurePrefix + reason)
    case Unreachable => Error(ConnectionMessage)
  }

  /** One error notice per message. */
  function Errors(messages: seq<string>): (ns: seq<Notice>)
    ensures |ns| == |messages|
    ensures forall i :: 0 <= i < |messages| ==> ns[i] == Error(messages[i])
  {
    if messages == [] then [] else [Error(messages[0])] + Errors(messages[1..])
  }

  /** The notices a submission shows; `response` is read only when the form
      is posted. */
  ghost function Notices(form: Form, confirm: string, response: Response): seq<Notice>
  {
    match Decide(form, confirm)
    case Mismatch => [Error(MismatchMessage)]
    case Weak(errors) => Errors(errors)
    case Send(_) => [VerdictNotice(Classify(response))]
  }

  /** The submit branch: validate, then refuse on a mismatch, refuse on a
      weak password, otherwise post the form and report the answer. */
  method HandleSubmit(form: Form, confirm: string, response: Response)
    returns (notices: seq<Notice>, request: Option<Form>)
    ensures notices == Notices(form, confirm, response)
    ensures request == if Decide(form, confirm).Send? then Some(form) else None
  {
    var passwordErrors := PasswordPolicy.ValidatePassword(form.password);
    if form.password != confirm {
      assert Decide(form, confirm) == Mismatch;
      notices, request := [Error(MismatchMessage)], None;
    } else if passwordErrors != [] {
      notices := [];
      for i := 0 to |passwordErrors|
        invariant notices == Errors(passwordErrors[..i])
      {
        ErrorsSnoc(passwordErrors, i);
        notices := notices + [Error(passwordErrors[i])];
      }
      assert passwordErrors[..|passwordErrors|] == passwordErrors;
      assert Decide(form, confirm) == Weak(passwordErrors);
      request := None;
    } else {
      assert Decide(form, confirm) == Send(form);
      request := Some(form);
      var verdict := Classify(response);
      notices := [VerdictNotice(verdict)];
    }
  }

  /** Extending the prefix by one message adds its notice. */
  lemma ErrorsSnoc(messages: seq<string>, i: nat)
    requires i < |messages|
    ensures Errors(messages[..i + 1]) == Errors(messages[..i]) + [Error(messages[i])]
  {
    assert messages[..i + 1] == messages[..i] + [messages[i]];
    ErrorsAppend(messages[..i], [messages[i]]);
  }

  /** Errors distributes over concatenation. */
  lemma ErrorsAppend(a: seq<string>, b: seq<string>)
    ensures Errors(a + b) == Errors(a) + Errors(b)
  {
    var lhs, rhs := Errors(a + b), Errors(a) + Errors(b);
    forall i | 0 <= i < |a + b|
      ensures lhs[i] == rhs[i]
    {
      if i < |a| {
        assert (a + b)[i] == a[i];
      } else {
        assert (a + b)[i] == b[i - |a|];
      }
    }
  }

  /** Differing passwords are refused with the one mismatch notice and no
      request, whatever the password rules say. */
  lemma MismatchBlocksRequest(form: Form, confirm: string, response: Response)
    requires form.password != confirm
    ensures Decide(form, confirm) == Mismatch
    ensures Notices(form, confirm, response) == [Error(MismatchMessage)]
  {
  }

  /** Matching but weak passwords show every rule message, in order, as
      errors, and send nothing. */
  lemma WeakPasswordShowsEveryError(form: Form, confirm: string, response: Response)
    requires form.password == confirm
    requires PasswordPolicy.Validate(form.password) != []
    ensures !Decide(form, confirm).Send?
    ensures |Notices(form, confirm, response)| == |PasswordPolicy.Validate(form.password)|
    ensures forall i :: 0 <= i < |PasswordPolicy.Validate(form.password)| ==>
      Notices(form, confirm, response)[i] == Error(PasswordPolicy.Validate(form.password)[i])
  {
  }

  /** A request is sent iff the passwords agree and meet all five rules, and
      what is sent is the form as filled in. */
  lemma RequestSentIff(form: Form, confirm: string)
    ensures Decide(form, confirm).Send? <==>
      form.password == confirm && forall r :: PasswordPolicy.Satisfies(form.password, r)
    ensures Decide(form, confirm).Send? ==> Decide(form, confirm).body == form
  {
    PasswordPolicy.ValidateMessages(form.password);
  }

  /** Only status 201 is a success; every other status is a failure carrying
      the body's `error` field or "Unknown error"; a connection failure has
      its own notice, distinct from every failure and from success. */
  lemma ClassifyOutcomes(response: Response)
    ensures Classify(response) == Accepted <==> response.Reply? && response.statusCode == Created
    ensures response.Reply? && response.statusCode != Created ==>
      VerdictNotice(Classify(response)) == Error(FailurePrefix + Reason(response.errorField))
    ensures response.Reply? && response.statusCode != Created && response.errorField == None ==>
      VerdictNotice(Classify(response)) == Error("Registration failed: Unknown error")
    ensures VerdictNotice(Classify(response)) == Error(ConnectionMessage) <==> response == ConnectionError
  {
    if response.Reply? && response.statusCode != Created {
      assert FailurePrefix + Reason(response.errorField) != ConnectionMessage by {
        assert (FailurePrefix + Reason(response.errorField))[0] == 'R' && ConnectionMessage[0] == 'C';
      }
    }
  }

  /** A rejected request's notice is "Registration failed: " followed by the
      endpoint's error text, which it therefore ends with. */
  lemma FailureNoticeCarriesError(code: int, error: string)
    requires code != Created
    ensures VerdictNotice(Classify(Reply(code, Some(error)))) == Error("Registration failed: " + error)
    ensures var text := VerdictNotice(Classify(Reply(code, Some(error)))).text;
      |text| >= |error| && text[|text| - |error|..] == error
  {
    var text := FailurePrefix + error;
    assert text[|text| - |error|..] == error;
  }
}
