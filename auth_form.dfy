/**
 * The browser form's submit handler (`handlesubmit`): it picks the server route from the
 * form type, folds the form's entries into an object, and runs the same rules as the server
 * before posting, stopping at the first that fails. Also the submit button's label.
 */
module AuthForm {
  import opened Wrappers
  import opened Text
  import opened Patterns

  /** `type === "sign-in" ? "/signin" : "/signup"` */
  function ServerRoute(formType: string): (route: string)
    ensures route == "/signin" <==> formType == "sign-in"
    ensures route == "/signup" <==> formType != "sign-in"
  {
    if formType == "sign-in" then "/signin" else "/signup"
  }

  /** The submit button's text, `type.replace("-", " ")`: the first `-`, if any, becomes a space. */
  function ButtonLabel(formType: string): (caption: string)
    ensures |caption| == |formType|
    ensures '-' !in formType ==> caption == formType
    ensures '-' in formType ==>
              var i := FirstIndex(formType, '-');
              && caption[..i] == formType[..i]
              && caption[i] == ' '
              && caption[i + 1..] == formType[i + 1..]
  {
    ReplaceFirst(formType, '-', ' ')
  }

  /** In a type whose first `-` follows `head`, that dash and no other becomes a space. */
  lemma LabelOfDashed(head: string, tail: string)
    requires '-' !in head
    ensures ButtonLabel(head + "-" + tail) == head + " " + tail
  {
    var formType := head + "-" + tail;
    var caption := ButtonLabel(formType);
    assert formType[..|head|] == head;
    assert formType[|head|] == '-';
    var i := FirstIndex(formType, '-');
    assert i == |head|;
    assert formType[i + 1..] == tail;
    assert caption == caption[..i] + [caption[i]] + caption[i + 1..];
  }

  /** The sign-in form's button reads "sign in". */
  lemma SignInLabel()
    ensures ButtonLabel("sign-in") == "sign in"
  {
    assert "sign" + "-" + "in" == "sign-in";
    LabelOfDashed("sign", "in");
  }

  /** Only the first `-` becomes a space. */
  lemma OnlyFirstDashReplaced()
    ensures ButtonLabel("a-b-c") == "a b-c"
  {
    assert "a-b-c"[0] != '-' && "a-b-c"[1..] == "-b-c";
  }

  // ---------------------------------------------------------------------------
  // Building the form data

  /** A `FormData` entry: a field name and its value. */
  type Entry = (string, string)

  /** The object `formData[key] = value` builds from the entries, in order; it has at most one key per entry. */
  function FormDataOf(entries: seq<Entry>): (formData: map<string, string>)
    ensures |formData| <= |entries|
    decreases |entries|
  {
    if entries == [] then map[]
    else
      var init := entries[..|entries| - 1];
      var last := entries[|entries| - 1];
      FormDataOf(init)[last.0 := last.1]
  }

  /** `entries[i]` is the last entry named `entries[i].0`. */
  predicate IsLastOfItsName(entries: seq<Entry>, i: int)
    requires 0 <= i < |entries|
  {
    forall j :: i < j < |entries| ==> entries[j].0 != entries[i].0
  }

  /** The object has a key for every entry name and no other, and each key holds the value of its last entry. */
  lemma {:induction false} FormDataLastWins(entries: seq<Entry>)
    ensures forall key :: key in FormDataOf(entries) <==> exists i :: 0 <= i < |entries| && entries[i].0 == key
    ensures forall i :: 0 <= i < |entries| && IsLastOfItsName(entries, i) ==> FormDataOf(entries)[entries[i].0] == entries[i].1
    decreases |entries|
  {
    if entries != [] {
      var n := |entries| - 1;
      var init := entries[..n];
      FormDataLastWins(init);
      forall key
        ensures key in FormDataOf(entries) <==> exists i :: 0 <= i < |entries| && entries[i].0 == key
      {
        if key in FormDataOf(init) {
          var i :| 0 <= i < |init| && init[i].0 == key;
          assert entries[i] == init[i];
        }
        if i :| 0 <= i < |entries| && entries[i].0 == key {
          if i < n {
            assert init[i] == entries[i];
          }
        }
      }
      forall i | 0 <= i < |entries| && IsLastOfItsName(entries, i)
        ensures FormDataOf(entries)[entries[i].0] == entries[i].1
      {
        if i < n {
          assert entries[n].0 != entries[i].0;
          assert init[i] == entries[i];
          assert IsLastOfItsName(init, i) by {
            forall j | i < j < |init|
              ensures init[j].0 != init[i].0
            {
              assert init[j] == entries[j];
            }
          }
        }
      }
    }
  }

  /** The `for (let [key, value] of form.entries())` loop. */
  method CollectFormData(entries: seq<Entry>) returns (formData: map<string, string>)
    ensures formData == FormDataOf(entries)
  {
    formData := map[];
    var i := 0;
    while i < |entries|
      invariant 0 <= i <= |entries|
      invariant formData == FormDataOf(entries[..i])
    {
      var (key, value) := entries[i];
      assert entries[..i + 1][..i] == entries[..i];
      formData := formData[key := value];
      i := i + 1;
    }
    assert entries[..|entries|] == entries;
  }

  // ---------------------------------------------------------------------------
  // Validation before posting

  /** `let { fullname, email, password } = formData`: a missing key reads as `undefined`. */
  function Field(formData: map<string, string>, name: string): (v: Option<string>)
    ensures v.Some? <==> name in formData
    ensures v.Some? ==> v.value == formData[name]
  {
    if name in formData then Some(formData[name]) else None
  }

  /** The four client-side rules, in the order they are checked. */
  datatype FormRule = FieldsGiven | NameLongEnough | EmailValid | PasswordStrong

  function RuleRank(rule: FormRule): nat {
    match rule
    case FieldsGiven => 0
    case NameLongEnough => 1
    case EmailValid => 2
    case PasswordStrong => 3
  }

  /** The toast shown when `rule` fails. */
  function Toast(rule: FormRule): string {
    match rule
    case FieldsGiven => "Please enter all fields"
    case NameLongEnough => "Fullname must be at least 3 characters"
    case EmailValid => "Please enter a valid email"
    case PasswordStrong => "Password must be 6 to 20 characters which contain at least one numeric digit, one uppercase and one lowercase letter"
  }

  /** Whether the fields satisfy `rule`, looked at on its own. The fullname rule only applies to a fullname that is given. */
  predicate Holds(fullname: Option<string>, email: Option<string>, password: Option<string>, rule: FormRule) {
    match rule
    case FieldsGiven => !Falsy(email) && !Falsy(password)
    case NameLongEnough => Falsy(fullname) || |fullname.value| >= 3
    case EmailValid => email.Some? && IsEmail(email.value)
    case PasswordStrong => password.Some? && IsStrongPassword(password.value)
  }

  /** The chain of early returns: the first rule that fails, or None when the form may be posted. */
  function CheckForm(fullname: Option<string>, email: Option<string>, password: Option<string>): (failed: Option<FormRule>)
    ensures failed.None? ==> forall rule :: Holds(fullname, email, password, rule)
    ensures failed.Some? ==>
              && !Holds(fullname, email, password, failed.value)
              && forall rule :: RuleRank(rule) < RuleRank(failed.value) ==> Holds(fullname, email, password, rule)
  {
    if Falsy(email) || Falsy(password) then Some(FieldsGiven)
    else if !Falsy(fullname) && |fullname.value| < 3 then Some(NameLongEnough)
    else if !IsEmail(email.value) then Some(EmailValid)
    else if !IsStrongPassword(password.value) then Some(PasswordStrong)
    else None
  }

  /** What one submission does: post the form data to a route, or show one error toast. */
  datatype Submission = Post(route: string, formData: map<string, string>) | ToastError(message: string)

  /** `handlesubmit`: route, form data, validation, then either one toast or the post. */
  method HandleSubmit(formType: string, entries: seq<Entry>) returns (s: Submission)
    ensures var formData := FormDataOf(entries);
      var failed := CheckForm(Field(formData, "fullname"), Field(formData, "email"), Field(formData, "password"));
      && (s.Post? <==> failed.None?)
      && (s.Post? ==> s == Post(ServerRoute(formType), formData))
      && (s.ToastError? ==> s.message == Toast(failed.value))
  {
    var serverRoute := ServerRoute(formType);
    var formData := CollectFormData(entries);
    var fullname, email, password := Field(formData, "fullname"), Field(formData, "email"), Field(formData, "password");
    var failed := CheckForm(fullname, email, password);
    if failed.Some? {
      return ToastError(Toast(failed.value));
    }
    s := Post(serverRoute, formData);
  }
}
