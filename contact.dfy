/**
 * The contact form controller: the three-field validation schema, the
 * per-field error map, the field-edit handler and the submit handler with
 * its `isSubmitting` / `isSuccess` flags.
 *
 * The remote insert and the toast are foreign calls: an insert is recorded
 * in a log and its outcome arrives as a separate event; a toast is recorded
 * in a log. The schema library's e-mail check is the parameter `isEmail`.
 */
module ContactForm {
  import opened Wrappers

  /** The three inputs, identified by their element ids. */
  datatype Field = Name | Email | Message

  /** `formData`: the contents of the three inputs, untrimmed. */
  datatype FormData = FormData(name: string, email: string, message: string)
  {
    function Get(f: Field): string
    {
      match f
      case Name => name
      case Email => email
      case Message => message
    }

    /** `{ ...prev, [id]: value }` */
    function Set(f: Field, v: string): (d: FormData)
      ensures d.Get(f) == v
      ensures forall g :: g != f ==> d.Get(g) == Get(g)
    {
      match f
      case Name => this.(name := v)
      case Email => this.(email := v)
      case Message => this.(message := v)
    }
  }

  const EmptyForm := FormData("", "", "")

  // ---------------------------------------------------------------- trimming

  /** The characters String.prototype.trim removes: ECMAScript WhiteSpace and LineTerminator. */
  predicate IsJsWhitespace(c: char)
  {
    || c == '\t' || c == '\n' || c == '\U{000B}' || c == '\U{000C}' || c == '\r' || c == ' '
    || c == '\U{00A0}' || c == '\U{1680}' || ('\U{2000}' <= c <= '\U{200A}')
    || c == '\U{2028}' || c == '\U{2029}' || c == '\U{202F}' || c == '\U{205F}'
    || c == '\U{3000}' || c == '\U{FEFF}'
  }

  predicate AllWhitespace(s: string)
  {
    forall i :: 0 <= i < |s| ==> IsJsWhitespace(s[i])
  }

  /** Drops the leading whitespace. */
  function TrimStart(s: string): string
    decreases |s|
  {
    if s != [] && IsJsWhitespace(s[0]) then TrimStart(s[1..]) else s
  }

  /** Drops the trailing whitespace. */
  function TrimEnd(s: string): string
    decreases |s|
  {
    if s != [] && IsJsWhitespace(s[|s| - 1]) then TrimEnd(s[..|s| - 1]) else s
  }

  /** JavaScript's `trim`. */
  function Trim(s: string): string
  {
    TrimEnd(TrimStart(s))
  }

  /** `TrimStart` keeps a suffix, drops only whitespace, and leaves no whitespace in front. */
  lemma {:induction false} TrimStartSpec(s: string)
    ensures var r := TrimStart(s);
            && |r| <= |s| && r == s[|s| - |r|..]
            && AllWhitespace(s[..|s| - |r|])
            && (r == [] || !IsJsWhitespace(r[0]))
    decreases |s|
  {
    if s != [] && IsJsWhitespace(s[0]) {
      TrimStartSpec(s[1..]);
      var r := TrimStart(s);
      assert s[1..][|s| - 1 - |r|..] == s[|s| - |r|..];
      assert s[..|s| - |r|] == [s[0]] + s[1..][..|s| - 1 - |r|];
    }
  }

  /** `TrimEnd` keeps a prefix, drops only whitespace, and leaves no whitespace at the end. */
  lemma {:induction false} TrimEndSpec(s: string)
    ensures var r := TrimEnd(s);
            && |r| <= |s| && r == s[..|r|]
            && AllWhitespace(s[|r|..])
            && (r == [] || !IsJsWhitespace(r[|r| - 1]))
    decreases |s|
  {
    if s != [] && IsJsWhitespace(s[|s| - 1]) {
      var front := s[..|s| - 1];
      TrimEndSpec(front);
      var r := TrimEnd(s);
      assert front[..|r|] == s[..|r|];
      assert s[|r|..] == front[|r|..] + [s[|s| - 1]];
    }
  }

  /** `s` is `r` with whitespace `s[..k]` before it and whitespace after it. */
  ghost predicate Surrounds(s: string, k: nat, r: string)
  {
    && k + |r| <= |s|
    && s[k..k + |r|] == r
    && AllWhitespace(s[..k])
    && AllWhitespace(s[k + |r|..])
  }

  /**
   * `trim` removes whitespace from both ends and nothing else, and what
   * remains neither starts nor ends with whitespace.
   */
  lemma TrimSpec(s: string)
    ensures var r := Trim(s);
            && (r == [] || (!IsJsWhitespace(r[0]) && !IsJsWhitespace(r[|r| - 1])))
            && exists k: nat :: Surrounds(s, k, r)
  {
    var t := TrimStart(s);
    var r := TrimEnd(t);
    TrimStartSpec(s);
    TrimEndSpec(t);
    assert s[|s| - |t|..][..|r|] == s[|s| - |t|..|s| - |t| + |r|];
    assert t[|r|..] == s[|s| - |t| + |r|..];
    assert Surrounds(s, |s| - |t|, r);
  }

  /** Trimming twice trims nothing more. */
  lemma TrimIdempotent(s: string)
    ensures Trim(Trim(s)) == Trim(s)
  {
    var r := Trim(s);
    TrimSpec(s);
    assert TrimStart(r) == r;
    assert TrimEnd(r) == r;
  }

  /** A string of whitespace only trims to the empty string. */
  lemma {:induction false} TrimAllWhitespace(s: string)
    requires AllWhitespace(s)
    ensures Trim(s) == ""
  {
    TrimStartAllWhitespace(s);
    assert TrimEnd("") == "";
  }

  lemma {:induction false} TrimStartAllWhitespace(s: string)
    requires AllWhitespace(s)
    ensures TrimStart(s) == ""
    decreases |s|
  {
    if s != [] {
      TrimStartAllWhitespace(s[1..]);
    }
  }

  /** A name typed with surrounding spaces is stored without them. */
  lemma TrimExample()
    ensures Trim(" Jane ") == "Jane"
  {
    assert TrimStart(" Jane ") == TrimStart("Jane ");
    assert TrimEnd("Jane ") == TrimEnd("Jane");
  }

  // ----------------------------------------------------------- the schema

  const NameMax := 100
  const EmailMax := 255
  const MessageMax := 1000

  const NameRequired := "Name is required"
  const InvalidEmail := "Invalid email address"
  const MessageRequired := "Message is required"
  /** The schema library's default messages for `.max(n)`. */
  const NameTooLong := "String must contain at most 100 character(s)"
  const EmailTooLong := "String must contain at most 255 character(s)"
  const MessageTooLong := "String must contain at most 1000 character(s)"

  /** One issue the schema reports: the field it is about and its message. */
  datatype Issue = Issue(field: Field, message: string)

  /** `safeParse`: the trimmed data, or every issue found. */
  datatype ParseResult = Parsed(data: FormData) | Rejected(issues: seq<Issue>)

  /** What the schema demands of one trimmed value, stated independently of the order of its checks. */
  predicate Accepts(f: Field, v: string, isEmail: string -> bool)
  {
    match f
    case Name => 1 <= |v| <= NameMax
    case Email => isEmail(v) && |v| <= EmailMax
    case Message => 1 <= |v| <= MessageMax
  }

  /**
   * The issues of one trimmed value, in the order of the field's checks.
   * Every check runs: a value may collect more than one issue.
   */
  function FieldIssues(f: Field, v: string, isEmail: string -> bool): (r: seq<Issue>)
    ensures forall i :: 0 <= i < |r| ==> r[i].field == f
    ensures r == [] <==> Accepts(f, v, isEmail)
  {
    match f
    case Name =>
      (if |v| < 1 then [Issue(Name, NameRequired)] else [])
      + (if |v| > NameMax then [Issue(Name, NameTooLong)] else [])
    case Email =>
      (if !isEmail(v) then [Issue(Email, InvalidEmail)] else [])
      + (if |v| > EmailMax then [Issue(Email, EmailTooLong)] else [])
    case Message =>
      (if |v| < 1 then [Issue(Message, MessageRequired)] else [])
      + (if |v| > MessageMax then [Issue(Message, MessageTooLong)] else [])
  }

  /** The data a successful parse returns: each field trimmed. */
  function Trimmed(d: FormData): FormData
  {
    FormData(Trim(d.name), Trim(d.email), Trim(d.message))
  }

  /** The object schema's issue list: the name's issues, then the e-mail's, then the message's. */
  function Issues(d: FormData, isEmail: string -> bool): seq<Issue>
  {
    FieldIssues(Name, Trim(d.name), isEmail)
    + FieldIssues(Email, Trim(d.email), isEmail)
    + FieldIssues(Message, Trim(d.message), isEmail)
  }

  /** Every field holds a value the schema accepts once trimmed. */
  predicate AllAccepted(d: FormData, isEmail: string -> bool)
  {
    forall f :: Accepts(f, Trim(d.Get(f)), isEmail)
  }

  /** `contactSchema.safeParse(formData)` */
  function SafeParse(d: FormData, isEmail: string -> bool): (r: ParseResult)
    ensures r.Parsed? <==> AllAccepted(d, isEmail)
    ensures r.Parsed? ==> forall f :: r.data.Get(f) == Trim(d.Get(f))
    ensures r.Rejected? ==> r.issues != []
    ensures r.Rejected? ==> forall i :: 0 <= i < |r.issues| ==>
              !Accepts(r.issues[i].field, Trim(d.Get(r.issues[i].field)), isEmail)
  {
    IssuesOfFailing(d, isEmail);
    var issues := Issues(d, isEmail);
    if issues == [] then Parsed(Trimmed(d)) else Rejected(issues)
  }

  /** The form's issues are empty exactly when every field is accepted, and each is about a failing field. */
  lemma IssuesOfFailing(d: FormData, isEmail: string -> bool)
    ensures Issues(d, isEmail) == [] <==> AllAccepted(d, isEmail)
    ensures forall i :: 0 <= i < |Issues(d, isEmail)| ==>
              !Accepts(Issues(d, isEmail)[i].field, Trim(d.Get(Issues(d, isEmail)[i].field)), isEmail)
  {
    var n := FieldIssues(Name, Trim(d.name), isEmail);
    var e := FieldIssues(Email, Trim(d.email), isEmail);
    var m := FieldIssues(Message, Trim(d.message), isEmail);
    var all := n + e + m;
    assert all == Issues(d, isEmail);
    assert AllAccepted(d, isEmail) <==> n == [] && e == [] && m == [] by {
      assert d.Get(Name) == d.name && d.Get(Email) == d.email && d.Get(Message) == d.message;
    }
    forall i | 0 <= i < |all| ensures !Accepts(all[i].field, Trim(d.Get(all[i].field)), isEmail) {
      if i < |n| {
        assert all[i] == n[i];
      } else if i < |n| + |e| {
        assert all[i] == e[i - |n|];
      } else {
        assert all[i] == m[i - |n| - |e|];
      }
    }
  }

  /** Validation is idempotent: data that passed, parsed again, passes unchanged. */
  lemma ReparseTrimmed(d: FormData, isEmail: string -> bool)
    requires SafeParse(d, isEmail).Parsed?
    ensures SafeParse(SafeParse(d, isEmail).data, isEmail) == SafeParse(d, isEmail)
  {
    TrimIdempotent(d.name);
    TrimIdempotent(d.email);
    TrimIdempotent(d.message);
  }

  /** A submission with a space-padded name and well-formed other fields is accepted and stored trimmed. */
  lemma ParseExample(isEmail: string -> bool)
    requires isEmail("jane@example.com")
    ensures SafeParse(FormData(" Jane ", "jane@example.com", "Hello there"), isEmail)
         == Parsed(FormData("Jane", "jane@example.com", "Hello there"))
  {
    TrimExample();
    var e, m := "jane@example.com", "Hello there";
    assert TrimStart(e) == e && TrimEnd(e) == e;
    assert TrimStart(m) == m && TrimEnd(m) == m;
  }

  // ------------------------------------------------------ the error map

  /** The fields some issue is about. */
  function FieldsOf(issues: seq<Issue>): set<Field>
  {
    set i | 0 <= i < |issues| :: issues[i].field
  }

  /** `fieldErrors[err.path[0]] = err.message` for each issue in turn: the last message per field wins. */
  function FieldErrorMap(issues: seq<Issue>): map<Field, string>
  {
    if issues == [] then map[]
    else
      var last := issues[|issues| - 1];
      FieldErrorMap(issues[..|issues| - 1])[last.field := last.message]
  }

  /** The error map has an entry for exactly the fields the issues are about. */
  lemma {:induction false} FieldErrorMapKeys(issues: seq<Issue>)
    ensures FieldErrorMap(issues).Keys == FieldsOf(issues)
  {
    if issues != [] {
      var front := issues[..|issues| - 1];
      FieldErrorMapKeys(front);
      assert FieldsOf(issues) == FieldsOf(front) + {issues[|issues| - 1].field} by {
        forall f | f in FieldsOf(issues) ensures f in FieldsOf(front) + {issues[|issues| - 1].field} {
          var i :| 0 <= i < |issues| && issues[i].field == f;
          if i < |issues| - 1 { assert front[i] == issues[i]; }
        }
        forall f | f in FieldsOf(front) ensures f in FieldsOf(issues) {
          var i :| 0 <= i < |front| && front[i].field == f;
          assert issues[i] == front[i];
        }
      }
    }
  }

  /** The entry for a field is the message of the last issue about it. */
  lemma {:induction false} FieldErrorMapLast(issues: seq<Issue>, k: nat)
    requires k < |issues|
    requires forall j :: k < j < |issues| ==> issues[j].field != issues[k].field
    ensures issues[k].field in FieldErrorMap(issues)
    ensures FieldErrorMap(issues)[issues[k].field] == issues[k].message
  {
    if k < |issues| - 1 {
      var front := issues[..|issues| - 1];
      assert front[k] == issues[k];
      FieldErrorMapLast(front, k);
    }
  }

  /** The `forEach` over the reported issues that fills `fieldErrors`. */
  method CollectFieldErrors(issues: seq<Issue>) returns (fieldErrors: map<Field, string>)
    ensures fieldErrors == FieldErrorMap(issues)
    ensures fieldErrors.Keys == FieldsOf(issues)
  {
    fieldErrors := map[];
    var i := 0;
    while i < |issues|
      invariant 0 <= i <= |issues|
      invariant fieldErrors == FieldErrorMap(issues[..i])
    {
      assert issues[..i + 1][..i] == issues[..i];
      fieldErrors := fieldErrors[issues[i].field := issues[i].message];
      i := i + 1;
    }
    assert issues[..i] == issues;
    FieldErrorMapKeys(issues);
  }

  /** The issues of the whole form are about exactly the fields that fail. */
  lemma IssueFields(d: FormData, isEmail: string -> bool)
    ensures forall f :: f in FieldsOf(Issues(d, isEmail)) <==> !Accepts(f, Trim(d.Get(f)), isEmail)
  {
    var n := FieldIssues(Name, Trim(d.name), isEmail);
    var e := FieldIssues(Email, Trim(d.email), isEmail);
    var m := FieldIssues(Message, Trim(d.message), isEmail);
    var all := Issues(d, isEmail);
    assert all == n + e + m;
    IssuesOfFailing(d, isEmail);
    forall f ensures f in FieldsOf(all) <==> !Accepts(f, Trim(d.Get(f)), isEmail) {
      if !Accepts(f, Trim(d.Get(f)), isEmail) {
        match f
        case Name => assert all[0] == n[0];
        case Email => assert all[|n|] == e[0];
        case Message => assert all[|n| + |e|] == m[0];
      }
    }
  }

  /** In `pre + own + post`, when `own` ends with an issue about `f` and `post` has none, the entry for `f` is that issue's message. */
  lemma BlockLast(pre: seq<Issue>, own: seq<Issue>, post: seq<Issue>, f: Field)
    requires own != [] && own[|own| - 1].field == f
    requires forall j :: 0 <= j < |post| ==> post[j].field != f
    ensures f in FieldErrorMap(pre + own + post)
    ensures FieldErrorMap(pre + own + post)[f] == own[|own| - 1].message
  {
    var all := pre + own + post;
    var k := |pre| + |own| - 1;
    assert all[k] == own[|own| - 1];
    forall j | k < j < |all| ensures all[j].field != f {
      assert all[j] == post[j - k - 1];
    }
    FieldErrorMapLast(all, k);
  }

  /** On a rejected submission the error map has an entry for every failing field and none for a passing one. */
  lemma RejectedErrorFields(d: FormData, isEmail: string -> bool)
    ensures forall f :: f in FieldErrorMap(Issues(d, isEmail)) <==> !Accepts(f, Trim(d.Get(f)), isEmail)
  {
    FieldErrorMapKeys(Issues(d, isEmail));
    IssueFields(d, isEmail);
  }

  /** The name's entry: "Name is required" when it trims to nothing, the length message when it is too long. */
  lemma NameError(d: FormData, isEmail: string -> bool)
    ensures var errs, name := FieldErrorMap(Issues(d, isEmail)), Trim(d.name);
            && (name == "" ==> Name in errs && errs[Name] == NameRequired)
            && (|name| > NameMax ==> Name in errs && errs[Name] == NameTooLong)
  {
    var n := FieldIssues(Name, Trim(d.name), isEmail);
    var e := FieldIssues(Email, Trim(d.email), isEmail);
    var m := FieldIssues(Message, Trim(d.message), isEmail);
    if n != [] {
      BlockLast([], n, e + m, Name);
      assert [] + n + (e + m) == Issues(d, isEmail);
    }
  }

  /**
   * The e-mail's entry: "Invalid email address" when the shape check refuses
   * it, unless it is also too long, when the length message, reported after
   * it, overwrites it.
   */
  lemma EmailError(d: FormData, isEmail: string -> bool)
    ensures var errs, email := FieldErrorMap(Issues(d, isEmail)), Trim(d.email);
            && (!isEmail(email) && |email| <= EmailMax ==> Email in errs && errs[Email] == InvalidEmail)
            && (|email| > EmailMax ==> Email in errs && errs[Email] == EmailTooLong)
  {
    var n := FieldIssues(Name, Trim(d.name), isEmail);
    var e := FieldIssues(Email, Trim(d.email), isEmail);
    var m := FieldIssues(Message, Trim(d.message), isEmail);
    if e != [] {
      BlockLast(n, e, m, Email);
    }
  }

  /** The message's entry: "Message is required" when it trims to nothing, the length message when it is too long. */
  lemma MessageError(d: FormData, isEmail: string -> bool)
    ensures var errs, msg := FieldErrorMap(Issues(d, isEmail)), Trim(d.message);
            && (msg == "" ==> Message in errs && errs[Message] == MessageRequired)
            && (|msg| > MessageMax ==> Message in errs && errs[Message] == MessageTooLong)
  {
    var n := FieldIssues(Name, Trim(d.name), isEmail);
    var e := FieldIssues(Email, Trim(d.email), isEmail);
    var m := FieldIssues(Message, Trim(d.message), isEmail);
    if m != [] {
      BlockLast(n + e, m, [], Message);
      assert n + e + m + [] == Issues(d, isEmail);
    }
  }

  /** An e-mail the shape check refuses fails, whatever the other fields hold; so does the empty e-mail. */
  lemma BadEmailRejected(d: FormData, isEmail: string -> bool)
    requires !isEmail(Trim(d.email)) || |Trim(d.email)| > EmailMax
    ensures SafeParse(d, isEmail).Rejected?
    ensures Email in FieldErrorMap(Issues(d, isEmail))
  {
    assert !Accepts(Email, Trim(d.Get(Email)), isEmail);
    RejectedErrorFields(d, isEmail);
  }

  // ------------------------------------------------------ the controller

  /** What the awaited insert reports: acknowledgement, or an error (returned or thrown) with its `message`, if any. */
  datatype InsertOutcome = Acknowledged | Failed(message: Option<string>)

  /** A toast: title, description and whether it uses the destructive variant. */
  datatype Toast = Toast(title: string, description: string, destructive: bool)

  const SuccessToast := Toast("Message sent!", "Thanks for reaching out. I'll get back to you soon!", false)
  const ErrorTitle := "Error sending message"
  const FallbackDescription := "Please try again later."

  /** `err.message || "Please try again later."`: a missing or empty message falls back. */
  function ErrorDescription(message: Option<string>): (r: string)
    ensures r != ""
    ensures message.Some? && message.value != "" ==> r == message.value
    ensures message.None? || message.value == "" ==> r == FallbackDescription
  {
    if message.Some? && message.value != "" then message.value else FallbackDescription
  }

  /** `errors[id]` is truthy: an entry holding a non-empty message. */
  predicate HasError(errors: map<Field, string>, f: Field)
  {
    f in errors && errors[f] != ""
  }

  /** The fields hold exactly what the schema accepts and are already trimmed. */
  predicate IsSubmission(data: FormData, isEmail: string -> bool)
  {
    forall f :: Trim(data.Get(f)) == data.Get(f) && Accepts(f, data.Get(f), isEmail)
  }

  class Form {
    /** The schema library's e-mail shape check. */
    const isEmail: string -> bool

    var formData: FormData
    var errors: map<Field, string>
    var isSubmitting: bool
    var isSuccess: bool
    /** The insert whose outcome the handler is awaiting. */
    var inFlight: Option<FormData>
    /** Every insert issued, in order. */
    var inserts: seq<FormData>
    /** Every toast shown, in order. */
    var toasts: seq<Toast>
    /** Success timers scheduled and not yet fired. */
    var pendingTimers: nat

    ghost predicate Valid()
      reads this
    {
      && (isSubmitting <==> inFlight.Some?)
      && (inFlight.Some? ==> inserts != [] && inFlight.value == inserts[|inserts| - 1])
      && (forall k :: 0 <= k < |inserts| ==> IsSubmission(inserts[k], isEmail))
    }

    constructor (isEmail: string -> bool)
      ensures Valid()
      ensures this.isEmail == isEmail
      ensures formData == EmptyForm && errors == map[]
      ensures !isSubmitting && !isSuccess
      ensures inFlight == None && inserts == [] && toasts == [] && pendingTimers == 0
    {
      this.isEmail := isEmail;
      formData := EmptyForm;
      errors := map[];
      isSubmitting := false;
      isSuccess := false;
      inFlight := None;
      inserts := [];
      toasts := [];
      pendingTimers := 0;
    }

    /** The submit button is disabled while an insert is awaited. */
    function SubmitDisabled(): (r: bool)
      reads this
      requires Valid()
      ensures r <==> inFlight.Some?
    {
      isSubmitting
    }

    /** `handleChange`: store the new value and clear that field's error, if it shows one. */
    method HandleChange(f: Field, value: string)
      requires Valid()
      modifies this
      ensures Valid()
      ensures formData == old(formData).Set(f, value)
      ensures formData.Get(f) == value
      ensures forall g :: g != f ==> formData.Get(g) == old(formData).Get(g)
      ensures !HasError(errors, f)
      ensures HasError(old(errors), f) ==> errors == old(errors)[f := ""]
      ensures !HasError(old(errors), f) ==> errors == old(errors)
      ensures forall g :: g != f ==> (g in errors <==> g in old(errors)) && (g in errors ==> errors[g] == old(errors)[g])
      ensures isSubmitting == old(isSubmitting) && isSuccess == old(isSuccess) && inFlight == old(inFlight)
      ensures inserts == old(inserts) && toasts == old(toasts) && pendingTimers == old(pendingTimers)
    {
      formData := formData.Set(f, value);
      if HasError(errors, f) {
        errors := errors[f := ""];
      }
    }

    /**
     * A submit of the form. While an insert is awaited the submit button is
     * disabled and nothing happens. Otherwise `handleSubmit` runs up to its
     * `await`: it clears the errors and parses the form; on rejection it
     * fills the error map and returns, else it sets `isSubmitting` and issues
     * one insert of the trimmed data.
     */
    method SubmitEvent()
      requires Valid()
      modifies this
      ensures Valid()
      ensures formData == old(formData) && isSuccess == old(isSuccess)
      ensures toasts == old(toasts) && pendingTimers == old(pendingTimers)
      ensures old(isSubmitting) ==>
                errors == old(errors) && isSubmitting && inFlight == old(inFlight) && inserts == old(inserts)
      ensures !old(isSubmitting) && SafeParse(old(formData), isEmail).Rejected? ==>
                && errors == FieldErrorMap(Issues(old(formData), isEmail))
                && !isSubmitting && inserts == old(inserts)
      ensures !old(isSubmitting) && SafeParse(old(formData), isEmail).Parsed? ==>
                && errors == map[] && isSubmitting
                && inFlight == Some(Trimmed(old(formData)))
                && inserts == old(inserts) + [Trimmed(old(formData))]
    {
      if isSubmitting {
        return;
      }
      errors := map[];
      var result := SafeParse(formData, isEmail);
      if result.Rejected? {
        errors := CollectFieldErrors(result.issues);
        return;
      }
      isSubmitting := true;
      forall f ensures Trim(result.data.Get(f)) == result.data.Get(f) {
        TrimIdempotent(formData.Get(f));
      }
      inserts := inserts + [result.data];
      inFlight := Some(result.data);
    }

    /**
     * The awaited insert settles. On acknowledgement the form is cleared,
     * `isSuccess` is set, the confirmation toast is shown and the 3-second
     * timer is scheduled; on an error the fields are kept and the error toast
     * is shown. Either way `isSubmitting` ends false.
     */
    method InsertSettled(outcome: InsertOutcome)
      requires Valid() && isSubmitting
      modifies this
      ensures Valid()
      ensures !isSubmitting && inFlight == None
      ensures errors == old(errors) && inserts == old(inserts)
      ensures outcome.Acknowledged? ==>
                && formData == EmptyForm && isSuccess
                && toasts == old(toasts) + [SuccessToast]
                && pendingTimers == old(pendingTimers) + 1
      ensures outcome.Failed? ==>
                && formData == old(formData) && isSuccess == old(isSuccess)
                && toasts == old(toasts) + [Toast(ErrorTitle, ErrorDescription(outcome.message), true)]
                && pendingTimers == old(pendingTimers)
    {
      match outcome {
        case Acknowledged =>
          isSuccess := true;
          formData := EmptyForm;
          toasts := toasts + [SuccessToast];
          pendingTimers := pendingTimers + 1;
        case Failed(message) =>
          toasts := toasts + [Toast(ErrorTitle, ErrorDescription(message), true)];
      }
      isSubmitting := false;
      inFlight := None;
    }

    /** A scheduled success timer fires: `setIsSuccess(false)`, nothing else. */
    method SuccessTimerFired()
      requires Valid() && pendingTimers > 0
      modifies this
      ensures Valid()
      ensures !isSuccess && pendingTimers == old(pendingTimers) - 1
      ensures formData == old(formData) && errors == old(errors)
      ensures isSubmitting == old(isSubmitting) && inFlight == old(inFlight)
      ensures inserts == old(inserts) && toasts == old(toasts)
    {
      isSuccess := false;
      pendingTimers := pendingTimers - 1;
    }
  }
}
