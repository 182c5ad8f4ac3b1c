/**
 * The candidate form controller: reading the submitted fields, validating
 * them in order, and choosing between editing and creating a record.
 * The DOM, the toast messages and the change notification are not modelled;
 * the outcome of a submission says which of them would follow.
 */
module CandidateForm {
  import opened Wrappers
  import opened Text
  import opened JsValues
  import opened CandidateStore

  /** The checkbox field that a form-data enumeration omits when unchecked. */
  const TalentPoolField: string := "quickAddRefToTalentPool"

  /**
   * `readFormData`: the form's text entries, each trimmed, and the talent-pool
   * checkbox read from its element (false when the element is missing).
   */
  function ReadFormData(entries: map<string, string>, talentPoolBox: Option<bool>): (payload: Object)
    ensures payload.Keys == entries.Keys + {TalentPoolField}
    ensures payload[TalentPoolField] == Bool(talentPoolBox == Some(true))
    ensures forall k :: k in entries && k != TalentPoolField ==> payload[k] == Str(Trim(entries[k]))
    ensures forall k :: k in payload && payload[k].Str? ==> IsTrimmed(payload[k].s)
  {
    (map k | k in entries :: Str(Trim(entries[k])))[TalentPoolField := Bool(talentPoolBox == Some(true))]
  }

  /** The rules `validate` checks, in the order it checks them. */
  datatype ValidationError = FullNameRequired | AppliedDateRequired | InvalidEmail | InvalidPhone

  /** The message shown for each failed rule. */
  function Message(e: ValidationError): (m: string)
    ensures m != []
  {
    match e
    case FullNameRequired => "Vui lòng nhập Họ và tên."
    case AppliedDateRequired => "Vui lòng chọn Ngày ứng tuyển."
    case InvalidEmail => "Email không hợp lệ."
    case InvalidPhone => "Số điện thoại không hợp lệ."
  }

  /** Neither whitespace nor '@': the class `[^\s@]`. */
  predicate NoSpaceOrAt(t: string) {
    forall i :: 0 <= i < |t| ==> !IsWhitespace(t[i]) && t[i] != '@'
  }

  /**
   * The regular expression `^[^\s@]+@[^\s@]+\.[^\s@]+$`: the text splits as
   * `a@b.c` with `a`, `b`, `c` non-empty and free of whitespace and '@'.
   */
  ghost predicate MatchesEmailPattern(s: string) {
    exists i, j :: 0 < i && i + 1 < j && j + 1 < |s| && s[i] == '@' && s[j] == '.'
      && NoSpaceOrAt(s[..i]) && NoSpaceOrAt(s[i + 1..j]) && NoSpaceOrAt(s[j + 1..])
  }

  /** The first index of `c` in `s`. */
  function IndexOf(s: string, c: char): (r: Option<nat>)
    ensures r.Some? ==> r.value < |s| && s[r.value] == c
    ensures r.Some? ==> forall i :: 0 <= i < r.value ==> s[i] != c
    ensures r.None? ==> forall i :: 0 <= i < |s| ==> s[i] != c
  {
    if s == [] then None
    else if s[0] == c then Some(0)
    else
      match IndexOf(s[1..], c)
      case None => None
      case Some(i) => Some(i + 1)
  }

  /** A '.' that is neither the first nor the last character. */
  predicate HasInnerDot(d: string) {
    exists m :: 0 < m < |d| - 1 && d[m] == '.'
  }

  /**
   * The accepted e-mail shape, stated directly: no whitespace, exactly one
   * '@' with text before it, and a '.' strictly inside the part after it.
   */
  predicate IsEmailShape(s: string) {
    && NoWhitespace(s)
    && match IndexOf(s, '@')
       case None => false
       case Some(at) => 0 < at && (forall i :: at < i < |s| ==> s[i] != '@') && HasInnerDot(s[at + 1..])
  }

  /** The direct statement of the e-mail shape accepts exactly what the regular expression accepts. */
  lemma EmailShapeMatchesPattern(s: string)
    ensures IsEmailShape(s) <==> MatchesEmailPattern(s)
  {
    if IsEmailShape(s) {
      ShapeMatchesPattern(s);
    }
    if MatchesEmailPattern(s) {
      PatternHasShape(s);
    }
  }

  /** Every string of the direct shape matches the regular expression. */
  lemma ShapeMatchesPattern(s: string)
    requires IsEmailShape(s)
    ensures MatchesEmailPattern(s)
  {
    var at := IndexOf(s, '@').value;
    var d := s[at + 1..];
    var m :| 0 < m < |d| - 1 && d[m] == '.';
    var j := at + 1 + m;
    assert s[j] == '.';
    assert NoSpaceOrAt(s[..at]);
    assert NoSpaceOrAt(s[at + 1..j]);
    assert NoSpaceOrAt(s[j + 1..]);
  }

  /** Every match of the regular expression has the direct shape. */
  lemma PatternHasShape(s: string)
    requires MatchesEmailPattern(s)
    ensures IsEmailShape(s)
  {
    var i, j :| 0 < i && i + 1 < j && j + 1 < |s| && s[i] == '@' && s[j] == '.'
      && NoSpaceOrAt(s[..i]) && NoSpaceOrAt(s[i + 1..j]) && NoSpaceOrAt(s[j + 1..]);
    PiecesCoverAll(s, i, j);
    assert NoWhitespace(s);
    FirstIndex(s, '@', i);
    var d := s[i + 1..];
    assert d[j - i - 1] == '.';
    assert HasInnerDot(d);
  }

  /** A position holding `c` with no `c` before it is the first index of `c`. */
  lemma FirstIndex(s: string, c: char, i: nat)
    requires i < |s| && s[i] == c
    requires forall k :: 0 <= k < i ==> s[k] != c
    ensures IndexOf(s, c) == Some(i)
  {
  }

  /** Outside the '@' and the '.', every character of a match is neither whitespace nor '@'. */
  lemma PiecesCoverAll(s: string, i: nat, j: nat)
    requires 0 < i && i + 1 < j && j + 1 < |s| && s[i] == '@' && s[j] == '.'
    requires NoSpaceOrAt(s[..i]) && NoSpaceOrAt(s[i + 1..j]) && NoSpaceOrAt(s[j + 1..])
    ensures forall k :: 0 <= k < |s| && k != i && k != j ==> !IsWhitespace(s[k]) && s[k] != '@'
  {
    forall k | 0 <= k < |s| && k != i && k != j ensures !IsWhitespace(s[k]) && s[k] != '@' {
      if k < i {
        assert s[k] == s[..i][k];
      } else if k < j {
        assert s[k] == s[i + 1..j][k - i - 1];
      } else {
        assert s[k] == s[j + 1..][k - j - 1];
      }
    }
  }

  /** A phone number is acceptable when it has 9 to 11 digits, whatever else it contains. */
  predicate IsPhoneShape(s: string) {
    9 <= |Digits(s)| <= 11
  }

  /** Separators in a phone number never change whether it is accepted. */
  lemma PhoneShapeIgnoresSeparators(s: string)
    ensures IsPhoneShape(s) <==> IsPhoneShape(Digits(s))
  {
    DigitsOfDigits(Digits(s));
  }

  /** Whether the e-mail rule is satisfied: an empty (falsy) e-mail is never rejected. */
  predicate EmailOk(payload: Object) {
    Truthy(Get(payload, "email")) ==> IsEmailShape(TextOf(Get(payload, "email")))
  }

  /** Whether the phone rule is satisfied: an empty (falsy) phone is never rejected. */
  predicate PhoneOk(payload: Object) {
    Truthy(Get(payload, "phone")) ==> IsPhoneShape(TextOf(Get(payload, "phone")))
  }

  /**
   * `validate`: the first failing rule among full name, applied date, e-mail
   * shape and phone digit count; `Pass` when all hold.
   */
  function Validate(payload: Object): (r: Outcome<ValidationError>)
    ensures !Truthy(Get(payload, "fullName")) ==> r == Fail(FullNameRequired)
    ensures r == Fail(AppliedDateRequired)
        <==> Truthy(Get(payload, "fullName")) && !Truthy(Get(payload, "appliedDate"))
    ensures r == Fail(InvalidEmail)
        <==> Truthy(Get(payload, "fullName")) && Truthy(Get(payload, "appliedDate")) && !EmailOk(payload)
    ensures r == Fail(InvalidPhone)
        <==> Truthy(Get(payload, "fullName")) && Truthy(Get(payload, "appliedDate")) && EmailOk(payload)
             && !PhoneOk(payload)
    ensures r == Pass
        <==> Truthy(Get(payload, "fullName")) && Truthy(Get(payload, "appliedDate")) && EmailOk(payload)
             && PhoneOk(payload)
  {
    if !Truthy(Get(payload, "fullName")) then Fail(FullNameRequired)
    else if !Truthy(Get(payload, "appliedDate")) then Fail(AppliedDateRequired)
    else if Truthy(Get(payload, "email")) && !IsEmailShape(TextOf(Get(payload, "email"))) then Fail(InvalidEmail)
    else if Truthy(Get(payload, "phone")) && !IsPhoneShape(TextOf(Get(payload, "phone"))) then Fail(InvalidPhone)
    else Pass
  }

  /** The fields `validate` looks at. */
  const ValidatedFields: set<string> := {"fullName", "appliedDate", "email", "phone"}

  /** Only the four validated fields matter: payloads that agree on them get the same verdict. */
  lemma ValidateReadsOnlyItsFields(p: Object, q: Object)
    requires forall k :: k in ValidatedFields ==> Get(p, k) == Get(q, k)
    ensures Validate(p) == Validate(q)
  {
    assert Get(p, "fullName") == Get(q, "fullName");
    assert Get(p, "appliedDate") == Get(q, "appliedDate");
    assert Get(p, "email") == Get(q, "email");
    assert Get(p, "phone") == Get(q, "phone");
  }

  /** What a submission led to. */
  datatype SubmitOutcome =
    | Rejected(error: ValidationError)  // validation failed: error toast, form stays open
    | Created(id: string)               // success toast, form closes, "candidates:changed" fires
    | Updated                           // success toast, form closes, "candidates:changed" fires
    | NotFound                          // the edited record is gone: generic error toast, form stays open

  /** The storage after a submission, and what happened. */
  datatype SubmitResult = SubmitResult(storage: Storage, outcome: SubmitOutcome)

  /** The outcomes after which the form closes and the change notification fires. */
  predicate Succeeded(o: SubmitOutcome) {
    o.Created? || o.Updated?
  }

  /**
   * `handleSubmit` after the form has been read: validate; then update the
   * record named by a non-empty `id`, or create a new record when there is none.
   * An edit reports success exactly when some stored record has that id.
   */
  function Submit(st: Storage, payload: Object): (r: SubmitResult)
    ensures Validate(payload).Fail? ==> r == SubmitResult(st, Rejected(Validate(payload).error))
    ensures !Succeeded(r.outcome) ==> r.storage == st
    ensures Validate(payload).Pass? && Truthy(Get(payload, "id")) ==>
      && (r.outcome.Updated? || r.outcome.NotFound?)
      && r.storage == UpdateCandidate(st, payload["id"], payload).0
    ensures Validate(payload).Pass? && Truthy(Get(payload, "id")) ==>
      (r.outcome == Updated <==>
        exists i :: 0 <= i < |GetCandidates(st)| && IdText(GetCandidates(st)[i]) == ToJsString(payload["id"]))
    ensures Validate(payload).Pass? && !Truthy(Get(payload, "id")) ==>
      && r.outcome == Created(NextCandidateId(GetCandidates(st)))
      && r.storage == CreateCandidate(st, payload)
  {
    match Validate(payload)
    case Fail(e) => SubmitResult(st, Rejected(e))
    case Pass =>
      if Truthy(Get(payload, "id")) then
        var (st', found) := UpdateCandidate(st, payload["id"], payload);
        SubmitResult(st', if found then Updated else NotFound)
      else
        SubmitResult(CreateCandidate(st, payload), Created(NextCandidateId(GetCandidates(st))))
  }

  /**
   * A valid submission adds a record exactly when it carries no id; an edit
   * never adds one, never changes an id, and a create adds one with an id
   * no record had.
   */
  lemma SubmitEditsIffIdPresent(st: Storage, payload: Object)
    requires Validate(payload).Pass?
    ensures var after := GetCandidates(Submit(st, payload).storage);
      && (|after| == |GetCandidates(st)| + 1 <==> !Truthy(Get(payload, "id")))
      && (|after| == |GetCandidates(st)| <==> Truthy(Get(payload, "id")))
    ensures Truthy(Get(payload, "id")) ==>
      var after := GetCandidates(Submit(st, payload).storage);
      forall j :: 0 <= j < |after| ==> Get(after[j], "id") == Get(GetCandidates(st)[j], "id")
    ensures !Truthy(Get(payload, "id")) ==>
      var after := GetCandidates(Submit(st, payload).storage);
      forall j :: 0 <= j < |GetCandidates(st)| ==> IdText(GetCandidates(st)[j]) != IdText(after[0])
  {
    if Truthy(Get(payload, "id")) {
      UpdateKeepsIds(st, payload["id"], payload);
    } else {
      NextIdIsFresh(GetCandidates(st));
    }
  }

  /** Read from the form, a submission is an edit exactly when the hidden id field is non-blank. */
  lemma FormEditsIffIdFilled(entries: map<string, string>, talentPoolBox: Option<bool>)
    requires "id" in entries
    ensures Truthy(Get(ReadFormData(entries, talentPoolBox), "id")) <==> !AllWhitespace(entries["id"])
  {
  }
}
