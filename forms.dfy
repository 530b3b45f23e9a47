/** `initFormValidation` (script.js:376-558): the ordered rule table of
    `validateField`, the error flags of `showError`/`clearError`, and the
    submit loop that validates every input. */
module FormValidation {
  import opened Dom
  import opened JsString

  /** A form control. `tag` is its `tagName`, `kind` its `type`, `labelText` the
      text of its previous element sibling (None when there is none), `el`
      its classes and attributes, and `error` the text of its error span
      (None when it has none). */
  datatype Field = Field(
    tag: string, kind: string, name: string, id: string, value: string,
    required: bool, checked: bool, labelText: Option<string>,
    el: Element, error: Option<string>)

  /** The regular expressions of the validator table (script.js:384, 388,
      392), as predicates. */
  datatype Patterns = Patterns(name: string -> bool, email: string -> bool, phone: string -> bool)

  /** The minimum length of a message (script.js:396). */
  const MinMessageLength: nat := 10

  const NameMessage: string := "Bitte geben Sie einen gültigen Namen ein (2-50 Zeichen, nur Buchstaben)"
  const EmailMessage: string := "Bitte geben Sie eine gültige E-Mail-Adresse ein"
  const PhoneMessage: string := "Bitte geben Sie eine gültige Telefonnummer ein (10-20 Zeichen)"
  const ShortMessage: string := "Bitte geben Sie mindestens 10 Zeichen ein"
  const ConsentMessage: string := "Bitte akzeptieren Sie die Datenschutzerklärung"

  /** `!input.value.trim()` */
  predicate Blank(s: string) {
    Trim(s) == []
  }

  /** The rows of the rule table, in the order `validateField` tries them. */
  datatype Rule = Required | EmailRule | PhoneRule | NameRule | MinLength | Consent

  const RequiredSuffix: string := " ist erforderlich"

  /** `name` is the label text without its first `*`, with only white space
      cut from either end. */
  ghost predicate NamesLabel(labelText: string, name: string) {
    && (exists k: nat :: TrimmedAt(RemoveFirst(labelText, '*'), k, name))
    && (name == [] || (!IsWhiteSpace(name[0]) && !IsWhiteSpace(name[|name| - 1])))
  }

  /** The message for a missing required value (script.js:442-443): the
      label without its first `*`, cut free of white space at both ends, or
      "Dieses Feld" when the field has no label. */
  function RequiredMessage(labelText: Option<string>): (r: string)
    ensures |r| >= |RequiredSuffix| && r[|r| - |RequiredSuffix|..] == RequiredSuffix
    ensures labelText.None? ==> r == "Dieses Feld ist erforderlich"
    ensures labelText.Some? ==> NamesLabel(labelText.value, r[..|r| - |RequiredSuffix|])
  {
    var name := if labelText.Some? then Trim(RemoveFirst(labelText.value, '*')) else "Dieses Feld";
    assert (name + RequiredSuffix)[..|name|] == name;
    name + RequiredSuffix
  }

  /** The message `showError` is given when rule `r` fails on field `f`. */
  function Message(r: Rule, f: Field): string {
    match r
    case Required => RequiredMessage(f.labelText)
    case EmailRule => EmailMessage
    case PhoneRule => PhoneMessage
    case NameRule => NameMessage
    case MinLength => ShortMessage
    case Consent => ConsentMessage
  }

  /** The rule table in the order `validateField` applies it: None when every
      rule passes, otherwise the first rule that fails. */
  function Check(f: Field, p: Patterns): Option<Rule> {
    if f.required && Blank(f.value) then Some(Required)
    else if f.kind == "email" && f.value != "" && !p.email(f.value) then Some(EmailRule)
    else if f.kind == "tel" && f.value != "" && !p.phone(f.value) then Some(PhoneRule)
    else if f.name == "name" && f.value != "" && !p.name(f.value) then Some(NameRule)
    else if f.tag == "TEXTAREA" && f.value != "" && Utf16Length(f.value) < MinMessageLength then Some(MinLength)
    else if f.kind == "checkbox" && f.required && !f.checked then Some(Consent)
    else None
  }

  /** The rules as one condition each, independent of their order. */
  predicate Passes(f: Field, p: Patterns) {
    && (f.required ==> exists i :: 0 <= i < |f.value| && !IsWhiteSpace(f.value[i]))
    && (f.kind == "email" && f.value != "" ==> p.email(f.value))
    && (f.kind == "tel" && f.value != "" ==> p.phone(f.value))
    && (f.name == "name" && f.value != "" ==> p.name(f.value))
    && (f.tag == "TEXTAREA" && f.value != "" ==> Utf16Length(f.value) >= MinMessageLength)
    && (f.kind == "checkbox" && f.required ==> f.checked)
  }

  /** The ordered table fails exactly when one of the rules is broken. */
  lemma CheckPassesIff(f: Field, p: Patterns)
    ensures Check(f, p).None? <==> Passes(f, p)
  {
    TrimEmptyIff(f.value);
  }

  /** A blank required value is reported as missing before anything else. */
  lemma CheckRequiredFirst(f: Field, p: Patterns)
    requires f.required && forall i :: 0 <= i < |f.value| ==> IsWhiteSpace(f.value[i])
    ensures Check(f, p) == Some(Required)
  {
    TrimEmptyIff(f.value);
  }

  /** What else the order of the table decides: an empty value that is not
      required passes every rule; a short message and an unticked required
      checkbox always fail. */
  lemma CheckOrder(f: Field, p: Patterns)
    ensures f.value == "" && !f.required ==> Check(f, p).None?
    ensures f.tag == "TEXTAREA" && f.value != "" && Utf16Length(f.value) < MinMessageLength ==> Check(f, p).Some?
    ensures f.kind == "checkbox" && f.required && !f.checked ==> Check(f, p).Some?
  {
  }

  /** `showError` (script.js:401-422), its effect on the field. */
  function ShowError(f: Field, message: string): (r: Field)
    ensures HasClass(r.el, "has-error") && GetAttr(r.el, "aria-invalid") == Some("true")
    ensures GetAttr(r.el, "aria-describedby") == Some(f.id + "-error")
    ensures r.error == Some(message)
  {
    var el := SetAttr(SetAttr(AddClass(f.el, "has-error"), "aria-invalid", "true"), "aria-describedby", f.id + "-error");
    f.(el := el, error := Some(message))
  }

  /** `clearError` (script.js:424-436), its effect on the field. */
  function ClearError(f: Field): (r: Field)
    ensures !Flagged(r) && !HasAttr(r.el, "aria-describedby") && r.error.None?
  {
    var el := RemoveAttr(RemoveAttr(RemoveClass(f.el, "has-error"), "aria-invalid"), "aria-describedby");
    f.(el := el, error := None)
  }

  /** The field after `validateField` (script.js:438-481): cleared first, then
      marked with the first failing rule's message, if any. */
  function Validated(f: Field, p: Patterns): Field {
    match Check(f, p)
    case None => ClearError(f)
    case Some(r) => ShowError(ClearError(f), Message(r, f))
  }

  /** The field shows an error. */
  predicate Flagged(f: Field) {
    HasClass(f.el, "has-error") || HasAttr(f.el, "aria-invalid")
  }

  /** After validation a field passes exactly when it is left without error
      flags, and its error text is the failing rule's message. */
  lemma ValidatedOutcome(f: Field, p: Patterns)
    ensures Passes(f, p) <==> !Flagged(Validated(f, p))
    ensures Check(f, p).None? ==> Validated(f, p).error.None?
    ensures Check(f, p).Some? ==> Validated(f, p).error == Some(Message(Check(f, p).value, f))
  {
    CheckPassesIff(f, p);
  }

  /** The three error flags come and go together, with the values
      `showError` gives them. */
  lemma ValidatedFlags(f: Field, p: Patterns)
    ensures var g := Validated(f, p);
      && (HasClass(g.el, "has-error") <==> HasAttr(g.el, "aria-invalid"))
      && (HasClass(g.el, "has-error") <==> HasAttr(g.el, "aria-describedby"))
      && (Flagged(g) ==>
            && GetAttr(g.el, "aria-invalid") == Some("true")
            && GetAttr(g.el, "aria-describedby") == Some(f.id + "-error"))
  {
    match Check(f, p)
    case None =>
    case Some(r) =>
  }

  /** `clearError` and `showError` touch only the error state. */
  predicate SameButErrorState(f: Field, g: Field) {
    && g.el.classes - {"has-error"} == f.el.classes - {"has-error"}
    && g.el.attrs - {"aria-invalid", "aria-describedby"} == f.el.attrs - {"aria-invalid", "aria-describedby"}
    && g.(el := f.el, error := f.error) == f
  }

  lemma ClearErrorKeepsRest(f: Field)
    ensures SameButErrorState(f, ClearError(f))
  {
    var c := ClearError(f);
    assert c.el.attrs - {"aria-invalid", "aria-describedby"} == f.el.attrs - {"aria-invalid", "aria-describedby"};
  }

  lemma ShowErrorKeepsRest(f: Field, m: string)
    ensures SameButErrorState(f, ShowError(f, m))
  {
    var g := ShowError(f, m);
    assert g.el.attrs - {"aria-invalid", "aria-describedby"} == f.el.attrs - {"aria-invalid", "aria-describedby"};
  }

  /** Validation touches only the error state: every other class and
      attribute, and every other part of the field, is kept. */
  lemma ValidatedKeepsRest(f: Field, p: Patterns)
    ensures SameButErrorState(f, Validated(f, p))
  {
    var c := ClearError(f);
    ClearErrorKeepsRest(f);
    match Check(f, p)
    case None =>
    case Some(r) =>
      ShowErrorKeepsRest(c, Message(r, f));
  }

  /** The rules read only what the user entered and the field's markup,
      never its error state. */
  lemma CheckIgnoresErrorState(f: Field, el: Element, error: Option<string>, p: Patterns)
    ensures Check(f.(el := el, error := error), p) == Check(f, p)
  {
  }

  lemma ClearErrorTwice(f: Field)
    ensures ClearError(ClearError(f)) == ClearError(f)
  {
    var c := ClearError(f);
    var cc := ClearError(c);
    assert cc.el.attrs == c.el.attrs;
    assert cc.el.classes == c.el.classes;
  }

  lemma ClearErrorAfterShow(f: Field, m: string)
    ensures ClearError(ShowError(ClearError(f), m)) == ClearError(f)
  {
    var c := ClearError(f);
    var d := ClearError(ShowError(c, m));
    assert d.el.attrs.Keys == c.el.attrs.Keys;
    assert d.el.attrs == c.el.attrs;
    assert d.el.classes == c.el.classes;
  }

  /** Validating a field a second time changes nothing. */
  lemma ValidatedIdempotent(f: Field, p: Patterns)
    ensures Validated(Validated(f, p), p) == Validated(f, p)
  {
    var g := Validated(f, p);
    CheckIgnoresErrorState(f, g.el, g.error, p);
    assert g == f.(el := g.el, error := g.error);
    match Check(f, p)
    case None => ClearErrorTwice(f);
    case Some(r) => ClearErrorAfterShow(f, Message(r, f));
  }

  /** `validateField` on input `k` of the form, in place. */
  method ValidateField(inputs: array<Field>, k: nat, p: Patterns) returns (ok: bool)
    requires k < inputs.Length
    modifies inputs
    ensures ok <==> Passes(old(inputs[k]), p)
    ensures inputs[k] == Validated(old(inputs[k]), p)
    ensures forall i :: 0 <= i < inputs.Length && i != k ==> inputs[i] == old(inputs[i])
  {
    CheckPassesIff(inputs[k], p);
    var f := inputs[k];
    inputs[k] := ClearError(f);
    if f.required && Blank(f.value) {
      inputs[k] := ShowError(inputs[k], Message(Required, f));
      return false;
    }
    if f.kind == "email" && f.value != "" {
      if !p.email(f.value) {
        inputs[k] := ShowError(inputs[k], Message(EmailRule, f));
        return false;
      }
    }
    if f.kind == "tel" && f.value != "" {
      if !p.phone(f.value) {
        inputs[k] := ShowError(inputs[k], Message(PhoneRule, f));
        return false;
      }
    }
    if f.name == "name" && f.value != "" {
      if !p.name(f.value) {
        inputs[k] := ShowError(inputs[k], Message(NameRule, f));
        return false;
      }
    }
    if f.tag == "TEXTAREA" && f.value != "" {
      if Utf16Length(f.value) < MinMessageLength {
        inputs[k] := ShowError(inputs[k], Message(MinLength, f));
        return false;
      }
    }
    if f.kind == "checkbox" && f.required && !f.checked {
      inputs[k] := ShowError(inputs[k], Message(Consent, f));
      return false;
    }
    return true;
  }

  /** The `input` listener (script.js:493-497): a field that shows an error
      is validated again as the user types; any other field is left alone. */
  method OnInput(inputs: array<Field>, k: nat, p: Patterns)
    requires k < inputs.Length
    modifies inputs
    ensures inputs[..] == old(inputs[..])[k := if HasClass(old(inputs[k]).el, "has-error")
                                              then Validated(old(inputs[k]), p) else old(inputs[k])]
  {
    if HasClass(inputs[k].el, "has-error") {
      var _ := ValidateField(inputs, k, p);
    }
  }

  /** The validation part of the submit listener (script.js:505-521): every
      input is validated, none skipped; the form is valid exactly when all of
      them pass, and the one to focus is the first that fails. */
  method Submit(inputs: array<Field>, p: Patterns) returns (isValid: bool, firstInvalid: Option<nat>)
    modifies inputs
    ensures forall i :: 0 <= i < inputs.Length ==> inputs[i] == Validated(old(inputs[i]), p)
    ensures isValid <==> firstInvalid.None?
    ensures firstInvalid.None? <==> forall i :: 0 <= i < inputs.Length ==> Passes(old(inputs[i]), p)
    ensures firstInvalid.Some? ==> firstInvalid.value < inputs.Length && !Passes(old(inputs[firstInvalid.value]), p)
    ensures firstInvalid.Some? ==> forall i :: 0 <= i < firstInvalid.value ==> Passes(old(inputs[i]), p)
  {
    ghost var fs := inputs[..];
    isValid := true;
    firstInvalid := None;
    var k := 0;
    while k < inputs.Length
      invariant 0 <= k <= inputs.Length
      invariant forall i :: 0 <= i < k ==> inputs[i] == Validated(fs[i], p)
      invariant forall i :: k <= i < inputs.Length ==> inputs[i] == fs[i]
      invariant isValid <==> firstInvalid.None?
      invariant firstInvalid.None? <==> forall i :: 0 <= i < k ==> Passes(fs[i], p)
      invariant firstInvalid.Some? ==> firstInvalid.value < k && !Passes(fs[firstInvalid.value], p)
      invariant firstInvalid.Some? ==> forall i :: 0 <= i < firstInvalid.value ==> Passes(fs[i], p)
    {
      var ok := ValidateField(inputs, k, p);
      if !ok {
        isValid := false;
        if firstInvalid.None? {
          firstInvalid := Some(k);
        }
      }
      k := k + 1;
    }
  }
}
