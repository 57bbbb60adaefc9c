/** Form validation of assets/js/main.js: the rule chain of `validateField`
    with its email and phone patterns, the field's error class and error
    message, the on-blur / on-input triggers, and `validateForm`. */
module FormValidation {
  import opened Wrappers
  import opened JsText
  import opened Dom

  // ===== Email =====

  /** A character the class `[^\s@]` admits. */
  predicate EmailChar(c: char) {
    !IsSpace(c) && c != '@'
  }

  predicate AllEmailChars(s: string) {
    forall i :: 0 <= i < |s| ==> EmailChar(s[i])
  }

  /** The regular expression `^[^\s@]+@[^\s@]+\.[^\s@]+$` read literally: some
      `@` at index `at` and some `.` at index `dot` cut `s` into three
      non-empty runs of characters that are neither white space nor `@`. */
  ghost predicate MatchesEmailPattern(s: string) {
    exists at, dot :: EmailSplit(s, at, dot)
  }

  ghost predicate EmailSplit(s: string, at: int, dot: int) {
    && 0 < at && at + 1 < dot && dot + 1 < |s|
    && s[at] == '@' && s[dot] == '.'
    && AllEmailChars(s[..at]) && AllEmailChars(s[at + 1..dot]) && AllEmailChars(s[dot + 1..])
  }

  /** The index of the first `c` in `s`, if any. */
  function IndexOf(s: string, c: char): (r: Option<nat>)
    ensures r.None? <==> c !in s
    ensures r.Some? ==> r.value < |s| && s[r.value] == c && c !in s[..r.value]
  {
    if s == [] then None
    else if s[0] == c then Some(0)
    else
      match IndexOf(s[1..], c)
      case None => None
      case Some(i) =>
        assert s[..i + 1] == [s[0]] + s[1..][..i];
        Some(i + 1)
  }

  /** No character before the one found is `c`. */
  lemma IndexOfFirst(s: string, c: char)
    ensures IndexOf(s, c).Some? ==> forall k :: 0 <= k < IndexOf(s, c).value ==> s[k] != c
  {
    if IndexOf(s, c).Some? {
      var r := IndexOf(s, c).value;
      forall k | 0 <= k < r ensures s[k] != c {
        assert s[k] == s[..r][k];
      }
    }
  }

  /** The domain part has a `.` with at least one character on each side. */
  predicate HasInnerDot(domain: string) {
    exists k :: 0 < k < |domain| - 1 && domain[k] == '.'
  }

  /** `isValidEmail`, read character by character: a non-empty local part
      before the first `@`, no white space and no second `@` anywhere, and a
      domain with an inner dot. */
  predicate IsValidEmail(s: string) {
    match IndexOf(s, '@')
    case None => false
    case Some(at) =>
      at > 0 && AllEmailChars(s[..at]) && AllEmailChars(s[at + 1..]) && HasInnerDot(s[at + 1..])
  }

  /** The character-by-character reading accepts exactly what the regular
      expression matches. */
  lemma IsValidEmailMatchesPattern(s: string)
    ensures IsValidEmail(s) <==> MatchesEmailPattern(s)
  {
    if IsValidEmail(s) {
      ValidEmailMatchesPattern(s);
    }
    if MatchesEmailPattern(s) {
      var at, dot :| EmailSplit(s, at, dot);
      SplitEmailIsValid(s, at, dot);
    }
  }

  /** An accepted address splits at its first `@` and at a dot of its domain. */
  lemma ValidEmailMatchesPattern(s: string)
    requires IsValidEmail(s)
    ensures MatchesEmailPattern(s)
  {
    var at := IndexOf(s, '@').value;
    var domain := s[at + 1..];
    var k :| 0 < k < |domain| - 1 && domain[k] == '.';
    var dot := at + 1 + k;
    assert s[at + 1..dot] == domain[..k];
    assert s[dot + 1..] == domain[k + 1..];
    assert EmailSplit(s, at, dot);
  }

  /** Any split the pattern finds is at the first `@`, and leaves a domain
      with an inner dot. */
  lemma SplitEmailIsValid(s: string, at: int, dot: int)
    requires EmailSplit(s, at, dot)
    ensures IsValidEmail(s)
  {
    assert '@' !in s[..at] by {
      forall i | 0 <= i < at ensures s[..at][i] != '@' {
        assert EmailChar(s[..at][i]);
      }
    }
    assert s[..at + 1] == s[..at] + [s[at]];
    assert IndexOf(s, '@') == Some(at);
    var domain := s[at + 1..];
    assert domain == s[at + 1..dot] + [s[dot]] + s[dot + 1..];
    forall i | 0 <= i < |domain| ensures EmailChar(domain[i]) {
      if i < dot - at - 1 {
        assert domain[i] == s[at + 1..dot][i];
      } else if i > dot - at - 1 {
        assert domain[i] == s[dot + 1..][i - (dot - at)];
      }
    }
    assert domain[dot - at - 1] == '.';
  }

  /** Any address `local@host.tld` made of three non-empty runs of allowed
      characters is accepted. */
  lemma DottedAddressValid(local: string, host: string, tld: string)
    requires local != [] && host != [] && tld != []
    requires AllEmailChars(local) && AllEmailChars(host) && AllEmailChars(tld)
    ensures IsValidEmail(local + "@" + host + "." + tld)
  {
    var s := local + "@" + host + "." + tld;
    var at, dot := |local|, |local| + 1 + |host|;
    assert s[..at] == local;
    assert s[at + 1..dot] == host;
    assert s[dot + 1..] == tld;
    assert EmailSplit(s, at, dot);
    IsValidEmailMatchesPattern(s);
  }

  /** An address whose part after the `@` has no dot is refused. */
  lemma UndottedAddressInvalid(local: string, domain: string)
    requires '.' !in domain
    ensures !IsValidEmail(local + "@" + domain)
  {
    var s := local + "@" + domain;
    assert s[|local|] == '@';
    var at := IndexOf(s, '@').value;
    if '@' in local {
      var k :| 0 <= k < |local| && local[k] == '@';
      assert s[k] == '@';
      IndexOfFirst(s, '@');
      assert at <= k;
      assert s[at + 1..][|local| - at - 1] == '@';
    } else {
      assert s[..|local|] == local;
      assert at == |local|;
      assert s[at + 1..] == domain;
    }
  }

  /** `a@b` is refused and `a@b.com` is accepted. */
  lemma EmailExamples()
    ensures !IsValidEmail("a@b")
    ensures IsValidEmail("a@b.com")
  {
    UndottedAddressInvalid("a", "b");
    assert "a" + "@" + "b" == "a@b";
    DottedAddressValid("a", "b", "com");
    assert "a" + "@" + "b" + "." + "com" == "a@b.com";
  }

  // ===== Phone =====

  /** A character the class `[\d\s\-\+\(\)]` admits. */
  predicate PhoneChar(c: char) {
    IsDigit(c) || IsSpace(c) || c == '-' || c == '+' || c == '(' || c == ')'
  }

  /** `replace(/\D/g, '')`: the digits of `s`, in order. */
  function Digits(s: string): string {
    if s == [] then []
    else if IsDigit(s[0]) then [s[0]] + Digits(s[1..])
    else Digits(s[1..])
  }

  /** What is kept is digits only, and no more than there was. */
  lemma {:induction false} DigitsBounds(s: string)
    ensures |Digits(s)| <= |s|
    ensures forall i :: 0 <= i < |Digits(s)| ==> IsDigit(Digits(s)[i])
  {
    if s != [] {
      DigitsBounds(s[1..]);
    }
  }

  /** Removing the non-digits of a concatenation removes them from each part. */
  lemma {:induction false} DigitsAppend(a: string, b: string)
    ensures Digits(a + b) == Digits(a) + Digits(b)
    decreases |a|
  {
    if a == [] {
      assert a + b == b;
    } else {
      assert (a + b)[0] == a[0] && (a + b)[1..] == a[1..] + b;
      DigitsAppend(a[1..], b);
    }
  }

  /** A string of digits keeps all of them, and one without digits keeps none. */
  lemma {:induction false} DigitsKeepsDigits(s: string)
    ensures AllDigits(s) ==> Digits(s) == s
    ensures (forall i :: 0 <= i < |s| ==> !IsDigit(s[i])) ==> Digits(s) == []
  {
    if s != [] {
      DigitsKeepsDigits(s[1..]);
    }
  }

  predicate AllPhoneChars(s: string) {
    forall i :: 0 <= i < |s| ==> PhoneChar(s[i])
  }

  lemma AllPhoneCharsAppend(a: string, b: string)
    requires AllPhoneChars(a) && AllPhoneChars(b)
    ensures AllPhoneChars(a + b)
  {
    forall i | 0 <= i < |a + b| ensures PhoneChar((a + b)[i]) {
      if i < |a| { assert (a + b)[i] == a[i]; } else { assert (a + b)[i] == b[i - |a|]; }
    }
  }

  /** `isValidPhone`: at least one character, all of them digits, white space,
      `-`, `+` or parentheses, and at least ten digits. */
  predicate IsValidPhone(s: string) {
    |s| > 0 && AllPhoneChars(s) && |Digits(s)| >= 10
  }

  /** A valid number has at least ten characters. */
  lemma ValidPhoneLength(s: string)
    ensures IsValidPhone(s) ==> |s| >= 10
  {
    DigitsBounds(s);
  }

  predicate AllDigits(s: string) {
    forall i :: 0 <= i < |s| ==> IsDigit(s[i])
  }

  lemma AllDigitsArePhoneChars(s: string)
    requires AllDigits(s)
    ensures AllPhoneChars(s)
  {
  }

  /** Any number written `(ddd) ddd-dddd` is accepted. */
  lemma FormattedNumberValid(area: string, exchange: string, line: string)
    requires |area| == 3 && |exchange| == 3 && |line| == 4
    requires AllDigits(area) && AllDigits(exchange) && AllDigits(line)
    ensures IsValidPhone("(" + area + ") " + exchange + "-" + line)
  {
    var p1 := "(" + area;
    var p2 := p1 + ") ";
    var p3 := p2 + exchange;
    var p4 := p3 + "-";
    var s := p4 + line;
    DigitsKeepsDigits("(");
    DigitsKeepsDigits(") ");
    DigitsKeepsDigits("-");
    DigitsKeepsDigits(area);
    DigitsKeepsDigits(exchange);
    DigitsKeepsDigits(line);
    DigitsAppend("(", area);
    DigitsAppend(p1, ") ");
    DigitsAppend(p2, exchange);
    DigitsAppend(p3, "-");
    DigitsAppend(p4, line);
    AllDigitsArePhoneChars(area);
    AllDigitsArePhoneChars(exchange);
    AllDigitsArePhoneChars(line);
    AllPhoneCharsAppend("(", area);
    AllPhoneCharsAppend(p1, ") ");
    AllPhoneCharsAppend(p2, exchange);
    AllPhoneCharsAppend(p3, "-");
    AllPhoneCharsAppend(p4, line);
  }

  /** Fewer than ten characters cannot hold ten digits. */
  lemma ShortNumberInvalid(s: string)
    requires |s| < 10
    ensures !IsValidPhone(s)
  {
    DigitsBounds(s);
  }

  /** `(555) 123-4567` is accepted and `123` is refused. */
  lemma PhoneExamples()
    ensures IsValidPhone("(555) 123-4567")
    ensures !IsValidPhone("123")
  {
    FormattedNumberValid("555", "123", "4567");
    assert "(" + "555" + ") " + "123" + "-" + "4567" == "(555) 123-4567";
    ShortNumberInvalid("123");
  }

  // ===== The rule chain =====

  /** `field.type`, as far as validation cares. */
  datatype InputType = Email | Tel | OtherType

  /** What the markup declares about a field: its type, whether it carries
      `required`, and its `minlength` when that parses as a number. */
  datatype FieldSpec = FieldSpec(kind: InputType, required: bool, minLength: Option<nat>)

  /** The four rules, in the order they are tried. */
  datatype Rule = Required | BadEmail | BadPhone | TooShort(min: nat)

  function Rank(rule: Rule): nat {
    match rule
    case Required => 0
    case BadEmail => 1
    case BadPhone => 2
    case TooShort(_) => 3
  }

  /** Each rule on its own, for a trimmed value: an empty required field; a
      non-empty email field that is not an address; a non-empty telephone
      field that is not a number; a value shorter than the declared minimum
      (empty or not). */
  predicate Fails(rule: Rule, value: string, spec: FieldSpec) {
    match rule
    case Required => spec.required && value == []
    case BadEmail => spec.kind == Email && value != [] && !IsValidEmail(value)
    case BadPhone => spec.kind == Tel && value != [] && !IsValidPhone(value)
    case TooShort(n) => spec.minLength == Some(n) && |value| < n
  }

  /** The if/else chain of `validateField`: the first rule, in rank order,
      that the trimmed value fails; none when it fails none. */
  function FirstFailingRule(value: string, spec: FieldSpec): (r: Option<Rule>)
    ensures r.Some? ==> Fails(r.value, value, spec)
  {
    if spec.required && value == [] then Some(Required)
    else if spec.kind == Email && value != [] && !IsValidEmail(value) then Some(BadEmail)
    else if spec.kind == Tel && value != [] && !IsValidPhone(value) then Some(BadPhone)
    else if spec.minLength.Some? && |value| < spec.minLength.value then Some(TooShort(spec.minLength.value))
    else None
  }

  /** The first failing rule wins: the chain reports a rule that fails and no
      earlier one fails; it reports nothing exactly when no rule fails. */
  lemma FirstFailingRuleIsFirst(value: string, spec: FieldSpec)
    ensures FirstFailingRule(value, spec).None? <==> forall rule :: !Fails(rule, value, spec)
    ensures FirstFailingRule(value, spec).Some? ==>
      forall rule :: Rank(rule) < Rank(FirstFailingRule(value, spec).value) ==> !Fails(rule, value, spec)
  {
    var r := FirstFailingRule(value, spec);
    forall rule | r.None? || Rank(rule) < Rank(r.value)
      ensures !Fails(rule, value, spec)
    {
      match rule
      case Required =>
      case BadEmail =>
      case BadPhone =>
      case TooShort(n) =>
    }
  }

  /** The text of the message each rule shows. */
  function Message(rule: Rule): string {
    match rule
    case Required => "This field is required"
    case BadEmail => "Please enter a valid email address"
    case BadPhone => "Please enter a valid phone number"
    case TooShort(n) => "Minimum " + NatToString(n) + " characters required"
  }

  /** A message names its rule, and for the minimum length the minimum too. */
  lemma {:induction false} MessageIdentifiesRule(r1: Rule, r2: Rule)
    requires Message(r1) == Message(r2)
    ensures r1 == r2
  {
    if r1.TooShort? && r2.TooShort? {
      var a, b := NatToString(r1.min), NatToString(r2.min);
      var tail := " characters required";
      assert "Minimum " + a + tail == "Minimum " + b + tail;
      assert |a| == |b|;
      assert a == ("Minimum " + a + tail)[8..8 + |a|];
      assert b == ("Minimum " + b + tail)[8..8 + |b|];
      NatToStringInjective(r1.min, r2.min);
    } else {
      MessageHead(r1);
      MessageHead(r2);
    }
  }

  /** The first letter of each message. */
  lemma MessageHead(rule: Rule)
    ensures Message(rule)[0] == match rule
      case Required => 'T'
      case TooShort(_) => 'M'
      case _ => 'P'
  {
  }

  /** What `validateField` decides for a trimmed value: no message, or the
      message of the first failing rule. */
  function FieldError(value: string, spec: FieldSpec): (r: Option<string>)
    ensures r.None? <==> forall rule :: !Fails(rule, value, spec)
    ensures r.Some? ==> exists rule :: Fails(rule, value, spec) && r.value == Message(rule)
  {
    FirstFailingRuleIsFirst(value, spec);
    match FirstFailingRule(value, spec)
    case None => None
    case Some(rule) => Some(Message(rule))
  }

  /** A required field holding only white space is reported as required,
      whatever its type. */
  lemma RequiredBlank(raw: string, spec: FieldSpec)
    requires spec.required && AllSpace(raw)
    ensures FieldError(Trim(raw), spec) == Some("This field is required")
  {
    TrimMeaning(raw);
  }

  /** An empty optional field skips the email and phone checks but not the
      minimum length: with a minimum of one or more it is reported short. */
  lemma EmptyOptionalTooShort(spec: FieldSpec, n: nat)
    requires !spec.required && spec.minLength == Some(n) && n >= 1
    ensures FirstFailingRule("", spec) == Some(TooShort(n))
    ensures FieldError("", spec) == Some("Minimum " + NatToString(n) + " characters required")
  {
  }

  /** An optional email field holding an address without a dot in its
      domain is reported as not an address. */
  lemma FieldErrorEmailWithoutDot()
    ensures FieldError("a@b", FieldSpec(Email, false, None)) == Some("Please enter a valid email address")
  {
    EmailExamples();
  }

  /** A required email field holding a plain address passes. */
  lemma FieldErrorEmailValid()
    ensures FieldError("a@b.com", FieldSpec(Email, true, None)) == None
  {
    EmailExamples();
  }

  /** An optional telephone field holding three digits is reported as not a
      number. */
  lemma FieldErrorPhoneTooFewDigits()
    ensures FieldError("123", FieldSpec(Tel, false, None)) == Some("Please enter a valid phone number")
  {
    PhoneExamples();
  }

  /** A required telephone field holding a formatted number passes. */
  lemma FieldErrorPhoneValid()
    ensures FieldError("(555) 123-4567", FieldSpec(Tel, true, None)) == None
  {
    PhoneExamples();
  }

  // ===== The field in the document =====

  const ErrorClass: string := "error"

  /** The class every validated input carries. */
  const FormControl: string := "form-control"

  /** A child of a field's parent element: an `.error-message` element with
      its text, or anything else. */
  datatype Child = ErrorMessage(text: string) | OtherChild

  /** The texts of the error messages among `children`, in document order. */
  function Messages(children: seq<Child>): seq<string> {
    if children == [] then []
    else if children[0].ErrorMessage? then [children[0].text] + Messages(children[1..])
    else Messages(children[1..])
  }

  lemma {:induction false} MessagesAppend(a: seq<Child>, b: seq<Child>)
    ensures Messages(a + b) == Messages(a) + Messages(b)
    decreases |a|
  {
    if a == [] {
      assert a + b == b;
    } else {
      assert (a + b)[0] == a[0] && (a + b)[1..] == a[1..] + b;
      MessagesAppend(a[1..], b);
    }
  }

  /** `parentNode.querySelector('.error-message')?.remove()`: drops the first
      error message, if there is one. */
  function RemoveFirstMessage(children: seq<Child>): seq<Child> {
    if children == [] then []
    else if children[0].ErrorMessage? then children[1..]
    else [children[0]] + RemoveFirstMessage(children[1..])
  }

  /** Exactly the first message goes; any later one stays. */
  lemma {:induction false} RemoveFirstMessageDropsOne(children: seq<Child>)
    ensures Messages(RemoveFirstMessage(children)) == if Messages(children) == [] then [] else Messages(children)[1..]
  {
    if children != [] && !children[0].ErrorMessage? {
      RemoveFirstMessageDropsOne(children[1..]);
      MessagesAppend([children[0]], RemoveFirstMessage(children[1..]));
    }
  }

  /** The parent's children after `validateField` with outcome `outcome`. */
  function ChildrenAfter(children: seq<Child>, outcome: Option<Rule>): seq<Child> {
    var kept := RemoveFirstMessage(children);
    if outcome.Some? then kept + [ErrorMessage(Message(outcome.value))] else kept
  }

  /** With at most one message before, there is exactly one after when the
      field is invalid, carrying the failing rule's text, and none when it is
      valid. */
  lemma ChildrenAfterMessages(children: seq<Child>, outcome: Option<Rule>)
    requires |Messages(children)| <= 1
    ensures Messages(ChildrenAfter(children, outcome)) == if outcome.Some? then [Message(outcome.value)] else []
  {
    RemoveFirstMessageDropsOne(children);
    if outcome.Some? {
      MessagesAppend(RemoveFirstMessage(children), [ErrorMessage(Message(outcome.value))]);
      assert Messages([ErrorMessage(Message(outcome.value))]) == [Message(outcome.value)];
    }
  }

  /** The rule a field's raw value fails first, once trimmed, if any. */
  function FieldOutcome(raw: string, spec: FieldSpec): Option<Rule> {
    FirstFailingRule(Trim(raw), spec)
  }

  /** The element holding a field (its `parentNode`). */
  class Group {
    var children: seq<Child>

    constructor (children: seq<Child>)
      ensures this.children == children
    {
      this.children := children;
    }
  }

  /** A `.form-control` element. */
  class Field {
    var value: string
    const spec: FieldSpec
    var classes: set<string>
    const parent: Group

    constructor (value: string, spec: FieldSpec, parent: Group)
      ensures this.value == value && this.spec == spec && this.parent == parent && this.classes == {FormControl}
    {
      this.value := value;
      this.spec := spec;
      this.classes := {FormControl};
      this.parent := parent;
    }

    /** `validateField`: clears the field's error state, decides, and on
      failure marks the field and appends the failing rule's message. */
    method Validate() returns (valid: bool)
      modifies this`classes, parent`children
      ensures valid <==> FieldOutcome(value, spec).None?
      ensures Revalidated(this)
      ensures parent.children == ChildrenAfter(old(parent.children), FieldOutcome(value, spec))
    {
      var trimmed := Trim(value);
      classes := classes - {ErrorClass};
      parent.children := RemoveFirstMessage(parent.children);
      var failing := FirstFailingRule(trimmed, spec);
      valid := failing.None?;
      if !valid {
        classes := classes + {ErrorClass};
        parent.children := parent.children + [ErrorMessage(Message(failing.value))];
      }
    }

    /** The `blur` handler: always validates. */
    method Blur()
      modifies this`classes, parent`children
      ensures ErrorClass in classes <==> FieldOutcome(value, spec).Some?
      ensures Revalidated(this)
      ensures parent.children == ChildrenAfter(old(parent.children), FieldOutcome(value, spec))
    {
      var _ := Validate();
    }

    /** The `input` handler, after the browser has stored the new value:
      validates only a field already marked in error, so that an error
      clears as soon as it is fixed while a valid field stays quiet. */
    method Input(newValue: string)
      modifies this`value, this`classes, parent`children
      ensures value == newValue
      ensures ErrorClass in old(classes) ==> (ErrorClass in classes <==> FieldOutcome(value, spec).Some?)
      ensures ErrorClass in old(classes) ==> Revalidated(this)
      ensures ErrorClass in old(classes) ==> parent.children == ChildrenAfter(old(parent.children), FieldOutcome(value, spec))
      ensures ErrorClass !in old(classes) ==> classes == old(classes) && parent.children == old(parent.children)
    {
      value := newValue;
      if ErrorClass in classes {
        var _ := Validate();
      }
    }
  }

  /** A field whose error class has been set from its current outcome, its
      other classes kept. */
  twostate predicate Revalidated(f: Field)
    reads f
  {
    f.classes == WithClass(old(f.classes), ErrorClass, FieldOutcome(f.value, f.spec).Some?)
  }

  /** What validating each field of `fields` in turn does to the form's
      messages: the field's parent and the field's outcome, in order. */
  ghost function Steps(fields: seq<Field>): seq<(Group, Option<Rule>)>
    reads fields
  {
    if fields == [] then []
    else
      var n := |fields| - 1;
      Steps(fields[..n]) + [(fields[n].parent, FieldOutcome(fields[n].value, fields[n].spec))]
  }

  /** One step per field, naming that field's parent and outcome. */
  lemma {:induction false} StepsMeaning(fields: seq<Field>)
    ensures |Steps(fields)| == |fields|
    ensures forall j :: 0 <= j < |fields| ==>
      Steps(fields)[j] == (fields[j].parent, FieldOutcome(fields[j].value, fields[j].spec))
  {
    if fields != [] {
      var n := |fields| - 1;
      StepsMeaning(fields[..n]);
    }
  }

  /** The steps are determined by the fields' parents and outcomes. */
  lemma StepsOfFields(fields: seq<Field>, steps: seq<(Group, Option<Rule>)>)
    requires |steps| == |fields|
    requires forall j :: 0 <= j < |fields| ==> steps[j] == (fields[j].parent, FieldOutcome(fields[j].value, fields[j].spec))
    ensures steps == Steps(fields)
  {
    StepsMeaning(fields);
  }

  /** The children of `g` after these steps: a step in `g` replaces the
      first message by its outcome's, and the others leave `g` alone. */
  function ChildrenAfterAll(g: Group, children: seq<Child>, steps: seq<(Group, Option<Rule>)>): seq<Child>
  {
    if steps == [] then children
    else
      var n := |steps| - 1;
      var before := ChildrenAfterAll(g, children, steps[..n]);
      if steps[n].0 == g then ChildrenAfter(before, steps[n].1) else before
  }

  /** One more step: it moves `g` on when it is in `g`. */
  lemma ChildrenAfterAllNext(g: Group, children: seq<Child>, steps: seq<(Group, Option<Rule>)>, i: nat)
    requires i < |steps|
    ensures ChildrenAfterAll(g, children, steps[..i + 1]) ==
      var before := ChildrenAfterAll(g, children, steps[..i]);
      if steps[i].0 == g then ChildrenAfter(before, steps[i].1) else before
  {
    assert steps[..i + 1][..i] == steps[..i];
  }

  /** Steps in other elements leave `g` alone. */
  lemma {:induction false} ChildrenAfterAllUntouched(g: Group, children: seq<Child>, steps: seq<(Group, Option<Rule>)>)
    requires forall j :: 0 <= j < |steps| ==> steps[j].0 != g
    ensures ChildrenAfterAll(g, children, steps) == children
  {
    if steps != [] {
      ChildrenAfterAllUntouched(g, children, steps[..|steps| - 1]);
    }
  }

  /** When a single step is in `g`, `g` ends up exactly as that step alone
      leaves it: with at most one message before, one message after when that
      field fails, carrying its rule's text, and none when it passes. */
  lemma {:induction false} ChildrenAfterAllSingle(g: Group, children: seq<Child>, steps: seq<(Group, Option<Rule>)>, k: nat)
    requires k < |steps|
    requires forall j :: 0 <= j < |steps| ==> (steps[j].0 == g <==> j == k)
    ensures ChildrenAfterAll(g, children, steps) == ChildrenAfter(children, steps[k].1)
  {
    var n := |steps| - 1;
    if k < n {
      ChildrenAfterAllSingle(g, children, steps[..n], k);
    } else {
      ChildrenAfterAllUntouched(g, children, steps[..n]);
    }
  }

  /** The children of each element of `groups`, as they stand. */
  ghost function Snapshot(groups: set<Group>): (m: map<Group, seq<Child>>)
    reads groups
    ensures forall g :: g in groups ==> g in m && m[g] == g.children
  {
    map g | g in groups :: g.children
  }

  /** The classes of each field, as they stand. */
  ghost function ClassesOf(fields: seq<Field>): (cs: seq<set<string>>)
    reads fields
    ensures |cs| == |fields| && forall j :: 0 <= j < |fields| ==> cs[j] == fields[j].classes
  {
    if fields == [] then [] else ClassesOf(fields[..|fields| - 1]) + [fields[|fields| - 1].classes]
  }

  /** The state of the form once the first `i` fields have been validated,
      starting from classes `classes0` and children `init`: `steps` records
      those fields' parents and outcomes, `ok` says whether all of them
      passed, those fields carry the error class exactly when they failed,
      the later fields are untouched, and every element has the children
      those steps leave in it. */
  ghost predicate ValidatedUpTo(fields: seq<Field>, groups: set<Group>, i: nat, ok: bool,
                                classes0: seq<set<string>>, init: map<Group, seq<Child>>,
                                steps: seq<(Group, Option<Rule>)>)
    reads fields, groups
  {
    && i <= |fields| == |classes0| && |steps| == i
    && (forall j :: 0 <= j < i ==> steps[j] == (fields[j].parent, FieldOutcome(fields[j].value, fields[j].spec)))
    && (ok <==> forall j :: 0 <= j < i ==> steps[j].1.None?)
    && (forall j :: 0 <= j < |fields| ==>
          fields[j].classes == if j < i then WithClass(classes0[j], ErrorClass, steps[j].1.Some?) else classes0[j])
    && (forall g :: g in groups ==> g in init && g.children == ChildrenAfterAll(g, init[g], steps))
  }

  /** One turn of the loop of `validateForm`: validates field `i` and folds
      its outcome into `ok`. */
  method ValidateNext(fields: seq<Field>, groups: set<Group>, i: nat, ok: bool,
                      ghost classes0: seq<set<string>>, ghost init: map<Group, seq<Child>>,
                      ghost steps: seq<(Group, Option<Rule>)>)
    returns (ok': bool, ghost steps': seq<(Group, Option<Rule>)>)
    requires forall j, k :: 0 <= j < k < |fields| ==> fields[j] != fields[k]
    requires forall j :: 0 <= j < |fields| ==> fields[j].parent in groups
    requires i < |fields|
    requires ValidatedUpTo(fields, groups, i, ok, classes0, init, steps)
    modifies {fields[i]}`classes, {fields[i].parent}`children
    ensures ValidatedUpTo(fields, groups, i + 1, ok', classes0, init, steps')
  {
    label Before:
    var valid := fields[i].Validate();
    ok' := ok && valid;
    ghost var st := (fields[i].parent, FieldOutcome(fields[i].value, fields[i].spec));
    steps' := steps + [st];
    forall g | g in groups
      ensures g.children == ChildrenAfterAll(g, init[g], steps')
    {
      ChildrenAfterAllNext(g, init[g], steps', i);
      assert steps'[..i] == steps;
      if g != fields[i].parent {
        assert g.children == old@Before(g.children);
      }
    }
  }

  /** Once every field is validated, the recorded steps are the fields'
      own, and the state reads off them. */
  lemma ValidatedAll(fields: seq<Field>, groups: set<Group>, ok: bool,
                     classes0: seq<set<string>>, init: map<Group, seq<Child>>,
                     steps: seq<(Group, Option<Rule>)>)
    requires ValidatedUpTo(fields, groups, |fields|, ok, classes0, init, steps)
    ensures ok <==> forall j :: 0 <= j < |fields| ==> FieldOutcome(fields[j].value, fields[j].spec).None?
    ensures forall j :: 0 <= j < |fields| ==>
      fields[j].classes == WithClass(classes0[j], ErrorClass, FieldOutcome(fields[j].value, fields[j].spec).Some?)
    ensures forall g :: g in groups ==> g in init && g.children == ChildrenAfterAll(g, init[g], Steps(fields))
  {
    StepsOfFields(fields, steps);
  }

  /** `validateForm`: validates every required field, without stopping at the
      first failure, and reports whether all passed; the submit handler sends
      the form only then. `groups` holds the elements around the fields: each
      ends up with the messages the validations of its fields, in order,
      leave in it. */
  method ValidateForm(fields: seq<Field>, groups: set<Group>) returns (ok: bool)
    requires forall j, k :: 0 <= j < k < |fields| ==> fields[j] != fields[k]
    requires forall j :: 0 <= j < |fields| ==> fields[j].parent in groups
    modifies fields`classes, groups`children
    ensures ok <==> forall j :: 0 <= j < |fields| ==> FieldOutcome(fields[j].value, fields[j].spec).None?
    ensures forall j :: 0 <= j < |fields| ==> Revalidated(fields[j])
    ensures forall g :: g in groups ==> g.children == ChildrenAfterAll(g, old(g.children), Steps(fields))
  {
    ghost var classes0 := ClassesOf(fields);
    ghost var init := Snapshot(groups);
    ghost var steps: seq<(Group, Option<Rule>)> := [];
    ok := true;
    var i := 0;
    while i < |fields|
      invariant i <= |fields|
      invariant ValidatedUpTo(fields, groups, i, ok, classes0, init, steps)
    {
      ok, steps := ValidateNext(fields, groups, i, ok, classes0, init, steps);
      i := i + 1;
    }
    ValidatedAll(fields, groups, ok, classes0, init, steps);
  }

  /** When no other field sits in `g`, `g` ends up exactly as its own
      field's validation leaves it: with at most one message before, it then
      shows that field's message when the field fails and none when it
      passes. */
  lemma FormChildrenDistinctParents(fields: seq<Field>, g: Group, children: seq<Child>, k: nat)
    requires k < |fields| && fields[k].parent == g
    requires forall j :: 0 <= j < |fields| && j != k ==> fields[j].parent != g
    ensures ChildrenAfterAll(g, children, Steps(fields)) ==
      ChildrenAfter(children, FieldOutcome(fields[k].value, fields[k].spec))
    ensures |Messages(children)| <= 1 ==>
      var outcome := FieldOutcome(fields[k].value, fields[k].spec);
      Messages(ChildrenAfterAll(g, children, Steps(fields))) == if outcome.Some? then [Message(outcome.value)] else []
  {
    StepsMeaning(fields);
    ChildrenAfterAllSingle(g, children, Steps(fields), k);
    if |Messages(children)| <= 1 {
      ChildrenAfterMessages(children, FieldOutcome(fields[k].value, fields[k].spec));
    }
  }

}
