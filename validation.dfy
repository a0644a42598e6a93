/**
 * The four forms' `validateForm` functions: each checks every field of its
 * form and collects one message per failing field. The shared rules are the
 * trimmed-presence rule, the unanchored e-mail pattern `\S+@\S+\.\S+`, the
 * phone rule (drop white space and '-', then `^\d{8,}$`), the surrendered
 * pet's age rule and the adoption form's pet selection rule.
 */
module Validation {
  import opened Wrappers
  import opened Text
  import opened Numbers

  datatype FormKind = Register | Release | Adopt | Contact

  /** Every field name used by any of the four forms. */
  datatype Field =
    | Name | Email | Phone | Address
    | OwnerName | PetName | PetType | Breed | Age | Reason
    | AdopterName | PetId | Experience
    | Subject | Message

  /** The keys of each form's state object, in the order the form declares
      (and its validator checks) them. */
  function Fields(kind: FormKind): seq<Field> {
    match kind
    case Register => [Name, Email, Phone, Address]
    case Release => [OwnerName, Email, Phone, PetName, PetType, Breed, Age, Reason]
    case Adopt => [AdopterName, Email, Phone, Address, PetId, Experience, Reason]
    case Contact => [Name, Email, Subject, Message]
  }

  function FieldSet(kind: FormKind): set<Field> {
    set f | f in Fields(kind)
  }

  // ---------------------------------------------------------------------------
  // Messages

  const NAME_REQUIRED := "Name is required"
  const EMAIL_REQUIRED := "Email is required"
  const EMAIL_INVALID := "Email is invalid"
  const PHONE_REQUIRED := "Phone number is required"
  const PHONE_TOO_SHORT := "Phone number must be at least 8 digits"
  const ADDRESS_REQUIRED := "Address is required"
  const PET_NAME_REQUIRED := "Pet name is required"
  const BREED_REQUIRED := "Breed is required"
  const AGE_REQUIRED := "Valid age is required"
  const REASON_REQUIRED := "Reason is required"
  const PET_REQUIRED := "Please select a pet"
  const EXPERIENCE_REQUIRED := "Please describe your experience"
  const ADOPT_REASON_REQUIRED := "Please tell us why you want to adopt"
  const SUBJECT_REQUIRED := "Subject is required"
  const MESSAGE_REQUIRED := "Message is required"

  // ---------------------------------------------------------------------------
  // Presence

  /** `if (!value.trim()) error = msg`: fails exactly on blank text. */
  function Required(v: string, msg: string): (r: Option<string>)
    ensures r.Some? <==> IsBlank(v)
    ensures r.Some? ==> r.value == msg
  {
    TrimEmptyIffBlank(v);
    if Trim(v) == "" then Some(msg) else None
  }

  /** `if (!value) error = msg` on the pet selector, whose value is not
      trimmed: only the empty choice fails. */
  function Selected(v: string, msg: string): (r: Option<string>)
    ensures r.Some? <==> |v| == 0
    ensures r.Some? ==> r.value == msg
  {
    if v == "" then Some(msg) else None
  }

  // ---------------------------------------------------------------------------
  // E-mail

  /** `t` is exactly `\S+@\S+\.\S+`, with '@' at `i` and '.' at `j`. */
  ghost predicate ShapedAt(t: string, i: int, j: int) {
    && 0 < i && i + 1 < j && j + 1 < |t|
    && t[i] == '@' && t[j] == '.'
    && NonWhitespaceRun(t[..i]) && NonWhitespaceRun(t[i + 1..j]) && NonWhitespaceRun(t[j + 1..])
  }

  /** Some substring of `s` is exactly of the shape `\S+@\S+\.\S+`: what an
      unanchored `test` of that pattern asks. */
  ghost predicate HasEmailShape(s: string) {
    exists lo, hi, i, j | 0 <= lo <= hi <= |s| :: ShapedAt(s[lo..hi], i, j)
  }

  /** The shortest match: a non-blank character, '@' at `i`, a non-blank run,
      '.' at `j`, a non-blank character. */
  predicate MatchAt(s: string, i: int, j: int) {
    && 1 <= i && i + 1 < j && j + 1 < |s|
    && !IsWhitespace(s[i - 1]) && s[i] == '@'
    && NonWhitespaceRun(s[i + 1..j])
    && s[j] == '.' && !IsWhitespace(s[j + 1])
  }

  /** `/\S+@\S+\.\S+/.test(s)`: a match needs at least five characters,
      "a@b.c" being the shortest. */
  predicate EmailPatternMatches(s: string): (b: bool)
    ensures b ==> |s| >= 5 && '@' in s && '.' in s
  {
    exists i, j | 0 <= i < |s| && 0 <= j < |s| :: MatchAt(s, i, j)
  }

  lemma EmailPatternMatchesIffShape(s: string)
    ensures EmailPatternMatches(s) <==> HasEmailShape(s)
  {
    if EmailPatternMatches(s) {
      var i, j :| 0 <= i < |s| && 0 <= j < |s| && MatchAt(s, i, j);
      MatchHasShape(s, i, j);
    }
    if HasEmailShape(s) {
      var lo, hi, a, b :| 0 <= lo <= hi <= |s| && ShapedAt(s[lo..hi], a, b);
      ShapeHasMatch(s, lo, hi, a, b);
    }
  }

  /** The shortest match is itself a substring of the e-mail shape. */
  lemma MatchHasShape(s: string, i: int, j: int)
    requires MatchAt(s, i, j)
    ensures HasEmailShape(s)
  {
    var t := s[i - 1..j + 2];
    SliceOfSlice(s, i - 1, j + 2, 0, 1);
    SliceOfSlice(s, i - 1, j + 2, 2, j - i + 1);
    SliceOfSlice(s, i - 1, j + 2, j - i + 2, j - i + 3);
    assert t[j - i + 2..] == t[j - i + 2..j - i + 3];
    assert ShapedAt(t, 1, j - i + 1);
  }

  /** Around the '@' and the '.' of a substring of the e-mail shape sits a
      shortest match. */
  lemma ShapeHasMatch(s: string, lo: int, hi: int, a: int, b: int)
    requires 0 <= lo <= hi <= |s| && ShapedAt(s[lo..hi], a, b)
    ensures EmailPatternMatches(s)
  {
    var t := s[lo..hi];
    assert s[lo + a - 1] == t[..a][a - 1];
    SliceOfSlice(s, lo, hi, a + 1, b);
    assert s[lo + b + 1] == t[b + 1..][0];
    assert MatchAt(s, lo + a, lo + b);
  }

  lemma SliceOfSlice(s: string, lo: int, hi: int, a: int, b: int)
    requires 0 <= lo <= hi <= |s| && 0 <= a <= b <= hi - lo
    ensures s[lo..hi][a..b] == s[lo + a..lo + b]
  {
    assert forall k | 0 <= k < b - a :: s[lo..hi][a..b][k] == s[lo + a + k];
  }

  /** The pattern is not anchored: text around a match does not undo it. */
  lemma EmailPatternUnanchored(pre: string, s: string, post: string)
    requires EmailPatternMatches(s)
    ensures EmailPatternMatches(pre + s + post)
  {
    var i, j :| 0 <= i < |s| && 0 <= j < |s| && MatchAt(s, i, j);
    var u := pre + s + post;
    assert u[|pre| + i + 1..|pre| + j] == s[i + 1..j];
    assert MatchAt(u, |pre| + i, |pre| + j);
  }

  /** Without an '@' nothing matches; "not-an-email" is such a text. */
  lemma NoAtNoMatch(s: string)
    requires forall k | 0 <= k < |s| :: s[k] != '@'
    ensures !EmailPatternMatches(s)
  {
  }

  lemma SampleEmails()
    ensures EmailPatternMatches("user@example.com")
    ensures !EmailPatternMatches("not-an-email")
  {
    assert MatchAt("user@example.com", 4, 12);
    NoAtNoMatch("not-an-email");
  }

  /** Blank e-mail: "Email is required"; otherwise "Email is invalid" exactly
      when no substring has the e-mail shape. */
  function EmailRule(v: string): (r: Option<string>)
    ensures r == Some(EMAIL_REQUIRED) <==> IsBlank(v)
    ensures r == Some(EMAIL_INVALID) <==> !IsBlank(v) && !HasEmailShape(v)
    ensures r == None <==> !IsBlank(v) && HasEmailShape(v)
  {
    TrimEmptyIffBlank(v);
    EmailPatternMatchesIffShape(v);
    if Trim(v) == "" then Some(EMAIL_REQUIRED)
    else if !EmailPatternMatches(v) then Some(EMAIL_INVALID)
    else None
  }

  // ---------------------------------------------------------------------------
  // Phone

  /** The class `[\s-]` that the phone number's separators are drawn from. */
  predicate IsPhoneSeparator(c: char) {
    IsWhitespace(c) || c == '-'
  }

  /** `s.replace(/[\s-]/g, '')`. */
  function StripSeparators(s: string): (r: string)
    ensures |r| <= |s|
    ensures forall i | 0 <= i < |r| :: !IsPhoneSeparator(r[i])
  {
    if s == [] then []
    else
      var rest := StripSeparators(s[1..]);
      if IsPhoneSeparator(s[0]) then rest else [s[0]] + rest
  }

  lemma {:induction false} StripSeparatorsConcat(a: string, b: string)
    ensures StripSeparators(a + b) == StripSeparators(a) + StripSeparators(b)
  {
    if a == [] {
      assert a + b == b;
    } else {
      assert (a + b)[0] == a[0] && (a + b)[1..] == a[1..] + b;
      StripSeparatorsConcat(a[1..], b);
      if IsPhoneSeparator(a[0]) {
        assert StripSeparators(a + b) == StripSeparators(a[1..] + b);
      } else {
        assert StripSeparators(a + b) == [a[0]] + StripSeparators(a[1..] + b);
        assert StripSeparators(a) == [a[0]] + StripSeparators(a[1..]);
      }
    }
  }

  /** `/^\d{8,}$/.test(t)`: anchored at both ends, so every character of
      `t` is one of its at least eight digits. */
  predicate PhonePatternMatches(t: string): (b: bool)
    ensures b <==> |t| >= 8 && DigitCount(t) == |t|
  {
    DigitCountIsLength(t);
    |t| >= 8 && AllDigits(t)
  }

  /** The reference reading of the phone rule: the text is made of digits,
      white space and '-' only. */
  predicate OnlyDigitsAndSeparators(s: string) {
    forall i | 0 <= i < |s| :: IsDigit(s[i]) || IsPhoneSeparator(s[i])
  }

  function DigitCount(s: string): nat {
    if s == [] then 0 else (if IsDigit(s[0]) then 1 else 0) + DigitCount(s[1..])
  }

  lemma {:induction false} StripSeparatorsOfPhoneText(s: string)
    ensures AllDigits(StripSeparators(s)) <==> OnlyDigitsAndSeparators(s)
    ensures OnlyDigitsAndSeparators(s) ==> |StripSeparators(s)| == DigitCount(s)
  {
    if s != [] {
      var rest := StripSeparators(s[1..]);
      StripSeparatorsOfPhoneText(s[1..]);
      OnlyDigitsAndSeparatorsCons(s);
      if !IsPhoneSeparator(s[0]) {
        assert StripSeparators(s) == [s[0]] + rest;
        AllDigitsCons(s[0], rest);
      }
    }
  }

  lemma AllDigitsCons(c: char, r: string)
    ensures AllDigits([c] + r) <==> IsDigit(c) && AllDigits(r)
  {
    if IsDigit(c) && AllDigits(r) {
      forall k | 0 <= k < |r| + 1 ensures IsDigit(([c] + r)[k]) {
        if k > 0 { assert ([c] + r)[k] == r[k - 1]; }
      }
    }
    if AllDigits([c] + r) {
      assert IsDigit(([c] + r)[0]);
      forall k | 0 <= k < |r| ensures IsDigit(r[k]) {
        assert ([c] + r)[k + 1] == r[k];
      }
    }
  }

  lemma OnlyDigitsAndSeparatorsCons(s: string)
    requires s != []
    ensures OnlyDigitsAndSeparators(s)
            <==> (IsDigit(s[0]) || IsPhoneSeparator(s[0])) && OnlyDigitsAndSeparators(s[1..])
  {
    if (IsDigit(s[0]) || IsPhoneSeparator(s[0])) && OnlyDigitsAndSeparators(s[1..]) {
      forall k | 0 <= k < |s| ensures IsDigit(s[k]) || IsPhoneSeparator(s[k]) {
        if k > 0 { assert s[k] == s[1..][k - 1]; }
      }
    }
    if OnlyDigitsAndSeparators(s) {
      forall k | 0 <= k < |s| - 1 ensures IsDigit(s[1..][k]) || IsPhoneSeparator(s[1..][k]) {
        assert s[1..][k] == s[k + 1];
      }
    }
  }

  lemma {:induction false} DigitsMakeNonBlank(s: string)
    ensures DigitCount(s) > 0 ==> !IsBlank(s)
  {
    if DigitCount(s) > 0 && !IsDigit(s[0]) {
      DigitsMakeNonBlank(s[1..]);
      var k :| 0 <= k < |s| - 1 && !IsWhitespace(s[1..][k]);
      assert s[k + 1] == s[1..][k];
    }
  }

  /** Blank phone: "Phone number is required". Otherwise the number is
      accepted exactly when it is made of digits, white space and '-' and
      holds at least eight digits. */
  function PhoneRule(v: string): (r: Option<string>)
    ensures r == Some(PHONE_REQUIRED) <==> IsBlank(v)
    ensures r == None <==> OnlyDigitsAndSeparators(v) && DigitCount(v) >= 8
    ensures r == None || r == Some(PHONE_REQUIRED) || r == Some(PHONE_TOO_SHORT)
  {
    TrimEmptyIffBlank(v);
    StripSeparatorsOfPhoneText(v);
    DigitsMakeNonBlank(v);
    if Trim(v) == "" then Some(PHONE_REQUIRED)
    else if !PhonePatternMatches(StripSeparators(v)) then Some(PHONE_TOO_SHORT)
    else None
  }

  /** Seven digits are too few; eight are enough, with or without a '-'. */
  lemma SevenDigitsRejected()
    ensures PhoneRule("1234567") == Some(PHONE_TOO_SHORT)
  {
    ShortPhone("1234567");
  }

  lemma EightDigitsAccepted()
    ensures PhoneRule("12345678").None?
  {
    var s := "12345678";
    DigitCountOfDigits(s);
    LongEnoughPhone(s);
  }

  /** Digit groups joined by a dash, eight digits in all, pass. */
  lemma DashedPhoneAccepted(a: string, b: string)
    requires AllDigits(a) && AllDigits(b) && |a| + |b| >= 8
    ensures PhoneRule(a + "-" + b).None?
  {
    var s := a + "-" + b;
    assert s == a + ("-" + b);
    DigitCountConcat(a, "-" + b);
    assert ("-" + b)[1..] == b;
    DigitCountOfDigits(a);
    DigitCountOfDigits(b);
    forall k | 0 <= k < |s| ensures IsDigit(s[k]) || IsPhoneSeparator(s[k]) {
      if k < |a| {
        assert s[k] == a[k];
      } else if k > |a| {
        assert s[k] == b[k - |a| - 1];
      }
    }
    LongEnoughPhone(s);
  }

  lemma ShortPhone(s: string)
    requires |s| > 0 && AllDigits(s) && |s| < 8
    ensures PhoneRule(s) == Some(PHONE_TOO_SHORT)
  {
    assert !IsWhitespace(s[0]);
    StripSeparatorsOfPhoneText(s);
  }

  lemma LongEnoughPhone(s: string)
    requires OnlyDigitsAndSeparators(s) && DigitCount(s) >= 8
    ensures PhoneRule(s).None?
  {
  }

  lemma {:induction false} DigitCountOfDigits(s: string)
    requires AllDigits(s)
    ensures DigitCount(s) == |s|
  {
    if s != [] {
      assert AllDigits(s[1..]) by {
        forall k | 0 <= k < |s| - 1 ensures IsDigit(s[1..][k]) {
          assert s[1..][k] == s[k + 1];
        }
      }
      DigitCountOfDigits(s[1..]);
    }
  }

  /** A text has at most as many digits as characters, and as many exactly
      when it is all digits. */
  lemma {:induction false} DigitCountIsLength(s: string)
    ensures DigitCount(s) <= |s|
    ensures DigitCount(s) == |s| <==> AllDigits(s)
  {
    if s != [] {
      DigitCountIsLength(s[1..]);
      if AllDigits(s[1..]) && IsDigit(s[0]) {
        forall k | 0 <= k < |s| ensures IsDigit(s[k]) {
          if k > 0 { assert s[k] == s[1..][k - 1]; }
        }
      }
      if AllDigits(s) {
        forall k | 0 <= k < |s| - 1 ensures IsDigit(s[1..][k]) {
          assert s[1..][k] == s[k + 1];
        }
      }
    }
  }

  lemma {:induction false} DigitCountConcat(a: string, b: string)
    ensures DigitCount(a + b) == DigitCount(a) + DigitCount(b)
  {
    if a == [] {
      assert a + b == b;
    } else {
      assert (a + b)[0] == a[0] && (a + b)[1..] == a[1..] + b;
      DigitCountConcat(a[1..], b);
    }
  }

  // ---------------------------------------------------------------------------
  // Age

  /** The number the comparison `formData.age <= 0` turns the age text into:
      blank text is zero; otherwise the trimmed text read as a decimal
      integer, `None` standing for `NaN`. */
  function NumberValue(v: string): (n: Option<int>)
    ensures IsBlank(v) ==> n == Some(0)
    ensures !IsBlank(v) ==> (n.Some? <==> IsSignedDigits(Trim(v)))
  {
    TrimEmptyIffBlank(v);
    var t := Trim(v);
    if t == "" then Some(0) else ParseDecimal(t)
  }

  /** A whole number written out reads back as that number. */
  lemma NumberValueOfInteger(n: int)
    ensures NumberValue(IntToString(n)) == Some(n)
  {
    var s := IntToString(n);
    assert !IsWhitespace(s[0]);
    TrimEmptyIffBlank(s);
    NotWhitespaceEnds(s);
    ParseDecimalRoundTrip(n);
  }

  /** `!age || age <= 0`: the empty string is falsy, and otherwise the text's
      number must not be zero or negative (`NaN` compares false). */
  function AgeRule(v: string): (r: Option<string>)
    ensures r.Some? ==> r.value == AGE_REQUIRED
    ensures IsBlank(v) ==> r.Some?
  {
    TrimEmptyIffBlank(v);
    var n := NumberValue(v);
    if v == "" || (n.Some? && n.value <= 0) then Some(AGE_REQUIRED) else None
  }

  /** An age typed as a whole number fails exactly when it is not positive. */
  lemma AgeRuleOnIntegers(n: int)
    ensures AgeRule(IntToString(n)).Some? <==> n <= 0
  {
    var s := IntToString(n);
    assert !IsWhitespace(s[0]);
    NumberValueOfInteger(n);
  }

  lemma NotWhitespaceEnds(s: string)
    requires |s| > 0 && AllDigits(s[1..]) && !IsWhitespace(s[0])
    ensures Trim(s) == s
  {
    assert !IsWhitespace(s[|s| - 1]) by {
      if |s| > 1 { assert s[|s| - 1] == s[1..][|s| - 2]; }
    }
  }

  // ---------------------------------------------------------------------------
  // The validators

  /** The kinds of check the forms make on a field. */
  datatype Check =
    | Present(msg: string)   // a required text field
    | EmailFormat            // required, and shaped like an address
    | PhoneFormat            // required, digits and separators, at least 8 digits
    | PositiveAge            // required, and not a number at most 0
    | Chosen(msg: string)    // a select box that needs a choice
    | Unchecked              // no rule (the release form's pet type)

  /** Which check each form makes on each of its fields. */
  function CheckOf(kind: FormKind, f: Field): Check {
    match kind
    case Register =>
      (match f
       case Name => Present(NAME_REQUIRED)
       case Email => EmailFormat
       case Phone => PhoneFormat
       case Address => Present(ADDRESS_REQUIRED)
       case _ => Unchecked)
    case Release =>
      (match f
       case OwnerName => Present(NAME_REQUIRED)
       case Email => EmailFormat
       case Phone => PhoneFormat
       case PetName => Present(PET_NAME_REQUIRED)
       case Breed => Present(BREED_REQUIRED)
       case Age => PositiveAge
       case Reason => Present(REASON_REQUIRED)
       case _ => Unchecked)
    case Adopt =>
      (match f
       case AdopterName => Present(NAME_REQUIRED)
       case Email => EmailFormat
       case Phone => PhoneFormat
       case Address => Present(ADDRESS_REQUIRED)
       case PetId => Chosen(PET_REQUIRED)
       case Experience => Present(EXPERIENCE_REQUIRED)
       case Reason => Present(ADOPT_REASON_REQUIRED)
       case _ => Unchecked)
    case Contact =>
      (match f
       case Name => Present(NAME_REQUIRED)
       case Email => EmailFormat
       case Subject => Present(SUBJECT_REQUIRED)
       case Message => Present(MESSAGE_REQUIRED)
       case _ => Unchecked)
  }

  /** The shape of the check table: the e-mail rule on every form, the
      phone rule on all but contact, the age rule only on release and the pet
      choice only on adoption; every name field reports "Name is required". */
  lemma CheckOfTable(kind: FormKind, f: Field)
    ensures CheckOf(kind, f).EmailFormat? <==> f == Email
    ensures CheckOf(kind, f).PhoneFormat? <==> f == Phone && kind != Contact
    ensures CheckOf(kind, f).PositiveAge? <==> kind == Release && f == Age
    ensures CheckOf(kind, f).Chosen? <==> kind == Adopt && f == PetId
    ensures CheckOf(kind, f).Chosen? ==> CheckOf(kind, f).msg == PET_REQUIRED
    ensures CheckOf(kind, f).Present? && f in {Name, OwnerName, AdopterName}
            ==> CheckOf(kind, f).msg == NAME_REQUIRED
  {
    match kind
    case Register =>
      match f {
        case Name => case Email => case Phone => case Address =>
        case OwnerName => case PetName => case PetType => case Breed => case Age =>
        case Reason => case AdopterName => case PetId => case Experience =>
        case Subject => case Message =>
      }
    case Release =>
      match f {
        case Name => case Email => case Phone => case Address =>
        case OwnerName => case PetName => case PetType => case Breed => case Age =>
        case Reason => case AdopterName => case PetId => case Experience =>
        case Subject => case Message =>
      }
    case Adopt =>
      match f {
        case Name => case Email => case Phone => case Address =>
        case OwnerName => case PetName => case PetType => case Breed => case Age =>
        case Reason => case AdopterName => case PetId => case Experience =>
        case Subject => case Message =>
      }
    case Contact =>
      match f {
        case Name => case Email => case Phone => case Address =>
        case OwnerName => case PetName => case PetType => case Breed => case Age =>
        case Reason => case AdopterName => case PetId => case Experience =>
        case Subject => case Message =>
      }
  }

  /** The error one check reports for a value, if any. */
  function Apply(c: Check, v: string): Option<string> {
    match c
    case Present(msg) => Required(v, msg)
    case EmailFormat => EmailRule(v)
    case PhoneFormat => PhoneRule(v)
    case PositiveAge => AgeRule(v)
    case Chosen(msg) => Selected(v, msg)
    case Unchecked => None
  }

  /** The error a form reports for a value of one of its fields. */
  function Rule(kind: FormKind, f: Field, v: string): Option<string> {
    Apply(CheckOf(kind, f), v)
  }

  /** The data holds a value for every field of the form. */
  predicate Complete(kind: FormKind, d: map<Field, string>) {
    forall f | f in Fields(kind) :: f in d
  }

  /** `newErrors` after the checks of `fs`, made one after the other. */
  function Collect(kind: FormKind, fs: seq<Field>, d: map<Field, string>): (errors: map<Field, string>)
    requires forall f | f in fs :: f in d
    ensures forall f :: f in errors <==> f in fs && Rule(kind, f, d[f]).Some?
    ensures forall f | f in errors :: errors[f] == Rule(kind, f, d[f]).value
  {
    if fs == [] then map[]
    else
      var earlier := Collect(kind, fs[..|fs| - 1], d);
      var f := fs[|fs| - 1];
      assert forall g | g in fs :: g in fs[..|fs| - 1] || g == f;
      match Rule(kind, f, d[f])
      case Some(msg) => earlier[f := msg]
      case None => earlier
  }

  /** `validateForm()`: every field is checked, none is skipped after a
      failure; the keys are exactly the failing fields, each with its rule's
      message. */
  function Validate(kind: FormKind, d: map<Field, string>): (errors: map<Field, string>)
    requires Complete(kind, d)
    ensures errors.Keys <= FieldSet(kind)
    ensures forall f | f in Fields(kind) :: f in errors <==> Rule(kind, f, d[f]).Some?
    ensures forall f | f in errors :: errors[f] == Rule(kind, f, d[f]).value
  {
    Collect(kind, Fields(kind), d)
  }

  /** The contact form's `validateForm` reports only its own four fields:
      unlike the other three forms it has no phone rule, so a phone value,
      however it reads, is never reported. */
  lemma ContactValidator(d: map<Field, string>)
    requires Complete(Contact, d)
    ensures Validate(Contact, d).Keys <= {Name, Email, Subject, Message}
  {
    assert FieldSet(Contact) == {Name, Email, Subject, Message};
  }

  /** A field's error depends on that field's value alone. */
  lemma ValidateIsLocal(kind: FormKind, d: map<Field, string>, f: Field, v: string)
    requires Complete(kind, d)
    ensures Complete(kind, d[f := v])
    ensures forall g | g != f :: (g in Validate(kind, d) <==> g in Validate(kind, d[f := v]))
    ensures forall g | g != f && g in Validate(kind, d) :: Validate(kind, d)[g] == Validate(kind, d[f := v])[g]
  {
    var d' := d[f := v];
    assert Complete(kind, d') by {
      forall g | g in Fields(kind) ensures g in d' {
        assert g in d;
      }
    }
    var e, e' := Validate(kind, d), Validate(kind, d');
    forall g | g != f
      ensures g in e <==> g in e'
      ensures g in e ==> e[g] == e'[g]
    {
      if g in Fields(kind) {
        assert d'[g] == d[g];
      } else {
        assert g !in FieldSet(kind);
      }
    }
  }

  /** When every other field passes, the error map holds that one field's
      error, or nothing. */
  lemma OnlyFailure(kind: FormKind, d: map<Field, string>, f: Field)
    requires Complete(kind, d) && f in Fields(kind)
    requires forall g | g in Fields(kind) && g != f :: Rule(kind, g, d[g]).None?
    ensures Validate(kind, d) == if Rule(kind, f, d[f]).Some? then map[f := Rule(kind, f, d[f]).value] else map[]
  {
    var e := Validate(kind, d);
    forall g | g in e ensures g == f {
      assert g in FieldSet(kind);
    }
    AtMostOneKey(e, f);
  }

  /** A map whose only possible key is `f`. */
  lemma AtMostOneKey(e: map<Field, string>, f: Field)
    requires forall g | g in e :: g == f
    ensures e == if f in e then map[f := e[f]] else map[]
  {
  }
}
