/**
  The field validator run when a form field loses focus: an ordered chain of
  rules over the trimmed value, whose outcome is the field's `is-valid` /
  `is-invalid` classes, the state of its `.invalid-feedback` element and a
  boolean verdict.
*/
module Validator {
  import opened Basics
  import opened Text

  const ValidClass := "is-valid"
  const InvalidClass := "is-invalid"
  const EmailType := "email"
  const DateTimeType := "datetime-local"
  const EmailMessage := "Please enter a valid email address."
  const DateMessage := "Event date must be in the future."

  /** A character of the class `[^\s@]`. */
  predicate TokenChar(c: char) {
    !IsWhitespace(c) && c != '@'
  }

  /** Every character of `s` from index `lo` up to (not including) `hi` is in `[^\s@]`. */
  predicate TokensIn(s: string, lo: nat, hi: nat)
    requires lo <= hi <= |s|
  {
    forall i :: lo <= i < hi ==> TokenChar(s[i])
  }

  /**
    The strings `/^[^\s@]+@[^\s@]+\.[^\s@]+$/` accepts: a non-empty block of
    `[^\s@]`, an "@", a non-empty block, a ".", a non-empty block.
  */
  ghost predicate EmailPattern(s: string) {
    exists at: nat, dot: nat ::
      && 0 < at && at + 1 < dot && dot + 1 < |s|
      && s[at] == '@' && s[dot] == '.'
      && TokensIn(s, 0, at) && TokensIn(s, at + 1, dot) && TokensIn(s, dot + 1, |s|)
  }

  /** The position of the first `c` in `s`, or `|s|` when there is none. */
  function IndexOf(s: string, c: char): (i: nat)
    ensures i <= |s|
    ensures i < |s| ==> s[i] == c
    ensures forall j :: 0 <= j < i ==> s[j] != c
  {
    if s == [] then 0
    else if s[0] == c then 0
    else 1 + IndexOf(s[1..], c)
  }

  /**
    The regular-expression test, decided directly: the first "@" has a
    non-empty block before it, no character after it is white space or "@",
    and a "." stands strictly inside what follows it.
  */
  function MatchesEmail(s: string): bool {
    var at := IndexOf(s, '@');
    && 0 < at < |s|
    && TokensIn(s, 0, at)
    && TokensIn(s, at + 1, |s|)
    && exists dot | at + 2 <= dot < |s| - 1 :: s[dot] == '.'
  }

  /** A block of `[^\s@]` characters splits into blocks of them. */
  lemma TokensSplit(s: string, lo: nat, mid: nat, hi: nat)
    requires lo <= mid <= hi <= |s|
    ensures TokensIn(s, lo, hi) <==> TokensIn(s, lo, mid) && TokensIn(s, mid, hi)
  {
  }

  /** Every string the direct test accepts has the shape the regular expression demands. */
  lemma MatchesEmailSound(s: string)
    requires MatchesEmail(s)
    ensures EmailPattern(s)
  {
    var at := IndexOf(s, '@');
    var dot :| at + 2 <= dot < |s| - 1 && s[dot] == '.';
    TokensSplit(s, at + 1, dot, |s|);
    TokensSplit(s, dot, dot + 1, |s|);
    assert && 0 < at && at + 1 < dot && dot + 1 < |s|
           && s[at] == '@' && s[dot] == '.'
           && TokensIn(s, 0, at) && TokensIn(s, at + 1, dot) && TokensIn(s, dot + 1, |s|);
  }

  /** An "@" preceded only by `[^\s@]` characters is the first "@". */
  lemma FirstAt(s: string, a: nat)
    requires a < |s| && s[a] == '@' && TokensIn(s, 0, a)
    ensures IndexOf(s, '@') == a
  {
    assert forall j :: 0 <= j < a ==> s[j] != '@';
  }

  /** Every string of the regular expression's shape passes the direct test. */
  lemma MatchesEmailComplete(s: string)
    requires EmailPattern(s)
    ensures MatchesEmail(s)
  {
    var a: nat, d: nat :|
      && 0 < a && a + 1 < d && d + 1 < |s|
      && s[a] == '@' && s[d] == '.'
      && TokensIn(s, 0, a) && TokensIn(s, a + 1, d) && TokensIn(s, d + 1, |s|);
    FirstAt(s, a);
    assert TokensIn(s, d, d + 1) by {
      assert !IsWhitespace(s[d]);
    }
    TokensSplit(s, d, d + 1, |s|);
    TokensSplit(s, a + 1, d, |s|);
    assert a + 2 <= d < |s| - 1 && s[d] == '.';
  }

  /** The direct test accepts exactly the strings the regular expression accepts. */
  lemma MatchesEmailCorrect(s: string)
    ensures MatchesEmail(s) <==> EmailPattern(s)
  {
    if MatchesEmail(s) { MatchesEmailSound(s); }
    if EmailPattern(s) { MatchesEmailComplete(s); }
  }

  /** A string without "@" is rejected. */
  lemma NoAtRejected(s: string)
    requires '@' !in s
    ensures !MatchesEmail(s)
  {
  }

  /** "bad-email" is rejected: it has no "@". */
  lemma NoAtExampleRejected()
    ensures !MatchesEmail("bad-email")
  {
    assert '@' !in "bad-email";
    NoAtRejected("bad-email");
  }

  /** "a@b.co" is accepted: one character, "@", "b", ".", "co". */
  lemma ShortAddressAccepted()
    ensures MatchesEmail("a@b.co")
  {
    var good := "a@b.co";
    assert good[0] == 'a' && good[1] == '@' && good[2] == 'b' && good[3] == '.' && good[4] == 'c' && good[5] == 'o';
    assert IndexOf(good, '@') == 1;
    assert TokensIn(good, 0, 1);
    assert TokensIn(good, 2, 6);
    assert 1 + 2 <= 3 < |good| - 1 && good[3] == '.';
  }

  /** The field as the blur handler sees it: its raw value, `required` attribute, `type` and class list. */
  datatype Field = Field(value: string, required: bool, kind: string, classes: set<string>)

  /** The field's `.invalid-feedback` element: its text and its `style.display`. */
  datatype Feedback = Feedback(text: string, display: string)

  /** What validation leaves behind: the verdict, the field's classes and the feedback element, if any. */
  datatype Outcome = Outcome(valid: bool, classes: set<string>, feedback: Option<Feedback>)

  /** `new Date(value) < new Date()`: false for a value that parses to an invalid date. */
  predicate IsPast(date: Option<int>, now: int): (past: bool)
    ensures date == None ==> !past
    ensures date.Some? ==> (past <==> date.value < now)
  {
    date.Some? && date.value < now
  }

  /** Rule 1: a required field whose trimmed value is empty. */
  predicate MissingRequired(field: Field) {
    field.required && IsBlank(field.value)
  }

  /** Rule 2: an email field whose trimmed value is non-empty and does not match the pattern. */
  ghost predicate BadEmail(field: Field) {
    field.kind == EmailType && !IsBlank(field.value) && !EmailPattern(Trim(field.value))
  }

  /** Rule 3: a date-time field whose trimmed value is non-empty and parses to a moment before `now`. */
  predicate PastDate(field: Field, parseDate: string -> Option<int>, now: int) {
    field.kind == DateTimeType && !IsBlank(field.value) && IsPast(parseDate(Trim(field.value)), now)
  }

  /** Which rule, if any, rejects the field. */
  datatype Verdict = Pass | RequiredMissing | EmailInvalid | DateInPast

  /**
    The rule chain on the trimmed value, first failure wins: required and
    empty, then email and not matching the pattern, then date-time and
    before `now`.
  */
  function CheckRules(field: Field, parseDate: string -> Option<int>, now: int): (v: Verdict)
    ensures v == RequiredMissing <==> MissingRequired(field)
    ensures v == EmailInvalid <==> BadEmail(field)
    ensures v == DateInPast <==> PastDate(field, parseDate, now)
  {
    var value := Trim(field.value);
    MatchesEmailCorrect(value);
    if field.required && value == "" then RequiredMissing
    else if field.kind == EmailType && value != "" && !MatchesEmail(value) then EmailInvalid
    else if field.kind == DateTimeType && value != "" && IsPast(parseDate(value), now) then DateInPast
    else Pass
  }

  /** Show the feedback element, with a new text when one is given. */
  function ShowFeedback(feedback: Option<Feedback>, message: Option<string>): Option<Feedback> {
    match feedback
    case None => None
    case Some(f) => Some(Feedback(if message.Some? then message.value else f.text, "block"))
  }

  /** Hide the feedback element, keeping its text. */
  function HideFeedback(feedback: Option<Feedback>): Option<Feedback> {
    match feedback
    case None => None
    case Some(f) => Some(f.(display := "none"))
  }

  /**
    `validateField`: clear both marks, then act on the first rule that
    fires: mark the field invalid and show the feedback (with the rule's
    message for the email and date rules), or, when none fires, mark it valid
    if its trimmed value is non-empty and hide the feedback. `parseDate`
    stands for `new Date(...)` (`None` for an invalid date) and `now` for the
    clock.
  */
  function ValidateField(field: Field, feedback: Option<Feedback>, parseDate: string -> Option<int>, now: int): (out: Outcome)
    ensures out.valid <==> !MissingRequired(field) && !BadEmail(field) && !PastDate(field, parseDate, now)
    ensures out.classes - {ValidClass, InvalidClass} == field.classes - {ValidClass, InvalidClass}
    ensures InvalidClass in out.classes <==> !out.valid
    ensures ValidClass in out.classes <==> out.valid && !IsBlank(field.value)
    ensures out.feedback.Some? <==> feedback.Some?
    ensures out.feedback.Some? ==> out.feedback.value.display == (if out.valid then "none" else "block")
    ensures out.feedback.Some? && BadEmail(field) ==> out.feedback.value.text == EmailMessage
    ensures out.feedback.Some? && PastDate(field, parseDate, now) ==> out.feedback.value.text == DateMessage
    ensures out.feedback.Some? && !BadEmail(field) && !PastDate(field, parseDate, now) ==>
      out.feedback.value.text == feedback.value.text
  {
    var cleared := field.classes - {ValidClass, InvalidClass};
    match CheckRules(field, parseDate, now)
    case RequiredMissing => Outcome(false, cleared + {InvalidClass}, ShowFeedback(feedback, None))
    case EmailInvalid => Outcome(false, cleared + {InvalidClass}, ShowFeedback(feedback, Some(EmailMessage)))
    case DateInPast => Outcome(false, cleared + {InvalidClass}, ShowFeedback(feedback, Some(DateMessage)))
    case Pass => Outcome(true, if Trim(field.value) != "" then cleared + {ValidClass} else cleared, HideFeedback(feedback))
  }

  /** The three rules never fire together: rule 1 needs a blank value, rules 2 and 3 a non-blank one of different types. */
  lemma RulesExclusive(field: Field, parseDate: string -> Option<int>, now: int)
    ensures !(MissingRequired(field) && BadEmail(field))
    ensures !(MissingRequired(field) && PastDate(field, parseDate, now))
    ensures !(BadEmail(field) && PastDate(field, parseDate, now))
  {
  }

  /** Validating again a field that has not changed since the last validation changes nothing. */
  lemma ValidateTwice(field: Field, feedback: Option<Feedback>, parseDate: string -> Option<int>, now: int)
    ensures var out := ValidateField(field, feedback, parseDate, now);
      ValidateField(field.(classes := out.classes), out.feedback, parseDate, now) == out
  {
    var out := ValidateField(field, feedback, parseDate, now);
    var again := ValidateField(field.(classes := out.classes), out.feedback, parseDate, now);
    assert again.classes == out.classes;
  }

  /**
    A date-time value the date parser rejects passes validation and is
    marked valid: an invalid date is never "before now".
  */
  lemma UnparsableDateIsAccepted(field: Field, feedback: Option<Feedback>, parseDate: string -> Option<int>, now: int)
    requires field.kind == DateTimeType && !IsBlank(field.value)
    requires parseDate(Trim(field.value)) == None
    ensures var out := ValidateField(field, feedback, parseDate, now);
      out.valid && ValidClass in out.classes && InvalidClass !in out.classes
  {
  }

  /**
    A required email field first left as "bad" and then emptied shows the
    email message again: rule 1 shows the feedback element without
    resetting the text the email rule wrote.
  */
  lemma EmptiedEmailKeepsEmailMessage(parseDate: string -> Option<int>, now: int)
    ensures var first := ValidateField(Field("bad", true, EmailType, {}), Some(Feedback("", "")), parseDate, now);
      var second := ValidateField(Field("", true, EmailType, first.classes), first.feedback, parseDate, now);
      && !first.valid && !second.valid
      && second.feedback == Some(Feedback(EmailMessage, "block"))
  {
    var first := ValidateField(Field("bad", true, EmailType, {}), Some(Feedback("", "")), parseDate, now);
    assert !IsWhitespace('b');
    assert !EmailPattern("bad") by {
      assert IndexOf("bad", '@') == 3;
      assert !MatchesEmail("bad");
      MatchesEmailCorrect("bad");
    }
    assert BadEmail(Field("bad", true, EmailType, {}));
  }
}
