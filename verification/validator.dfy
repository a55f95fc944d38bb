/** The reservation request validator: six rules checked in a fixed order,
    the first violated one reported against a named field, and the email
    pattern `^[A-Za-z0-9+_.-]+@(.+)$` written out as a predicate.

    The clock is a parameter: `now` stands for `Instant.now()`. */
module Validator {
  import opened Records

  /** The property a violation is attached to; `Bean` is the class-level
      node used when no field-level violation is added. */
  datatype Field = FirstName | LastName | Email | FromDate | ToDate | Bean

  /** The validator's verdict: valid, or the one violation it reports. */
  datatype Verdict = Valid | Invalid(message: string, field: Field)

  const DefaultMessage: string := "Invalid input parameter"
  const BlankFirstNameMessage: string := "First name shouldn't be blank"
  const BlankLastNameMessage: string := "Last name shouldn't be blank"
  const BadEmailMessage: string := "Provided email not valid"
  const TooSoonMessage: string := "Unable to book campsite less than 1 day to arrival"
  const StartAfterEndMessage: string := "Reservation start date is after end date"
  const TooLongMessage: string := "Max reservation are 3 days"

  // ---------------------------------------------------------------------
  // Blank strings

  /** Kotlin's `Char.isWhitespace` on the JVM: Java whitespace or a Unicode
      space, line or paragraph separator, by the Unicode 6.2 tables of the
      Java 8 runtime the build targets, where U+180E (Mongolian vowel
      separator) is still a space separator. */
  predicate IsWhitespace(c: char)
  {
    var n := c as int;
    || 0x09 <= n <= 0x0D
    || 0x1C <= n <= 0x20
    || n == 0xA0 || n == 0x1680 || n == 0x180E
    || 0x2000 <= n <= 0x200A
    || n == 0x2028 || n == 0x2029 || n == 0x202F || n == 0x205F || n == 0x3000
  }

  /** `isBlank`: empty, or nothing but whitespace. */
  predicate IsBlank(s: string)
  {
    forall i :: 0 <= i < |s| ==> IsWhitespace(s[i])
  }

  // ---------------------------------------------------------------------
  // The email pattern

  /** The character class `[A-Za-z0-9+_.-]` of the local part. */
  predicate IsLocalChar(c: char)
  {
    || 'A' <= c <= 'Z' || 'a' <= c <= 'z' || '0' <= c <= '9'
    || c == '+' || c == '_' || c == '.' || c == '-'
  }

  /** The characters Java's `.` does not match without DOTALL. */
  predicate IsLineTerminator(c: char)
  {
    var n := c as int;
    n == 0x0A || n == 0x0D || n == 0x85 || n == 0x2028 || n == 0x2029
  }

  /** The pattern read as a language: a non-empty local part over the class,
      an `@`, and at least one further character, none a line terminator;
      `matches()` makes the pattern cover the whole string. */
  ghost predicate MatchesEmailPattern(s: string)
  {
    exists i :: 0 < i < |s| - 1 && s[i] == '@'
      && (forall k :: 0 <= k < i ==> IsLocalChar(s[k]))
      && (forall k :: i < k < |s| ==> !IsLineTerminator(s[k]))
  }

  /** Length of the longest prefix of `s` drawn from the local-part class. */
  function LocalPrefixLength(s: string): (n: nat)
    ensures n <= |s|
    ensures forall k :: 0 <= k < n ==> IsLocalChar(s[k])
    ensures n < |s| ==> !IsLocalChar(s[n])
  {
    if s == [] || !IsLocalChar(s[0]) then 0 else 1 + LocalPrefixLength(s[1..])
  }

  /** `validateEmail`: since `@` is outside the local-part class, the only
      place the pattern can split is right after the longest local prefix. */
  function ValidateEmail(s: string): (ok: bool)
    ensures ok <==> MatchesEmailPattern(s)
  {
    var n := LocalPrefixLength(s);
    var accepted := 0 < n && n + 1 < |s| && s[n] == '@'
                    && forall k :: n < k < |s| ==> !IsLineTerminator(s[k]);
    assert MatchesEmailPattern(s) ==> accepted by {
      if MatchesEmailPattern(s) {
        var i :| 0 < i < |s| - 1 && s[i] == '@'
          && (forall k :: 0 <= k < i ==> IsLocalChar(s[k]))
          && (forall k :: i < k < |s| ==> !IsLineTerminator(s[k]));
        assert !IsLocalChar(s[i]);
        assert n == i;
      }
    }
    accepted
  }

  /** The address the controller tests submit is accepted. */
  lemma SampleEmailAccepted()
    ensures ValidateEmail("john.doe@gmail.com")
  {
    var s := "john.doe@gmail.com";
    assert s[8] == '@';
    assert forall k :: 0 <= k < 8 ==> IsLocalChar(s[k]);
    assert forall k :: 8 < k < |s| ==> !IsLineTerminator(s[k]);
  }

  /** An address whose local part leaves the class is rejected. */
  lemma SampleEmailRejected()
    ensures !ValidateEmail("23#&*@gmail.com")
  {
    var s := "23#&*@gmail.com";
    assert !IsLocalChar(s[2]);
    assert LocalPrefixLength(s) == 2;
  }

  // ---------------------------------------------------------------------
  // The six rules

  /** The rules, named in the order the validator tries them. */
  datatype Rule = BlankFirstName | BlankLastName | BadEmail | TooSoon | StartAfterEnd | TooLong

  /** Position of a rule in the checking order. */
  function Rank(rule: Rule): nat
  {
    match rule
    case BlankFirstName => 0
    case BlankLastName => 1
    case BadEmail => 2
    case TooSoon => 3
    case StartAfterEnd => 4
    case TooLong => 5
  }

  /** Whether `d` breaks `rule` when the clock reads `now`. */
  predicate Violates(rule: Rule, d: ReservationDto, now: int)
  {
    match rule
    case BlankFirstName => IsBlank(d.firstName)
    case BlankLastName => IsBlank(d.lastName)
    case BadEmail => !ValidateEmail(d.email)
    case TooSoon => now + DAY > d.fromDate
    case StartAfterEnd => d.fromDate > d.toDate
    case TooLong => d.toDate - 3 * DAY > d.fromDate
  }

  /** The message each rule reports. */
  function MessageOf(rule: Rule): string
  {
    match rule
    case BlankFirstName => BlankFirstNameMessage
    case BlankLastName => BlankLastNameMessage
    case BadEmail => BadEmailMessage
    case TooSoon => TooSoonMessage
    case StartAfterEnd => StartAfterEndMessage
    case TooLong => TooLongMessage
  }

  /** The field each rule's violation is attached to. */
  function FieldOf(rule: Rule): Field
  {
    match rule
    case BlankFirstName => FirstName
    case BlankLastName => LastName
    case BadEmail => Email
    case TooSoon => FromDate
    case StartAfterEnd => FromDate
    case TooLong => ToDate
  }

  /** `isValid`: a null DTO is invalid; otherwise the `when` chain reports the
      first rule the DTO breaks, or accepts it. */
  function Validate(dto: Option<ReservationDto>, now: int): (v: Verdict)
    ensures v.Valid? <==> dto.Some? && forall rule :: !Violates(rule, dto.value, now)
    ensures dto.None? ==> v == Invalid(DefaultMessage, Bean)
    ensures dto.Some? && v.Invalid? ==>
      exists rule :: Violates(rule, dto.value, now)
        && v == Invalid(MessageOf(rule), FieldOf(rule))
        && forall earlier :: Rank(earlier) < Rank(rule) ==> !Violates(earlier, dto.value, now)
  {
    match dto
    case None => Invalid(DefaultMessage, Bean)
    case Some(d) =>
      if IsBlank(d.firstName) then
        assert Violates(BlankFirstName, d, now);
        Invalid(BlankFirstNameMessage, FirstName)
      else if IsBlank(d.lastName) then
        assert Violates(BlankLastName, d, now);
        Invalid(BlankLastNameMessage, LastName)
      else if !ValidateEmail(d.email) then
        assert Violates(BadEmail, d, now);
        Invalid(BadEmailMessage, Email)
      else if now + DAY > d.fromDate then
        assert Violates(TooSoon, d, now);
        Invalid(TooSoonMessage, FromDate)
      else if d.fromDate > d.toDate then
        assert Violates(StartAfterEnd, d, now);
        Invalid(StartAfterEndMessage, FromDate)
      else if d.toDate - 3 * DAY > d.fromDate then
        assert Violates(TooLong, d, now);
        Invalid(TooLongMessage, ToDate)
      else
        Valid
  }

  /** The order of the checks, as a list. */
  const Rules: seq<Rule> := [BlankFirstName, BlankLastName, BadEmail, TooSoon, StartAfterEnd, TooLong]

  /** Reference reading of "first failure wins": the first rule of `rules`
      that `d` breaks. */
  function FirstViolation(rules: seq<Rule>, d: ReservationDto, now: int): (found: Option<Rule>)
    ensures found.Some? ==> found.value in rules && Violates(found.value, d, now)
    ensures found.None? <==> forall i :: 0 <= i < |rules| ==> !Violates(rules[i], d, now)
  {
    if rules == [] then None
    else if Violates(rules[0], d, now) then Some(rules[0])
    else FirstViolation(rules[1..], d, now)
  }

  /** The validator agrees with the reference: it reports exactly the first
      rule of the list the DTO breaks, with that rule's message and field. */
  lemma {:induction false} ValidateIsFirstViolation(d: ReservationDto, now: int)
    ensures Validate(Some(d), now) ==
      match FirstViolation(Rules, d, now)
      case None => Valid
      case Some(rule) => Invalid(MessageOf(rule), FieldOf(rule))
  {
    var v := Validate(Some(d), now);
    var f := FirstViolation(Rules, d, now);
    if v.Invalid? {
      var rule :| Violates(rule, d, now)
        && v == Invalid(MessageOf(rule), FieldOf(rule))
        && forall earlier :: Rank(earlier) < Rank(rule) ==> !Violates(earlier, d, now);
      assert Rules[Rank(rule)] == rule;
      assert forall i :: 0 <= i < Rank(rule) ==> Rank(Rules[i]) == i;
      FirstViolationIsFirst(Rules, d, now, Rank(rule));
    }
  }

  /** If the rule at `j` is broken and none before it is, the search finds it. */
  lemma {:induction false} FirstViolationIsFirst(rules: seq<Rule>, d: ReservationDto, now: int, j: nat)
    requires j < |rules| && Violates(rules[j], d, now)
    requires forall i :: 0 <= i < j ==> !Violates(rules[i], d, now)
    ensures FirstViolation(rules, d, now) == Some(rules[j])
    decreases j
  {
    if j > 0 {
      assert !Violates(rules[0], d, now);
      FirstViolationIsFirst(rules[1..], d, now, j - 1);
    }
  }

  /** The ordering in action: a blank first name is reported even when the
      email is bad as well. */
  lemma FirstNameReportedBeforeEmail(d: ReservationDto, now: int)
    requires IsBlank(d.firstName) && !ValidateEmail(d.email)
    ensures Validate(Some(d), now) == Invalid(BlankFirstNameMessage, FirstName)
  {
  }

  /** A DTO that clears the first three rules and arrives exactly one day from
      now. */
  predicate Bookable(d: ReservationDto, now: int)
  {
    !IsBlank(d.firstName) && !IsBlank(d.lastName) && ValidateEmail(d.email) && d.fromDate == now + DAY
  }

  /** Boundaries of the date rules: arriving exactly one day from now is
      allowed; a one-instant stay and a stay of exactly three days are valid;
      a stay of five days is rejected on `toDate`. */
  lemma DateBoundaries(d: ReservationDto, now: int)
    requires Bookable(d, now)
    ensures d.toDate == d.fromDate ==> Validate(Some(d), now) == Valid
    ensures d.toDate == d.fromDate + 3 * DAY ==> Validate(Some(d), now) == Valid
    ensures d.toDate == d.fromDate + 5 * DAY ==> Validate(Some(d), now) == Invalid(TooLongMessage, ToDate)
    ensures d.toDate < d.fromDate ==> Validate(Some(d), now) == Invalid(StartAfterEndMessage, FromDate)
  {
  }

  /** Arriving sooner than one day from now is reported on `fromDate`, after
      the name and email checks. */
  lemma TooSoonReported(d: ReservationDto, now: int)
    requires !IsBlank(d.firstName) && !IsBlank(d.lastName) && ValidateEmail(d.email)
    requires d.fromDate < now + DAY
    ensures Validate(Some(d), now) == Invalid(TooSoonMessage, FromDate)
  {
  }

  /** On the Java 8 tables a first name made of U+180E alone is blank and is
      reported as such, while one with a letter is not blank. */
  lemma MongolianVowelSeparatorIsBlank(d: ReservationDto, now: int)
    requires d.firstName == [0x180E as char]
    ensures IsBlank(d.firstName) && !IsBlank([0x180E as char, 'a'])
    ensures Validate(Some(d), now) == Invalid(BlankFirstNameMessage, FirstName)
  {
    var sep := [0x180E as char, 'a'];
    assert !IsWhitespace(sep[1]);
  }
}
