/** Decimal text: `std::to_string`, `std::stoll` in base ten, and the full-consumption `ParseInt`. */
module IntegerText {
  import opened Wrappers
  import Int64

  /** `std::stoll` either throws or yields a value and the position of the first character it did not use. */
  datatype Stoll = Parsed(value: int, pos: nat) | InvalidArgument | OutOfRange

  /** `isspace` in the C locale. */
  predicate Space(c: char) {
    c == ' ' || c == '\t' || c == '\n' || c == '\U{0B}' || c == '\U{0C}' || c == '\r'
  }

  predicate Digit(c: char) {
    '0' <= c <= '9'
  }

  predicate Sign(c: char) {
    c == '+' || c == '-'
  }

  /** How many leading characters are white space. */
  function SpacePrefix(s: string): (n: nat)
    ensures n <= |s|
  {
    if s == "" || !Space(s[0]) then 0 else 1 + SpacePrefix(s[1..])
  }

  /** How many leading characters are digits. */
  function DigitPrefix(s: string): (n: nat)
    ensures n <= |s|
  {
    if s == "" || !Digit(s[0]) then 0 else 1 + DigitPrefix(s[1..])
  }

  ghost predicate AllSpaces(s: string) {
    forall i :: 0 <= i < |s| ==> Space(s[i])
  }

  ghost predicate AllDigits(s: string) {
    forall i :: 0 <= i < |s| ==> Digit(s[i])
  }

  function DigitValue(c: char): nat
    requires Digit(c)
  {
    c as int - '0' as int
  }

  /** The number a digit string denotes, most significant digit first. */
  function Magnitude(digits: string): int
    requires AllDigits(digits)
  {
    if digits == "" then 0 else 10 * Magnitude(digits[..|digits| - 1]) + DigitValue(digits[|digits| - 1])
  }

  lemma {:induction false} DigitPrefixIsDigits(s: string)
    ensures AllDigits(s[..DigitPrefix(s)])
    ensures DigitPrefix(s) < |s| ==> !Digit(s[DigitPrefix(s)])
  {
    if s != "" && Digit(s[0]) {
      DigitPrefixIsDigits(s[1..]);
      assert s[..DigitPrefix(s)] == [s[0]] + s[1..][..DigitPrefix(s[1..])];
    }
  }

  /** Where the first digit is expected: after the white space and at most one sign. */
  function DigitsAt(s: string): (first: nat)
    ensures SpacePrefix(s) <= first <= |s|
  {
    var start := SpacePrefix(s);
    if start < |s| && Sign(s[start]) then start + 1 else start
  }

  predicate Negative(s: string) {
    SpacePrefix(s) < |s| && s[SpacePrefix(s)] == '-'
  }

  /** The run of digits that is converted. */
  function DigitsOf(s: string): (digits: string)
    ensures AllDigits(digits) && DigitsAt(s) + |digits| <= |s|
  {
    var body := s[DigitsAt(s)..];
    DigitPrefixIsDigits(body);
    body[..DigitPrefix(body)]
  }

  /** `strtoll` with base ten and an end pointer, turned into `stoll`'s value or exception. */
  function StollOf(s: string): Stoll {
    var digits := DigitsOf(s);
    if digits == "" then InvalidArgument
    else
      var value := if Negative(s) then -Magnitude(digits) else Magnitude(digits);
      if Int64.Fits(value) then Parsed(value, DigitsAt(s) + |digits|) else OutOfRange
  }

  /** `std::to_string` of a non-negative number. */
  function NatToString(n: nat): (s: string)
    ensures s != "" && AllDigits(s)
  {
    var last := [('0' as int + n % 10) as char];
    if n < 10 then last else NatToString(n / 10) + last
  }

  /** `std::to_string` */
  function ToString(n: int): string {
    if n < 0 then "-" + NatToString(-n) else NatToString(n)
  }

  /** The value of a text that is an integer from its first character to its last. */
  function WholeInteger(text: string): Option<int> {
    match StollOf(text)
    case Parsed(value, pos) => if pos == |text| then Some(value) else None
    case _ => None
  }

  /** `ParseInt`: an integer spelled by the whole text, or `out` left as it was. */
  method ParseInt(value: string, out: int) returns (ok: bool, result: int)
    ensures ok <==>
            exists spaces, sign, digits ::
              IntegerShape(value, spaces, sign, digits) && Int64.Fits(Denoted(sign, digits))
    ensures ok ==> WholeInteger(value) == Some(result) && StollOf(value) == Parsed(result, |value|)
    ensures !ok ==> WholeInteger(value) == None && result == out
  {
    result := out;
    ok := false;
    ParseIntAccepts(value);
    var parsed := StollOf(value);
    match parsed
    case Parsed(v, pos) =>
      if pos != |value| {
        return false, out;
      }
      return true, v;
    case _ =>
      return false, out;
  }

  // ---- What the parsers accept -----------------------------------------------------------------

  /** Optional white space, an optional sign, and one or more digits. */
  ghost predicate IntegerShape(s: string, spaces: string, sign: string, digits: string) {
    s == spaces + sign + digits && AllSpaces(spaces) && sign in {"", "+", "-"} && digits != "" && AllDigits(digits)
  }

  function Denoted(sign: string, digits: string): int
    requires AllDigits(digits)
  {
    if sign == "-" then -Magnitude(digits) else Magnitude(digits)
  }

  /** The whole text is an integer in range, and denotes `n`. */
  ghost predicate Denotes(text: string, n: int) {
    Int64.Fits(n) &&
    exists spaces, sign, digits :: IntegerShape(text, spaces, sign, digits) && Denoted(sign, digits) == n
  }

  /** The text starts with an integer in range that denotes `n`, cut off where the digits end. */
  ghost predicate StartsWith(text: string, n: int) {
    Int64.Fits(n) && exists spaces, sign, digits, rest ::
      text == spaces + sign + digits + rest && (rest == "" || !Digit(rest[0])) &&
      IntegerShape(spaces + sign + digits, spaces, sign, digits) && Denoted(sign, digits) == n
  }

  lemma {:induction false} SpacePrefixOf(spaces: string, rest: string)
    requires AllSpaces(spaces) && (rest == "" || !Space(rest[0]))
    ensures SpacePrefix(spaces + rest) == |spaces|
  {
    if spaces == "" {
      assert spaces + rest == rest;
    } else {
      SpacePrefixOf(spaces[1..], rest);
      assert (spaces + rest)[1..] == spaces[1..] + rest;
    }
  }

  lemma {:induction false} DigitPrefixOf(digits: string, rest: string)
    requires AllDigits(digits) && (rest == "" || !Digit(rest[0]))
    ensures DigitPrefix(digits + rest) == |digits|
  {
    if digits == "" {
      assert digits + rest == rest;
    } else {
      DigitPrefixOf(digits[1..], rest);
      assert (digits + rest)[1..] == digits[1..] + rest;
    }
  }

  lemma SpacesEndAtSign(spaces: string, body: string)
    requires AllSpaces(spaces) && body != "" && !Space(body[0])
    ensures var s := spaces + body;
            SpacePrefix(s) == |spaces| && s[|spaces|] == body[0] &&
            DigitsAt(s) == |spaces| + (if Sign(body[0]) then 1 else 0) && (Negative(s) <==> body[0] == '-')
  {
    SpacePrefixOf(spaces, body);
  }

  lemma DigitsEndAtRest(before: string, digits: string, rest: string)
    requires DigitsAt(before + (digits + rest)) == |before| && AllDigits(digits) && (rest == "" || !Digit(rest[0]))
    ensures DigitsOf(before + (digits + rest)) == digits
  {
    var body := digits + rest;
    assert (before + body)[|before|..] == body;
    DigitPrefixOf(digits, rest);
    assert body[..|digits|] == digits;
  }

  lemma ScanFinds(spaces: string, sign: string, digits: string, rest: string)
    requires IntegerShape(spaces + sign + digits, spaces, sign, digits) && (rest == "" || !Digit(rest[0]))
    ensures var s := spaces + sign + digits + rest;
            DigitsAt(s) == |spaces| + |sign| && DigitsOf(s) == digits && (Negative(s) <==> sign == "-")
  {
    var s, body := spaces + sign + digits + rest, sign + (digits + rest);
    assert body[0] == if sign == "" then digits[0] else sign[0];
    SpacesEndAtSign(spaces, body);
    assert s == spaces + body;
    assert s == (spaces + sign) + (digits + rest);
    DigitsEndAtRest(spaces + sign, digits, rest);
  }

  /** Text that starts with an integer, followed by anything but a digit, is read as that integer. */
  lemma StollReads(spaces: string, sign: string, digits: string, rest: string)
    requires IntegerShape(spaces + sign + digits, spaces, sign, digits) && (rest == "" || !Digit(rest[0]))
    ensures StollOf(spaces + sign + digits + rest)
         == if Int64.Fits(Denoted(sign, digits)) then Parsed(Denoted(sign, digits), |spaces + sign + digits|)
           else OutOfRange
  {
    ScanFinds(spaces, sign, digits, rest);
  }

  lemma {:induction false} SpacePrefixIsSpaces(s: string)
    ensures AllSpaces(s[..SpacePrefix(s)])
    ensures SpacePrefix(s) < |s| ==> !Space(s[SpacePrefix(s)])
  {
    if s != "" && Space(s[0]) {
      SpacePrefixIsSpaces(s[1..]);
      assert s[..SpacePrefix(s)] == [s[0]] + s[1..][..SpacePrefix(s[1..])];
    }
  }

  /** Whatever `stoll` accepts starts with an integer of the right shape and value, cut where the digits end. */
  lemma StollAccepts(s: string) returns (spaces: string, sign: string, digits: string)
    requires StollOf(s).Parsed?
    ensures var r := StollOf(s);
            r.pos <= |s| && IntegerShape(s[..r.pos], spaces, sign, digits) && r.value == Denoted(sign, digits) &&
            Int64.Fits(r.value) && (r.pos < |s| ==> !Digit(s[r.pos]))
  {
    var start, first := SpacePrefix(s), DigitsAt(s);
    SpacePrefixIsSpaces(s);
    DigitPrefixIsDigits(s[first..]);
    spaces, sign, digits := s[..start], s[start..first], DigitsOf(s);
    var end := first + |digits|;
    assert end < |s| ==> s[first..][|digits|] == s[end];
    assert s[..end] == spaces + sign + digits;
    assert first == start + 1 ==> sign == [s[start]];
  }

  /** `ParseInt` accepts exactly the texts of integer shape whose value fits in 64 bits. */
  lemma ParseIntAccepts(s: string)
    ensures (StollOf(s).Parsed? && StollOf(s).pos == |s|) <==>
            exists spaces, sign, digits :: IntegerShape(s, spaces, sign, digits) && Int64.Fits(Denoted(sign, digits))
  {
    if StollOf(s).Parsed? && StollOf(s).pos == |s| {
      var spaces, sign, digits := StollAccepts(s);
      assert s[..|s|] == s;
      assert IntegerShape(s, spaces, sign, digits);
    }
    if spaces, sign, digits :| IntegerShape(s, spaces, sign, digits) && Int64.Fits(Denoted(sign, digits)) {
      StollReads(spaces, sign, digits, "");
      assert spaces + sign + digits + "" == s;
    }
  }

  /** `stoll` also accepts an integer followed by rubbish, which `ParseInt` refuses. */
  lemma StollIgnoresTail(s: string, tail: string)
    requires StollOf(s).Parsed? && StollOf(s).pos == |s| && tail != "" && !Digit(tail[0])
    ensures StollOf(s + tail) == StollOf(s)
  {
    var spaces, sign, digits := StollAccepts(s);
    assert s[..|s|] == s == spaces + sign + digits;
    StollReads(spaces, sign, digits, tail);
    StollReads(spaces, sign, digits, "");
    assert spaces + sign + digits + "" == s;
  }

  /** The full parse yields `n` exactly for the texts that denote it. */
  lemma {:induction false} WholeIntegerIff(text: string, n: int)
    ensures WholeInteger(text) == Some(n) <==> Denotes(text, n)
  {
    hide Magnitude, StollOf;
    if WholeInteger(text) == Some(n) {
      var spaces, sign, digits := StollAccepts(text);
      assert text[..|text|] == text;
      assert IntegerShape(text, spaces, sign, digits);
    }
    if Denotes(text, n) {
      var spaces, sign, digits :| IntegerShape(text, spaces, sign, digits) && Denoted(sign, digits) == n;
      StollReads(spaces, sign, digits, "");
      assert spaces + sign + digits + "" == text;
    }
  }

  /** The whole text is an integer in range. */
  ghost predicate IsWhole(text: string) {
    exists n :: Denotes(text, n)
  }

  lemma {:induction false} IsWholeIff(text: string)
    ensures WholeInteger(text).Some? <==> IsWhole(text)
  {
    hide WholeInteger, Denotes;
    if WholeInteger(text).Some? {
      WholeIntegerIff(text, WholeInteger(text).value);
    }
    if n :| Denotes(text, n) {
      WholeIntegerIff(text, n);
    }
  }

  /** The text starts with an integer in range. */
  ghost predicate HasInteger(text: string) {
    exists n :: StartsWith(text, n)
  }

  lemma {:induction false} HasIntegerIff(text: string)
    ensures StollOf(text).Parsed? <==> HasInteger(text)
  {
    hide StollOf, StartsWith;
    if StollOf(text).Parsed? {
      StollIff(text, StollOf(text).value);
    }
    if n :| StartsWith(text, n) {
      StollIff(text, n);
    }
  }

  /** The prefix parse yields `n` exactly for the texts that start with it. */
  lemma {:induction false} StollIff(text: string, n: int)
    ensures StollOf(text).Parsed? && StollOf(text).value == n <==> StartsWith(text, n)
  {
    hide StollOf, Magnitude;
    if StollOf(text).Parsed? && StollOf(text).value == n {
      var spaces, sign, digits := StollAccepts(text);
      var pos := StollOf(text).pos;
      var rest := text[pos..];
      assert text == text[..pos] + rest && text[..pos] == spaces + sign + digits;
      assert text == spaces + sign + digits + rest;
    }
    if StartsWith(text, n) {
      var spaces, sign, digits, rest :|
        text == spaces + sign + digits + rest && (rest == "" || !Digit(rest[0])) &&
        IntegerShape(spaces + sign + digits, spaces, sign, digits) && Denoted(sign, digits) == n;
      StollReads(spaces, sign, digits, rest);
    }
  }

  // ---- Round trips -----------------------------------------------------------------------------

  lemma {:induction false} MagnitudeOfNat(n: nat)
    ensures Magnitude(NatToString(n)) == n
  {
    var last := [('0' as int + n % 10) as char];
    if n < 10 {
      assert last[..0] == "";
    } else {
      MagnitudeOfNat(n / 10);
      assert (NatToString(n / 10) + last)[..|NatToString(n / 10)|] == NatToString(n / 10);
    }
  }

  lemma SignedDigitsRead(sign: string, digits: string)
    requires sign in {"", "-"} && digits != "" && AllDigits(digits) && Int64.Fits(Denoted(sign, digits))
    ensures StollOf(sign + digits) == Parsed(Denoted(sign, digits), |sign + digits|)
  {
    assert "" + sign + digits == sign + digits;
    StollReads("", sign, digits, "");
    assert "" + sign + digits + "" == sign + digits;
  }

  /** Every 64-bit integer survives being written and read back, the minimum included, using the whole text. */
  lemma RoundTrip(n: int)
    requires Int64.Fits(n)
    ensures StollOf(ToString(n)) == Parsed(n, |ToString(n)|)
  {
    if n < 0 {
      MagnitudeOfNat(-n);
      SignedDigitsRead("-", NatToString(-n));
    } else {
      MagnitudeOfNat(n);
      SignedDigitsRead("", NatToString(n));
      assert "" + NatToString(n) == ToString(n);
    }
  }

  lemma {:induction false} NatToStringLeads(n: nat)
    ensures NatToString(n)[0] == '0' ==> n == 0 && NatToString(n) == "0"
  {
    if n >= 10 {
      NatToStringLeads(n / 10);
    }
  }

  /** The text written for a number is the shortest: no white space, no plus sign, no leading zero. */
  lemma {:induction false} WrittenShortest(n: int)
    ensures exists digits ::
              ToString(n) == (if n < 0 then "-" else "") + digits && digits != "" && AllDigits(digits) &&
              (digits[0] == '0' ==> n == 0 && digits == "0")
  {
    var m := if n < 0 then -n else n;
    NatToStringLeads(m);
    assert ToString(n) == (if n < 0 then "-" else "") + NatToString(m);
  }

  // ---- The token's subject ---------------------------------------------------------------------

  datatype AuthResult = User(id: int) | EmptySubject | NotAnInteger

  /** The subject the login handler signs for a user. */
  function SubjectFor(userId: int): string {
    ToString(userId)
  }

  /** What the checker makes of a verified token's subject. */
  function CheckSubject(subject: string): AuthResult {
    if subject == "" then EmptySubject
    else match StollOf(subject)
      case Parsed(value, _) => User(value)
      case _ => NotAnInteger
  }

  /** A user who logs in is recognised as that user, and different users never share a subject. */
  lemma LoginIsRecognised(userId: int, other: int)
    requires Int64.Fits(userId) && Int64.Fits(other)
    ensures CheckSubject(SubjectFor(userId)) == User(userId)
    ensures SubjectFor(userId) == SubjectFor(other) ==> userId == other
  {
    RoundTrip(userId);
    RoundTrip(other);
  }

  /**
    The checker accepts a subject exactly when it starts, after white space, with an integer in range; an empty one
    is told apart from the rest.
   */
  lemma {:induction false} SubjectAcceptedIff(subject: string, id: int)
    ensures CheckSubject(subject) == User(id) <==> StartsWith(subject, id)
    ensures CheckSubject(subject) == EmptySubject <==> subject == ""
    ensures CheckSubject(subject) == NotAnInteger <==> subject != "" && forall n :: !StartsWith(subject, n)
  {
    hide StollOf, StartsWith;
    StollIff(subject, id);
    if StollOf(subject).Parsed? {
      StollIff(subject, StollOf(subject).value);
    }
    forall n
      ensures StartsWith(subject, n) ==> StollOf(subject).Parsed? && StollOf(subject).value == n
    {
      StollIff(subject, n);
    }
    EmptyStartsWithNothing();
  }

  lemma {:induction false} EmptyStartsWithNothing()
    ensures !StollOf("").Parsed?
  {
  }
}
