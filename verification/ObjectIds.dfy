/**
  Goal ids are Mongo object ids, 24 hexadecimal digits, while the task handlers read them as decimal integers.
  This module says what the decimal parsers make of them.
 */
module ObjectIds {
  import opened Wrappers
  import opened IntegerText
  import Int64

  predicate HexDigit(c: char) {
    Digit(c) || 'a' <= c <= 'f' || 'A' <= c <= 'F'
  }

  /** The text of an object id. */
  predicate ObjectIdText(s: string) {
    |s| == 24 && forall i :: 0 <= i < |s| ==> HexDigit(s[i])
  }

  function LowerDigit(c: char): char
    requires HexDigit(c)
  {
    if 'A' <= c <= 'F' then (c as int + 32) as char else c
  }

  /** The canonical spelling of an object id, in lower case. */
  function Canonical(s: string): string
    requires ObjectIdText(s)
  {
    seq(|s|, i requires 0 <= i < |s| => LowerDigit(s[i]))
  }

  // ---- The goals collection, looked up by id text ----------------------------------------------

  /** The owners of the stored goals, by canonical id. */
  type Goals = map<string, int>

  /** `Malformed` is the exception of the object-id constructor. */
  datatype Lookup = Found(owner: int) | Missing | Malformed

  function GoalById(goals: Goals, text: string): Lookup {
    if !ObjectIdText(text) then Malformed
    else if Canonical(text) in goals then Found(goals[Canonical(text)])
    else Missing
  }

  // ---- The bytes behind the text ---------------------------------------------------------------

  /** The value of an object id. */
  predicate OidBytes(bytes: seq<int>) {
    |bytes| == 12 && forall i :: 0 <= i < |bytes| ==> 0 <= bytes[i] < 256
  }

  function Nibble(bytes: seq<int>, i: nat): (v: int)
    requires OidBytes(bytes) && i < 24
    ensures 0 <= v < 16
  {
    if i % 2 == 0 then bytes[i / 2] / 16 else bytes[i / 2] % 16
  }

  /** A hexadecimal digit, its letters starting at `a` or at `A`. */
  function HexChar(v: int, a: char): char
    requires 0 <= v < 16 && (a == 'a' || a == 'A')
  {
    if v < 10 then ('0' as int + v) as char else (a as int + (v - 10)) as char
  }

  /** `Oid::ToString`: two lower-case digits a byte. */
  function OidText(bytes: seq<int>): string
    requires OidBytes(bytes)
  {
    seq(24, i requires 0 <= i < 24 => HexChar(Nibble(bytes, i), 'a'))
  }

  /** The text spells the id in hexadecimal, in either case. */
  ghost predicate SpellsOid(text: string, bytes: seq<int>) {
    && OidBytes(bytes) && |text| == 24
    && forall i :: 0 <= i < 24 ==>
         text[i] == HexChar(Nibble(bytes, i), 'a') || text[i] == HexChar(Nibble(bytes, i), 'A')
  }

  function HexValue(c: char): (v: int)
    requires HexDigit(c)
    ensures 0 <= v < 16 && (c == HexChar(v, 'a') || c == HexChar(v, 'A'))
  {
    if Digit(c) then c as int - '0' as int
    else if 'a' <= c <= 'f' then c as int - 'a' as int + 10
    else c as int - 'A' as int + 10
  }

  /** Every text of the right shape spells some id. */
  lemma {:induction false} TextSpells(text: string) returns (bytes: seq<int>)
    requires ObjectIdText(text)
    ensures SpellsOid(text, bytes)
  {
    bytes := seq(12, i requires 0 <= i < 12 => 16 * HexValue(text[2 * i]) + HexValue(text[2 * i + 1]));
    forall i | 0 <= i < 24
      ensures Nibble(bytes, i) == HexValue(text[i])
    {
      assert i == 2 * (i / 2) + i % 2;
    }
  }

  /** All spellings of an id have one canonical form, the text the service hands out. */
  lemma {:induction false} SpellingIsCanonical(text: string, bytes: seq<int>)
    requires SpellsOid(text, bytes)
    ensures ObjectIdText(text) && Canonical(text) == OidText(bytes)
  {
    forall i | 0 <= i < 24
      ensures HexDigit(text[i]) && LowerDigit(text[i]) == HexChar(Nibble(bytes, i), 'a')
    {
      var v := Nibble(bytes, i);
      assert text[i] == HexChar(v, 'a') || text[i] == HexChar(v, 'A');
    }
    assert Canonical(text) == OidText(bytes);
  }

  /**
    A goal is found by every spelling of its id and by nothing else: the lookup succeeds for the texts that spell
    the id of a stored goal, misses for those that spell another id, and fails for the rest.
   */
  lemma {:induction false} GoalByIdIff(goals: Goals, text: string, user: int)
    ensures GoalById(goals, text) == Found(user) <==>
            exists bytes :: SpellsOid(text, bytes) && OidText(bytes) in goals && goals[OidText(bytes)] == user
    ensures GoalById(goals, text) == Missing <==>
            exists bytes :: SpellsOid(text, bytes) && OidText(bytes) !in goals
    ensures GoalById(goals, text) == Malformed <==> forall bytes :: !SpellsOid(text, bytes)
  {
    hide SpellsOid, OidText, ObjectIdText, Canonical;
    forall bytes | SpellsOid(text, bytes)
      ensures ObjectIdText(text) && OidBytes(bytes) && Canonical(text) == OidText(bytes)
    {
      SpelledBytes(text, bytes);
      SpellingIsCanonical(text, bytes);
    }
    if ObjectIdText(text) {
      var bytes := TextSpells(text);
      SpelledBytes(text, bytes);
      SpellingIsCanonical(text, bytes);
    }
  }

  lemma {:induction false} SpelledBytes(text: string, bytes: seq<int>)
    requires SpellsOid(text, bytes)
    ensures OidBytes(bytes)
  {
  }

  /** Different ids are handed out as different texts. */
  lemma {:induction false} OidTextInjective(a: seq<int>, b: seq<int>)
    requires OidBytes(a) && OidBytes(b) && OidText(a) == OidText(b)
    ensures a == b
  {
    forall i | 0 <= i < 24
      ensures Nibble(a, i) == Nibble(b, i)
    {
      assert OidText(a)[i] == OidText(b)[i];
    }
    forall k | 0 <= k < 12
      ensures a[k] == b[k]
    {
      assert Nibble(a, 2 * k) == Nibble(b, 2 * k) && Nibble(a, 2 * k + 1) == Nibble(b, 2 * k + 1);
    }
  }

  // ---- Powers of ten and the size of a number --------------------------------------------------

  function Pow10(n: nat): (p: nat)
    ensures 1 <= p
  {
    if n == 0 then 1 else 10 * Pow10(n - 1)
  }

  lemma {:induction false} Pow10Monotone(a: nat, b: nat)
    requires a <= b
    ensures Pow10(a) <= Pow10(b)
  {
    if a < b {
      Pow10Monotone(a, b - 1);
    }
  }

  lemma TenTimes(p: nat, q: nat)
    ensures 10 * (p * q) == (10 * p) * q
  {
  }

  lemma {:induction false} Pow10Sum(a: nat, b: nat)
    ensures Pow10(a + b) == Pow10(a) * Pow10(b)
  {
    if a > 0 {
      var p, q, r := Pow10(a - 1), Pow10(b), Pow10(a - 1 + b);
      Pow10Sum(a - 1, b);
      assert Pow10(a) == 10 * p && Pow10(a + b) == 10 * r;
      hide Pow10;
      TenTimes(p, q);
    }
  }

  lemma {:induction false} MagnitudeBelow(digits: string)
    requires AllDigits(digits)
    ensures 0 <= Magnitude(digits) < Pow10(|digits|)
  {
    if digits != "" {
      MagnitudeBelow(digits[..|digits| - 1]);
    }
  }

  /** A digit other than zero makes the number at least its place value. */
  lemma {:induction false} MagnitudeAtLeast(digits: string, i: nat)
    requires AllDigits(digits) && i < |digits| && digits[i] != '0'
    ensures Magnitude(digits) >= Pow10(|digits| - 1 - i)
  {
    var init := digits[..|digits| - 1];
    MagnitudeBelow(init);
    if i < |init| {
      MagnitudeAtLeast(init, i);
    }
  }

  /** The last `width` decimal digits of a number, leading zeros included. */
  function Padded(n: nat, width: nat): (s: string)
    ensures |s| == width && AllDigits(s)
  {
    if width == 0 then "" else Padded(n / 10, width - 1) + [('0' as int + n % 10) as char]
  }

  lemma {:induction false} MagnitudeSnoc(digits: string, d: nat)
    requires AllDigits(digits) && d < 10
    ensures AllDigits(digits + [('0' as int + d) as char])
    ensures Magnitude(digits + [('0' as int + d) as char]) == 10 * Magnitude(digits) + d
  {
    var s := digits + [('0' as int + d) as char];
    assert s[..|s| - 1] == digits;
  }

  lemma {:induction false} MagnitudeOfPadded(n: nat, width: nat)
    requires n < Pow10(width)
    ensures Magnitude(Padded(n, width)) == n
  {
    if width > 0 {
      var init := Padded(n / 10, width - 1);
      assert Padded(n, width) == init + [('0' as int + n % 10) as char];
      assert n / 10 < Pow10(width - 1);
      hide Padded, Pow10;
      MagnitudeOfPadded(n / 10, width - 1);
      MagnitudeSnoc(init, n % 10);
    }
  }

  /** Digits are recovered from their number and their count. */
  lemma {:induction false} PaddedOfMagnitude(digits: string)
    requires AllDigits(digits)
    ensures Magnitude(digits) >= 0 && Padded(Magnitude(digits), |digits|) == digits
  {
    MagnitudeBelow(digits);
    if digits != "" {
      var init, last := digits[..|digits| - 1], digits[|digits| - 1];
      PaddedOfMagnitude(init);
      assert Magnitude(digits) / 10 == Magnitude(init) && Magnitude(digits) % 10 == DigitValue(last);
      assert digits == init + [last];
    }
  }

  // ---- What the parsers make of an object id ---------------------------------------------------

  /** An object id has neither white space nor a sign, so its digits start at once. */
  lemma {:induction false} ObjectIdDigits(s: string)
    requires ObjectIdText(s)
    ensures DigitsAt(s) == 0 && !Negative(s) && DigitsOf(s) == s[..DigitPrefix(s)]
  {
    assert HexDigit(s[0]);
    assert s[0..] == s;
  }

  /** The prefix parse yields the decimal digits the id happens to start with, when there are any and they fit. */
  lemma {:induction false} StollOfObjectId(s: string)
    requires ObjectIdText(s)
    ensures var digits := s[..DigitPrefix(s)];
            AllDigits(digits) &&
            StollOf(s) ==
            if digits == "" then InvalidArgument
            else if Magnitude(digits) <= Int64.MAX then Parsed(Magnitude(digits), |digits|) else OutOfRange
  {
    ObjectIdDigits(s);
    MagnitudeBelow(DigitsOf(s));
  }

  lemma {:induction false} LargePowers()
    ensures Pow10(19) > Int64.MAX && Pow10(24) > Int64.MAX
  {
    assert Pow10(2) == 100 && Pow10(3) == 1_000 && Pow10(4) == 10_000;
    Pow10Sum(4, 4);
    Pow10Sum(8, 8);
    Pow10Sum(16, 3);
    Pow10Monotone(19, 24);
  }

  /** The ids that are whole integers: each int64 from zero up has exactly one, its decimal digits padded to 24. */
  lemma {:induction false} WholeObjectIdIff(s: string, n: int)
    requires ObjectIdText(s)
    ensures WholeInteger(s) == Some(n) <==> 0 <= n <= Int64.MAX && s == Padded(n, 24)
  {
    StollOfObjectId(s);
    LargePowers();
    if WholeInteger(s) == Some(n) {
      assert s[..24] == s;
      PaddedOfMagnitude(s);
      MagnitudeBelow(s);
    }
    if 0 <= n <= Int64.MAX && s == Padded(n, 24) {
      MagnitudeOfPadded(n, 24);
      DigitPrefixOf(s, "");
      assert s + "" == s && s[..24] == s;
    }
  }

  /** No int64 needs more than the last 19 of its 24 digits. */
  lemma {:induction false} PaddedStartsWithZeros(n: nat, i: nat)
    requires n <= Int64.MAX && i < 5
    ensures Padded(n, 24)[i] == '0'
  {
    hide Pow10, Padded, Magnitude;
    MagnitudeOfPaddedId(n);
    LargePowers();
    Pow10Monotone(19, 23 - i);
    if Padded(n, 24)[i] != '0' {
      MagnitudeAtLeast(Padded(n, 24), i);
    }
  }

  /**
    An id with a nonzero digit among its first five is never a whole integer: it is not decimal, or it is too
    large.
   */
  lemma {:induction false} GeneratedIdIsNoInteger(s: string, i: nat)
    requires ObjectIdText(s) && i < 5 && s[i] != '0'
    ensures WholeInteger(s) == None
  {
    hide StollOf, WholeInteger, Padded;
    if WholeInteger(s).Some? {
      WholeObjectIdIff(s, WholeInteger(s).value);
      PaddedStartsWithZeros(WholeInteger(s).value, i);
    }
  }

  lemma {:induction false} MagnitudeOfPaddedId(n: nat)
    requires n <= Int64.MAX
    ensures ObjectIdText(Padded(n, 24)) && Magnitude(Padded(n, 24)) == n
    ensures Canonical(Padded(n, 24)) == Padded(n, 24)
  {
    LargePowers();
    MagnitudeOfPadded(n, 24);
  }

  // ---- When two goals get one task list --------------------------------------------------------

  /** The decimal digits an id starts with. */
  function DecimalPrefix(s: string): (digits: string)
    ensures AllDigits(digits)
  {
    DigitPrefixIsDigits(s);
    s[..DigitPrefix(s)]
  }

  function StripZeros(digits: string): (r: string)
    requires AllDigits(digits)
    ensures AllDigits(r) && (r != "" ==> r[0] != '0')
  {
    if digits != "" && digits[0] == '0' then StripZeros(digits[1..]) else digits
  }

  lemma {:induction false} LeadingZero(digits: string)
    requires AllDigits(digits) && digits != "" && digits[0] == '0'
    ensures Magnitude(digits) == Magnitude(digits[1..])
  {
    if |digits| > 1 {
      var init := digits[..|digits| - 1];
      LeadingZero(init);
      assert digits[1..][..|digits| - 2] == init[1..];
    } else {
      assert digits[..0] == "" && digits[1..] == "";
    }
  }

  lemma {:induction false} StripKeepsMagnitude(digits: string)
    requires AllDigits(digits)
    ensures Magnitude(StripZeros(digits)) == Magnitude(digits)
  {
    if digits != "" && digits[0] == '0' {
      LeadingZero(digits);
      StripKeepsMagnitude(digits[1..]);
    }
  }

  lemma {:induction false} LengthFromMagnitude(a: string, b: string)
    requires AllDigits(a) && AllDigits(b) && b != "" && b[0] != '0' && Magnitude(a) == Magnitude(b)
    ensures |b| <= |a|
  {
    MagnitudeBelow(a);
    MagnitudeAtLeast(b, 0);
    if |a| < |b| {
      Pow10Monotone(|a|, |b| - 1);
    }
  }

  /** Two digit strings denote the same number iff they are the same but for leading zeros. */
  lemma {:induction false} SameNumberIff(a: string, b: string)
    requires AllDigits(a) && AllDigits(b)
    ensures Magnitude(a) == Magnitude(b) <==> StripZeros(a) == StripZeros(b)
  {
    var x, y := StripZeros(a), StripZeros(b);
    StripKeepsMagnitude(a);
    StripKeepsMagnitude(b);
    if Magnitude(x) == Magnitude(y) {
      if y != "" {
        LengthFromMagnitude(x, y);
      }
      if x != "" {
        LengthFromMagnitude(y, x);
      }
      PaddedOfMagnitude(x);
      PaddedOfMagnitude(y);
    }
  }

  /** Two ids are read as one integer exactly when their decimal prefixes are the same but for leading zeros. */
  lemma {:induction false} ObjectIdsCollideIff(a: string, b: string)
    requires ObjectIdText(a) && ObjectIdText(b) && StollOf(a).Parsed? && StollOf(b).Parsed?
    ensures StollOf(a).value == StollOf(b).value <==> StripZeros(DecimalPrefix(a)) == StripZeros(DecimalPrefix(b))
  {
    StollOfObjectId(a);
    StollOfObjectId(b);
    SameNumberIff(DecimalPrefix(a), DecimalPrefix(b));
  }

  /** An id whose decimal prefix is `digits` is read as that number. */
  lemma {:induction false} IdReadsAs(s: string, digits: string, tail: string)
    requires ObjectIdText(s) && s == digits + tail && AllDigits(digits) && digits != ""
    requires tail != "" && !Digit(tail[0]) && Magnitude(digits) <= Int64.MAX
    ensures StollOf(s) == Parsed(Magnitude(digits), |digits|)
  {
    StollOfObjectId(s);
    DigitPrefixOf(digits, tail);
    assert s[..|digits|] == digits;
  }

  lemma {:induction false} DigitPairs(a: char, b: char)
    requires Digit(a) && Digit(b)
    ensures AllDigits([a]) && Magnitude([a]) == DigitValue(a)
    ensures AllDigits([a, b]) && Magnitude([a, b]) == 10 * DigitValue(a) + DigitValue(b)
  {
    assert [a][..0] == "" && [a, b][..1] == [a];
  }

  /** Every id that starts with 60b, as all the seeded goals do, is read as 60. */
  lemma {:induction false} SeededIdsReadAsSixty(s: string)
    requires ObjectIdText(s) && "60b" <= s
    ensures StollOf(s) == Parsed(60, 2)
  {
    DigitPairs('6', '0');
    assert s == "60" + s[2..] && s[2..][0] == 'b';
    IdReadsAs(s, "60", s[2..]);
  }

  /** An id that starts with a digit and then a letter is read as that digit. */
  lemma {:induction false} DigitThenLetter(s: string)
    requires ObjectIdText(s) && Digit(s[0]) && !Digit(s[1])
    ensures StollOf(s) == Parsed(DigitValue(s[0]), 1)
  {
    DigitPairs(s[0], s[0]);
    assert s == [s[0]] + s[1..] && s[1..][0] == s[1];
    IdReadsAs(s, [s[0]], s[1..]);
  }
}
