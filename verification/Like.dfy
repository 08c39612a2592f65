/** The SQL `LIKE` predicate with backslash as the escape character, and how it relates to substring search. */
module Like {
  import opened Wrappers

  /** `find(needle) != npos`: the needle starts at some position of the text. */
  function Contains(text: string, needle: string): bool {
    needle <= text || (text != "" && Contains(text[1..], needle))
  }

  lemma {:induction false} ContainsIff(text: string, needle: string)
    ensures Contains(text, needle) <==> exists i :: 0 <= i <= |text| && needle <= text[i..]
  {
    assert text[0..] == text;
    if text != "" {
      ContainsIff(text[1..], needle);
      if i :| 0 <= i <= |text[1..]| && needle <= text[1..][i..] {
        assert text[1..][i..] == text[i + 1..];
      }
      if i :| 0 <= i <= |text| && needle <= text[i..] {
        if i > 0 {
          assert text[1..][i - 1..] == text[i..];
        }
      }
    }
  }

  /** A pattern is a list of these; `Any` is an unescaped `%`, `One` an unescaped `_`. */
  datatype Token = Literal(c: char) | One | Any

  /** Split a pattern into tokens; `None` when it ends in an escape character that escapes nothing. */
  function Parse(pattern: string): Option<seq<Token>> {
    if pattern == "" then Some([])
    else if pattern[0] == '\\' then
      if |pattern| == 1 then None else Cons(Literal(pattern[1]), Parse(pattern[2..]))
    else
      Cons(if pattern[0] == '%' then Any else if pattern[0] == '_' then One else Literal(pattern[0]),
           Parse(pattern[1..]))
  }

  function Cons(t: Token, rest: Option<seq<Token>>): Option<seq<Token>> {
    if rest.None? then None else Some([t] + rest.value)
  }

  function Match(tokens: seq<Token>, text: string): bool
    decreases |tokens| + |text|
  {
    if tokens == [] then text == ""
    else if tokens[0].Any? then Match(tokens[1..], text) || (text != "" && Match(tokens, text[1..]))
    else text != "" && (tokens[0].One? || tokens[0].c == text[0]) && Match(tokens[1..], text[1..])
  }

  /** `text LIKE pattern`; `None` is the error for a pattern ending in its escape character. */
  function Like(text: string, pattern: string): Option<bool> {
    match Parse(pattern)
    case None => None
    case Some(tokens) => Some(Match(tokens, text))
  }

  // ---- What LIKE means, piece by piece ---------------------------------------------------------

  function Joined(pieces: seq<string>): string {
    if pieces == [] then "" else pieces[0] + Joined(pieces[1..])
  }

  /** A piece of a text that a token stands for: one given character, any one character, or anything. */
  predicate StandsFor(t: Token, piece: string) {
    match t
    case Literal(c) => piece == [c]
    case One => |piece| == 1
    case Any => true
  }

  /** How a token may be spelled in a pattern: any character escaped, or one that is not special as it is. */
  predicate SpelledAs(t: Token, piece: string) {
    match t
    case Literal(c) => piece == ['\\', c] || (piece == [c] && c != '%' && c != '_' && c != '\\')
    case One => piece == "_"
    case Any => piece == "%"
  }

  ghost predicate Covers(tokens: seq<Token>, text: string, pieces: seq<string>) {
    && |pieces| == |tokens| && Joined(pieces) == text
    && forall i :: 0 <= i < |tokens| ==> StandsFor(tokens[i], pieces[i])
  }

  ghost predicate Spells(tokens: seq<Token>, pattern: string, pieces: seq<string>) {
    && |pieces| == |tokens| && Joined(pieces) == pattern
    && forall i :: 0 <= i < |tokens| ==> SpelledAs(tokens[i], pieces[i])
  }

  /** A match cuts the text into pieces, one for each token. */
  lemma {:induction false} MatchCovers(tokens: seq<Token>, text: string) returns (pieces: seq<string>)
    requires Match(tokens, text)
    ensures Covers(tokens, text, pieces)
    decreases |tokens| + |text|
  {
    if tokens == [] {
      pieces := [];
    } else if tokens[0].Any? && Match(tokens[1..], text) {
      pieces := MatchCovers(tokens[1..], text);
      pieces := [""] + pieces;
    } else if tokens[0].Any? {
      pieces := MatchCovers(tokens, text[1..]);
      var rest := pieces[1..];
      assert text == [text[0]] + pieces[0] + Joined(rest);
      pieces := [[text[0]] + pieces[0]] + rest;
    } else {
      pieces := MatchCovers(tokens[1..], text[1..]);
      pieces := [[text[0]]] + pieces;
      assert text == [text[0]] + text[1..];
    }
  }

  lemma {:induction false} AnySkips(tokens: seq<Token>, piece: string, text: string)
    requires tokens != [] && tokens[0].Any? && Match(tokens[1..], text)
    ensures Match(tokens, piece + text)
  {
    if piece == "" {
      assert piece + text == text;
    } else {
      AnySkips(tokens, piece[1..], text);
      assert (piece + text)[1..] == piece[1..] + text;
    }
  }

  lemma {:induction false} CoversMatch(tokens: seq<Token>, text: string, pieces: seq<string>)
    requires Covers(tokens, text, pieces)
    ensures Match(tokens, text)
  {
    if tokens != [] {
      var rest := Joined(pieces[1..]);
      CoversMatch(tokens[1..], rest, pieces[1..]);
      assert StandsFor(tokens[0], pieces[0]);
      if tokens[0].Any? {
        AnySkips(tokens, pieces[0], rest);
      } else {
        assert text[1..] == rest;
      }
    }
  }

  lemma {:induction false} ParseSpells(pattern: string) returns (pieces: seq<string>)
    requires Parse(pattern).Some?
    ensures Spells(Parse(pattern).value, pattern, pieces)
  {
    if pattern == "" {
      pieces := [];
    } else {
      var n := if pattern[0] == '\\' then 2 else 1;
      pieces := ParseSpells(pattern[n..]);
      pieces := [pattern[..n]] + pieces;
      assert pattern == pattern[..n] + pattern[n..];
    }
  }

  lemma {:induction false} SpellsParse(tokens: seq<Token>, pattern: string, pieces: seq<string>)
    requires Spells(tokens, pattern, pieces)
    ensures Parse(pattern) == Some(tokens)
  {
    if tokens != [] {
      var rest := Joined(pieces[1..]);
      SpellsParse(tokens[1..], rest, pieces[1..]);
      assert SpelledAs(tokens[0], pieces[0]);
      assert pattern[|pieces[0]|..] == rest && tokens == [tokens[0]] + tokens[1..];
    }
  }

  /**
    `text LIKE pattern` holds exactly when the pattern spells a list of tokens and the text falls into pieces they
    stand for, in order; it is an error exactly when the pattern spells nothing.
   */
  lemma {:induction false} LikeIff(text: string, pattern: string)
    ensures Like(text, pattern) == Some(true) <==>
            exists tokens, spelling, pieces :: Spells(tokens, pattern, spelling) && Covers(tokens, text, pieces)
    ensures Like(text, pattern).None? <==> forall tokens, spelling :: !Spells(tokens, pattern, spelling)
  {
    hide Spells, Covers, Match, Parse;
    if Parse(pattern).Some? {
      var spelling := ParseSpells(pattern);
      if Match(Parse(pattern).value, text) {
        var pieces := MatchCovers(Parse(pattern).value, text);
      }
    }
    forall tokens, spelling | Spells(tokens, pattern, spelling)
      ensures Parse(pattern) == Some(tokens)
    {
      SpellsParse(tokens, pattern, spelling);
    }
    forall tokens, pieces | Covers(tokens, text, pieces)
      ensures Match(tokens, text)
    {
      CoversMatch(tokens, text, pieces);
    }
  }

  /** `'%' || mask || '%'` */
  function Wrap(mask: string): string {
    "%" + mask + "%"
  }

  /** The filter the search query applies to a name. */
  predicate LikeMask(text: string, mask: string) {
    Like(text, Wrap(mask)) == Some(true)
  }

  // ---- Parsing the wrapped mask ----------------------------------------------------------------

  /** A trailing `%` completes every mask: it is a wildcard, or the character a dangling escape was waiting for. */
  lemma {:induction false} ParseClosed(mask: string)
    ensures Parse(mask + "%").Some?
    ensures Parse(mask).Some? ==> Parse(mask + "%").value == Parse(mask).value + [Any]
    ensures Parse(mask).None? ==>
              var tokens := Parse(mask + "%").value;
              tokens != [] && tokens[|tokens| - 1] == Literal('%')
  {
    if mask == "" {
      assert mask + "%" == "%";
      assert Parse("") == Some([]);
    } else if mask[0] == '\\' {
      if |mask| == 1 {
        assert (mask + "%")[2..] == "";
      } else {
        ParseClosed(mask[2..]);
        assert (mask + "%")[2..] == mask[2..] + "%";
      }
    } else {
      ParseClosed(mask[1..]);
      assert (mask + "%")[1..] == mask[1..] + "%";
    }
  }

  /** The wrapped pattern is a leading wildcard followed by the closed mask. */
  lemma ParseWrapped(mask: string)
    ensures Parse(mask + "%").Some?
    ensures Parse(Wrap(mask)) == Some([Any] + Parse(mask + "%").value)
  {
    ParseClosed(mask);
    assert Wrap(mask)[1..] == mask + "%";
  }

  /** The search query never fails on its pattern, whatever text the client sends as a mask. */
  lemma WrappedMaskIsValid(text: string, mask: string)
    ensures Like(text, Wrap(mask)).Some?
  {
    ParseWrapped(mask);
  }

  // ---- What the wrapped mask matches -----------------------------------------------------------

  /** A leading wildcard skips any prefix of the text. */
  lemma {:induction false} SkipPrefix(tokens: seq<Token>, text: string)
    ensures Match([Any] + tokens, text) <==> exists i :: 0 <= i <= |text| && Match(tokens, text[i..])
  {
    assert ([Any] + tokens)[1..] == tokens;
    assert text[0..] == text;
    if text != "" {
      SkipPrefix(tokens, text[1..]);
      if i :| 0 <= i <= |text[1..]| && Match(tokens, text[1..][i..]) {
        assert text[1..][i..] == text[i + 1..];
      }
      if i :| 0 <= i <= |text| && Match(tokens, text[i..]) {
        if i > 0 {
          assert text[1..][i - 1..] == text[i..];
        }
      }
    }
  }

  lemma {:induction false} AnyMatchesAll(text: string)
    ensures Match([Any], text)
  {
    if text != "" {
      AnyMatchesAll(text[1..]);
    }
  }

  /** A trailing wildcard skips any suffix of the text. */
  lemma {:induction false} SkipSuffix(tokens: seq<Token>, text: string)
    ensures Match(tokens + [Any], text) <==> exists j :: 0 <= j <= |text| && Match(tokens, text[..j])
    decreases |tokens| + |text|
  {
    if tokens == [] {
      AnyMatchesAll(text);
      assert text[..0] == "";
      assert tokens + [Any] == [Any];
    } else {
      assert (tokens + [Any])[1..] == tokens[1..] + [Any];
      if tokens[0].Any? {
        SkipSuffix(tokens[1..], text);
      }
      if text != "" {
        SkipSuffix(if tokens[0].Any? then tokens else tokens[1..], text[1..]);
      }
      PeelPrefix(tokens, text);
    }
  }

  /** Matching some prefix of a text, unfolded by one step of the matcher. */
  lemma PeelPrefix(tokens: seq<Token>, text: string)
    requires tokens != []
    ensures (exists j :: 0 <= j <= |text| && Match(tokens, text[..j])) <==>
            if tokens[0].Any? then
              (exists j :: 0 <= j <= |text| && Match(tokens[1..], text[..j])) ||
              (text != "" && exists j :: 0 <= j <= |text[1..]| && Match(tokens, text[1..][..j]))
            else
              text != "" && (tokens[0].One? || tokens[0].c == text[0]) &&
              exists j :: 0 <= j <= |text[1..]| && Match(tokens[1..], text[1..][..j])
  {
    forall j | 1 <= j <= |text|
      ensures text[..j][1..] == text[1..][..j - 1]
    {
    }
    if j :| 0 <= j <= |text| && Match(tokens, text[..j]) {
      if j > 0 {
        assert text[..j][1..] == text[1..][..j - 1];
      }
    }
    if text != "" {
      var rest := if tokens[0].Any? then tokens else tokens[1..];
      if j :| 0 <= j <= |text[1..]| && Match(rest, text[1..][..j]) {
        assert text[..j + 1][1..] == text[1..][..j];
        if tokens[0].Any? || tokens[0].One? || tokens[0].c == text[0] {
          assert Match(tokens, text[..j + 1]);
        }
      }
    }
    if tokens[0].Any? {
      if j :| 0 <= j <= |text| && Match(tokens[1..], text[..j]) {
        assert Match(tokens, text[..j]);
      }
    }
  }

  /** For a mask without a dangling escape the query keeps the names some segment of which is LIKE the mask itself. */
  lemma MaskMatchesSegment(text: string, mask: string)
    requires Parse(mask).Some?
    ensures LikeMask(text, mask) <==> exists i, j :: 0 <= i <= j <= |text| && Like(text[i..j], mask) == Some(true)
  {
    var tokens := Parse(mask).value;
    ParseClosed(mask);
    ParseWrapped(mask);
    SkipPrefix(tokens + [Any], text);
    if i :| 0 <= i <= |text| && Match(tokens + [Any], text[i..]) {
      SkipSuffix(tokens, text[i..]);
      var j :| 0 <= j <= |text[i..]| && Match(tokens, text[i..][..j]);
      assert text[i..][..j] == text[i..i + j];
    }
    if i, j :| 0 <= i <= j <= |text| && Match(tokens, text[i..j]) {
      assert text[i..][..j - i] == text[i..j];
      SkipSuffix(tokens, text[i..]);
    }
  }

  // ---- When LIKE is substring search -----------------------------------------------------------

  predicate Special(c: char) {
    c == '%' || c == '_' || c == '\\'
  }

  /** A mask none of whose characters means anything to LIKE. */
  ghost predicate Plain(mask: string) {
    forall i :: 0 <= i < |mask| ==> !Special(mask[i])
  }

  /** A plain mask stands for itself. */
  lemma {:induction false} PlainIsLiteral(mask: string, text: string)
    requires Plain(mask)
    ensures Like(text, mask) == Some(text == mask)
  {
    if mask != "" {
      PlainIsLiteral(mask[1..], if text == "" then "" else text[1..]);
      if text != "" {
        assert text == [text[0]] + text[1..] && mask == [mask[0]] + mask[1..];
      }
    }
  }

  /** For a plain mask the query and the in-memory search agree on every name. */
  lemma PlainMaskIsSubstring(text: string, mask: string)
    requires Plain(mask)
    ensures LikeMask(text, mask) <==> Contains(text, mask)
  {
    PlainIsLiteral(mask, text);
    MaskMatchesSegment(text, mask);
    ContainsIff(text, mask);
    if i, j :| 0 <= i <= j <= |text| && Like(text[i..j], mask) == Some(true) {
      PlainIsLiteral(mask, text[i..j]);
      assert text[i..][..j - i] == text[i..j];
      assert mask <= text[i..];
    }
    if i :| 0 <= i <= |text| && mask <= text[i..] {
      PlainIsLiteral(mask, text[i..i + |mask|]);
    }
  }

  /** Without backslashes a mask matches its own text. */
  lemma {:induction false} MatchesItself(mask: string)
    requires '\\' !in mask
    ensures Like(mask, mask) == Some(true)
  {
    if mask != "" {
      MatchesItself(mask[1..]);
      var tokens := Parse(mask).value;
      assert tokens[1..] == Parse(mask[1..]).value;
      if mask[0] == '%' {
        assert Match(tokens[1..], mask[1..]);
        assert Match(tokens, mask[1..]);
      }
    }
  }

  /** Without backslashes the query finds at least every name that contains the mask. */
  lemma SubstringImpliesLike(text: string, mask: string)
    requires '\\' !in mask && Contains(text, mask)
    ensures LikeMask(text, mask)
  {
    MatchesItself(mask);
    ContainsIff(text, mask);
    var i :| 0 <= i <= |text| && mask <= text[i..];
    assert text[i..i + |mask|] == mask;
    MaskMatchesSegment(text, mask);
  }

  /** A name matched by a pattern: wildcards read as nothing, single-character wildcards as a letter. */
  function Sample(tokens: seq<Token>): string {
    if tokens == [] then ""
    else match tokens[0]
      case Any => Sample(tokens[1..])
      case One => "a" + Sample(tokens[1..])
      case Literal(c) => [c] + Sample(tokens[1..])
  }

  lemma {:induction false} SampleMatches(tokens: seq<Token>)
    ensures Match(tokens, Sample(tokens))
  {
    if tokens != [] {
      SampleMatches(tokens[1..]);
      if !tokens[0].Any? {
        assert Sample(tokens)[1..] == Sample(tokens[1..]);
      }
    }
  }

  /** The sample of a mask that is not plain is too short, or too different, to contain the mask. */
  lemma {:induction false} SampleDiffers(mask: string)
    ensures Parse(mask + "%").Some?
    ensures var sample := Sample(Parse(mask + "%").value);
            |sample| < |mask| || (|sample| == |mask| && (sample == mask ==> Plain(mask)))
  {
    ParseClosed(mask);
    var closed := mask + "%";
    if mask == "" {
      assert closed[1..] == "";
    } else if mask[0] == '\\' {
      if |mask| == 1 {
        assert closed[2..] == "";
        assert Sample(Parse(closed).value) == "%";
      } else {
        SampleDiffers(mask[2..]);
        assert closed[2..] == mask[2..] + "%";
      }
    } else {
      SampleDiffers(mask[1..]);
      assert closed[1..] == mask[1..] + "%";
      var rest := Parse(mask[1..] + "%").value;
      assert Parse(closed).value[1..] == rest;
      assert mask == [mask[0]] + mask[1..];
      if mask[0] != '%' {
        assert Sample(Parse(closed).value)[1..] == Sample(rest);
      }
    }
  }

  lemma {:induction false} LongNeedle(text: string, needle: string)
    requires |text| <= |needle| && Contains(text, needle)
    ensures text == needle
  {
    if !(needle <= text) {
      LongNeedle(text[1..], needle);
    }
  }

  /** A name the query keeps for a mask. */
  function SampleName(mask: string): string {
    if Parse(mask + "%").Some? then Sample(Parse(mask + "%").value) else ""
  }

  /** The query keeps the sample name; the in-memory search keeps it only when the mask is plain. */
  lemma SampleNameTells(mask: string)
    ensures LikeMask(SampleName(mask), mask)
    ensures Contains(SampleName(mask), mask) ==> Plain(mask)
  {
    ParseWrapped(mask);
    SampleDiffers(mask);
    var tokens := Parse(mask + "%").value;
    SampleMatches([Any] + tokens);
    assert ([Any] + tokens)[1..] == tokens;
    if Contains(SampleName(mask), mask) {
      LongNeedle(SampleName(mask), mask);
    }
  }

  /** The query and the in-memory search agree on all names exactly for the masks without `%`, `_` and backslash. */
  lemma AgreeOnAllNamesIff(mask: string)
    ensures (forall text :: LikeMask(text, mask) <==> Contains(text, mask)) <==> Plain(mask)
  {
    if Plain(mask) {
      forall text
        ensures LikeMask(text, mask) <==> Contains(text, mask)
      {
        PlainMaskIsSubstring(text, mask);
      }
    } else {
      SampleNameTells(mask);
    }
  }

  /** A match against a pattern whose last token is a character ends in that character. */
  lemma {:induction false} MatchEndsInLiteral(tokens: seq<Token>, text: string)
    requires tokens != [] && tokens[|tokens| - 1].Literal? && Match(tokens, text)
    ensures text != "" && text[|text| - 1] == tokens[|tokens| - 1].c
    decreases |tokens| + |text|
  {
    if tokens[0].Any? {
      if Match(tokens[1..], text) {
        MatchEndsInLiteral(tokens[1..], text);
      } else {
        MatchEndsInLiteral(tokens, text[1..]);
      }
    } else if |tokens| > 1 {
      MatchEndsInLiteral(tokens[1..], text[1..]);
    }
  }

  /** The mask has no dangling escape and its own text passes the query. */
  predicate SelfMatching(mask: string) {
    Parse(mask).Some? && LikeMask(mask, mask)
  }

  /**
    With backslashes in the mask the query may lose names that contain it. It loses none exactly when
    the mask has no dangling escape and its own text passes the query.
   */
  lemma SubstringImpliesLikeIff(mask: string)
    ensures (forall text :: Contains(text, mask) ==> LikeMask(text, mask)) <==> SelfMatching(mask)
  {
    ContainsIff(mask, mask);
    assert mask[0..] == mask;
    if Parse(mask).None? {
      ParseClosed(mask);
      ParseWrapped(mask);
      var text := mask + "x";
      ContainsIff(text, mask);
      assert text[0..] == text;
      var tokens := [Any] + Parse(mask + "%").value;
      if Match(tokens, text) {
        MatchEndsInLiteral(tokens, text);
      }
    } else if LikeMask(mask, mask) {
      forall text | Contains(text, mask)
        ensures LikeMask(text, mask)
      {
        ContainsIff(text, mask);
        var k :| 0 <= k <= |text| && mask <= text[k..];
        MaskMatchesSegment(mask, mask);
        var i, j :| 0 <= i <= j <= |mask| && Like(mask[i..j], mask) == Some(true);
        assert text[k + i..k + j] == mask[i..j];
        MaskMatchesSegment(text, mask);
      }
    }
  }

  lemma {:induction false} NoBackslashIsSelfMatching(mask: string)
    requires '\\' !in mask
    ensures SelfMatching(mask)
  {
    MatchesItself(mask);
    ContainsIff(mask, mask);
    assert mask[0..] == mask;
    SubstringImpliesLike(mask, mask);
  }

  /** An escaped letter inside a mask makes the query miss the very text the mask spells. */
  lemma BackslashLosesNames()
    ensures Contains("a\\b", "a\\b") && !LikeMask("a\\b", "a\\b")
  {
  }
}
