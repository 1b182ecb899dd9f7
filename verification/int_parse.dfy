/** Python's `int(text)` in base 10, applied to the `course_id` query
    argument (app.py:34): surrounding whitespace is ignored, one optional
    sign, then decimal digits in which single underscores may separate
    digits. Anything else raises `ValueError`. */
module IntParse {
  import opened Results

  /** The characters `int()` skips around a number: the ASCII whitespace of
      the C locale (tab, line feed, vertical tab, form feed, carriage return,
      space), and the non-ASCII Unicode whitespace that `int()` first turns
      into a space. The separators U+001C to U+001F, which `str.strip()`
      would remove, are not among them. */
  predicate IsSpace(c: char)
  {
    var n := c as int;
    || 0x09 <= n <= 0x0D
    || n == 0x20
    || n == 0x85 || n == 0xA0 || n == 0x1680
    || 0x2000 <= n <= 0x200A
    || n == 0x2028 || n == 0x2029 || n == 0x202F || n == 0x205F || n == 0x3000
  }

  predicate IsDigit(c: char)
  {
    '0' <= c <= '9'
  }

  function DigitValue(c: char): (d: nat)
    requires IsDigit(c)
    ensures d < 10
  {
    (c as int) - ('0' as int)
  }

  function DigitChar(d: nat): (c: char)
    requires d < 10
    ensures IsDigit(c) && DigitValue(c) == d
  {
    (('0' as int) + d) as char
  }

  /** Every character of `s` satisfies `drop`. */
  predicate All(s: string, drop: char -> bool)
  {
    forall i :: 0 <= i < |s| ==> drop(s[i])
  }

  predicate AllSpace(s: string)
  {
    All(s, IsSpace)
  }

  /** Remove the longest prefix whose characters satisfy `drop`. */
  function TrimStart(s: string, drop: char -> bool): (r: string)
    ensures |r| <= |s| && r == s[|s| - |r|..]
    ensures forall i :: 0 <= i < |s| - |r| ==> drop(s[i])
    ensures r == [] || !drop(r[0])
  {
    if |s| > 0 && drop(s[0]) then
      var r := TrimStart(s[1..], drop);
      assert s[1..][|s| - 1 - |r|..] == s[|s| - |r|..];
      assert forall i :: 0 < i < |s| - |r| ==> s[1..][i - 1] == s[i];
      r
    else s
  }

  /** Remove the longest suffix whose characters satisfy `drop`. */
  function TrimEnd(s: string, drop: char -> bool): (r: string)
    ensures |r| <= |s| && r == s[..|r|]
    ensures forall i :: |r| <= i < |s| ==> drop(s[i])
    ensures r == [] || !drop(r[|r| - 1])
  {
    if |s| > 0 && drop(s[|s| - 1]) then TrimEnd(s[..|s| - 1], drop) else s
  }

  /** The text without the whitespace `int()` skips around the number. */
  function Strip(s: string): string
  {
    TrimEnd(TrimStart(s, IsSpace), IsSpace)
  }

  /** Digits with single underscores between them (PEP 515). */
  predicate WellFormedDigits(body: string)
  {
    && |body| > 0
    && IsDigit(body[0])
    && IsDigit(body[|body| - 1])
    && (forall i :: 0 <= i < |body| ==> IsDigit(body[i]) || body[i] == '_')
    && (forall i :: 0 <= i < |body| - 1 ==> body[i] == '_' ==> body[i + 1] != '_')
  }

  function DropUnderscores(s: string): (r: string)
    requires forall i :: 0 <= i < |s| ==> IsDigit(s[i]) || s[i] == '_'
    ensures forall i :: 0 <= i < |r| ==> IsDigit(r[i])
  {
    if s == [] then []
    else (if s[0] == '_' then [] else [s[0]]) + DropUnderscores(s[1..])
  }

  /** The value of a string of decimal digits, most significant first. */
  function DigitsValue(ds: string): nat
    requires forall i :: 0 <= i < |ds| ==> IsDigit(ds[i])
  {
    if ds == [] then 0 else DigitsValue(ds[..|ds| - 1]) * 10 + DigitValue(ds[|ds| - 1])
  }

  /** The unsigned part: well-formed digits and their value. */
  function ParseMagnitude(body: string): Option<nat>
  {
    if WellFormedDigits(body) then Some(DigitsValue(DropUnderscores(body))) else None
  }

  /** `int` on text already stripped of surrounding whitespace: one
      optional sign, then the digits. */
  function ParseStripped(t: string): Option<int>
  {
    if |t| > 0 && t[0] == '-' then
      match ParseMagnitude(t[1..])
      case None => None
      case Some(m) => Some(-(m as int))
    else if |t| > 0 && t[0] == '+' then
      match ParseMagnitude(t[1..])
      case None => None
      case Some(m) => Some(m)
    else
      match ParseMagnitude(t)
      case None => None
      case Some(m) => Some(m)
  }

  /** A literal `int()` accepts, split into its parts: whitespace, one
      optional sign, digits grouped by single underscores, whitespace. */
  predicate IsLiteral(text: string, pre: string, sign: string, body: string, post: string)
  {
    && AllSpace(pre) && AllSpace(post)
    && (sign == "" || sign == "+" || sign == "-")
    && WellFormedDigits(body)
    && text == pre + sign + body + post
  }

  /** The value such a literal denotes: that of its digits, the underscores
      ignored, negated after a minus sign. */
  function SignedValue(sign: string, body: string): int
    requires WellFormedDigits(body)
  {
    var v: int := DigitsValue(DropUnderscores(body));
    if sign == "-" then -v else v
  }

  /** `int(text)`: `None` where Python raises `ValueError`. The text is
      accepted exactly when it is a literal, and then read as its value. */
  function ParseInt(text: string): (r: Option<int>)
    ensures r.Some? <==> exists pre, sign, body, post :: IsLiteral(text, pre, sign, body, post)
    ensures forall pre, sign, body, post :: IsLiteral(text, pre, sign, body, post) ==> r == Some(SignedValue(sign, body))
  {
    StripReadsLiterals(text);
    ParseStripped(Strip(text))
  }

  /** Proof step: the definition of `ParseInt` as an equation. */
  lemma ParseIntStrips(text: string)
    ensures ParseInt(text) == ParseStripped(Strip(text))
  {
  }

  /** The message of the `ValueError` that `int(text)` raises. */
  function ParseErrorMessage(text: string): string
  {
    "invalid literal for int() with base 10: '" + text + "'"
  }

  /** `str(n)` for a natural number: its decimal digits. */
  function ShowNat(n: nat): (s: string)
    ensures |s| > 0
    ensures forall i :: 0 <= i < |s| ==> IsDigit(s[i])
  {
    if n < 10 then [DigitChar(n)] else ShowNat(n / 10) + [DigitChar(n % 10)]
  }

  /** `str(n)`: what a client sends as the `course_id` argument. */
  function Show(n: int): string
  {
    if n < 0 then "-" + ShowNat(-n) else ShowNat(n)
  }

  lemma {:induction false} DigitsValueShowNat(n: nat)
    ensures DigitsValue(ShowNat(n)) == n
  {
    var s := ShowNat(n);
    if n >= 10 {
      DigitsValueShowNat(n / 10);
      assert s[..|s| - 1] == ShowNat(n / 10);
    }
  }

  lemma {:induction false} DropUnderscoresOfDigits(s: string)
    requires forall i :: 0 <= i < |s| ==> IsDigit(s[i])
    ensures DropUnderscores(s) == s
  {
    if s != [] {
      DropUnderscoresOfDigits(s[1..]);
      assert s == [s[0]] + s[1..];
    }
  }

  lemma {:induction false} TrimStartPadded(pre: string, x: string, drop: char -> bool)
    requires All(pre, drop)
    requires x != [] && !drop(x[0])
    ensures TrimStart(pre + x, drop) == x
  {
    if pre != [] {
      assert (pre + x)[1..] == pre[1..] + x;
      TrimStartPadded(pre[1..], x, drop);
    } else {
      assert pre + x == x;
    }
  }

  lemma {:induction false} TrimEndPadded(x: string, post: string, drop: char -> bool)
    requires All(post, drop)
    requires x != [] && !drop(x[|x| - 1])
    ensures TrimEnd(x + post, drop) == x
  {
    if post != [] {
      assert (x + post)[..|x + post| - 1] == x + post[..|post| - 1];
      TrimEndPadded(x, post[..|post| - 1], drop);
    } else {
      assert x + post == x;
    }
  }

  /** Proof step: associativity of concatenation, stated for the solver. */
  lemma Regroup(a: string, b: string, c: string)
    ensures a + b + c == a + (b + c)
  {
  }

  /** Trimming both ends of padded text that neither starts nor ends with a
      dropped character gives back the text. */
  lemma TrimPadded(pre: string, x: string, post: string, drop: char -> bool)
    requires All(pre, drop) && All(post, drop)
    requires x != [] && !drop(x[0]) && !drop(x[|x| - 1])
    ensures TrimEnd(TrimStart(pre + x + post, drop), drop) == x
  {
    var rest := x + post;
    assert rest[0] == x[0];
    TrimStartPadded(pre, rest, drop);
    Regroup(pre, x, post);
    TrimEndPadded(x, post, drop);
  }

  /** Trimming the start stops at or before the first kept character. */
  lemma {:induction false} TrimStartKeeps(s: string, i: nat, drop: char -> bool)
    requires i < |s| && !drop(s[i])
    ensures |s| - |TrimStart(s, drop)| <= i
  {
    if |s| > 0 && drop(s[0]) {
      TrimStartKeeps(s[1..], i - 1, drop);
    }
  }

  /** Trimming the end stops at or after the last kept character. */
  lemma {:induction false} TrimEndKeeps(s: string, j: nat, drop: char -> bool)
    requires j < |s| && !drop(s[j])
    ensures j < |TrimEnd(s, drop)|
  {
    if |s| > 0 && drop(s[|s| - 1]) {
      TrimEndKeeps(s[..|s| - 1], j, drop);
    }
  }

  /** A kept character survives trimming, at its position less the length
      of the trimmed prefix. */
  lemma TrimKeeps(text: string, i: nat, drop: char -> bool)
    requires i < |text| && !drop(text[i])
    ensures var k := |text| - |TrimStart(text, drop)|;
            var t := TrimEnd(TrimStart(text, drop), drop);
            k <= i < k + |t| && t[i - k] == text[i]
  {
    var lead := TrimStart(text, drop);
    var k := |text| - |lead|;
    TrimStartKeeps(text, i, drop);
    assert lead[i - k] == text[i];
    TrimEndKeeps(lead, i - k, drop);
  }

  /** The decimal text of an integer neither starts nor ends in whitespace. */
  lemma ShowHasNoSpaceEnds(n: int)
    ensures Show(n) != []
    ensures !IsSpace(Show(n)[0]) && !IsSpace(Show(n)[|Show(n)| - 1])
  {
    var digits := ShowNat(if n < 0 then -n else n);
    assert IsDigit(digits[0]) && IsDigit(digits[|digits| - 1]);
  }

  /** Plain digits parse to their value. */
  lemma ParseMagnitudeOfDigits(digits: string)
    requires digits != [] && forall i :: 0 <= i < |digits| ==> IsDigit(digits[i])
    ensures ParseMagnitude(digits) == Some(DigitsValue(digits))
  {
    assert WellFormedDigits(digits);
    DropUnderscoresOfDigits(digits);
  }

  /** The decimal text of an integer parses back to it. */
  lemma ParseStrippedShow(n: int)
    ensures ParseStripped(Show(n)) == Some(n)
  {
    var m: nat := if n < 0 then -n else n;
    var digits := ShowNat(m);
    DigitsValueShowNat(m);
    ParseMagnitudeOfDigits(digits);
    var t := Show(n);
    if n < 0 {
      assert t[0] == '-' && t[1..] == digits;
    } else {
      assert IsDigit(t[0]);
    }
  }

  /** Round trip: `int()` reads back the decimal text of any integer, also
      with whitespace around it. */
  lemma ParseShowRoundTrip(pre: string, n: int, post: string)
    requires AllSpace(pre) && AllSpace(post)
    ensures ParseInt(pre + Show(n) + post) == Some(n)
  {
    ShowHasNoSpaceEnds(n);
    TrimPadded(pre, Show(n), post, IsSpace);
    ParseStrippedShow(n);
  }

  /** The unsigned part of stripped text: what follows a leading sign, or
      the whole text. */
  function Unsigned(t: string): string
  {
    if |t| > 0 && (t[0] == '+' || t[0] == '-') then t[1..] else t
  }

  /** Stripped text is refused when its unsigned part is malformed. */
  lemma MalformedUnsignedRejected(t: string)
    requires !WellFormedDigits(Unsigned(t))
    ensures ParseStripped(t) == None
  {
  }

  /** Stripped text holding a character that is neither a digit, an
      underscore nor a sign is refused. */
  lemma StrayCharacterStrippedRejected(t: string, p: nat)
    requires p < |t| && !IsDigit(t[p]) && t[p] != '_' && t[p] != '+' && t[p] != '-'
    ensures ParseStripped(t) == None
  {
    var body := Unsigned(t);
    var q := if body == t then p else p - 1;
    assert body[q] == t[p];
    MalformedUnsignedRejected(t);
  }

  /** A character that is neither whitespace, a digit, an underscore nor a
      sign anywhere in the text makes `int()` raise. */
  lemma StrayCharacterRejected(text: string, i: nat)
    requires i < |text|
    requires !IsSpace(text[i]) && !IsDigit(text[i]) && text[i] != '_' && text[i] != '+' && text[i] != '-'
    ensures ParseInt(text) == None
  {
    ParseIntStrips(text);
    TrimKeeps(text, i, IsSpace);
    StrayCharacterStrippedRejected(Strip(text), i - (|text| - |TrimStart(text, IsSpace)|));
  }

  /** Empty or blank text is refused. */
  lemma BlankRejected(text: string)
    requires AllSpace(text)
    ensures ParseInt(text) == None
  {
    var lead := TrimStart(text, IsSpace);
    assert lead == [];
  }

  /** A sign, or none, in front of well-formed digits. */
  lemma ParseStrippedSigned(sign: string, body: string)
    requires sign == "" || sign == "+" || sign == "-"
    requires WellFormedDigits(body)
    ensures var v: int := DigitsValue(DropUnderscores(body));
            ParseStripped(sign + body) == Some(if sign == "-" then -v else v)
  {
    var x := sign + body;
    assert ParseMagnitude(body) == Some(DigitsValue(DropUnderscores(body)));
    if sign == "" {
      assert x == body && IsDigit(x[0]);
    } else if sign == "+" {
      assert x[0] == '+' && x[1..] == body;
    } else {
      assert x[0] == '-' && x[1..] == body;
    }
  }

  /** A sign, or none, in front of well-formed digits neither starts nor
      ends with whitespace. */
  lemma SignedDigitsHaveNoSpaceEnds(sign: string, body: string)
    requires sign == "" || sign == "+" || sign == "-"
    requires WellFormedDigits(body)
    ensures var x := sign + body; x != [] && !IsSpace(x[0]) && !IsSpace(x[|x| - 1])
  {
    var x := sign + body;
    assert x[|x| - 1] == body[|body| - 1];
    assert x[0] == (if sign == "" then body[0] else sign[0]);
  }

  /** Whitespace around text that neither starts nor ends with whitespace
      does not change what `int()` makes of it. */
  lemma ParseIntPadded(pre: string, x: string, post: string)
    requires AllSpace(pre) && AllSpace(post)
    requires x != [] && !IsSpace(x[0]) && !IsSpace(x[|x| - 1])
    ensures ParseInt(pre + x + post) == ParseStripped(x)
  {
    TrimPadded(pre, x, post, IsSpace);
  }

  /** The same, for text given as a sign and what follows it. */
  lemma ParseIntPaddedSigned(pre: string, sign: string, body: string, post: string)
    requires AllSpace(pre) && AllSpace(post)
    requires var x := sign + body; x != [] && !IsSpace(x[0]) && !IsSpace(x[|x| - 1])
    ensures ParseInt(pre + sign + body + post) == ParseStripped(sign + body)
  {
    Regroup(pre, sign, body);
    ParseIntPadded(pre, sign + body, post);
  }

  /** Acceptance: an optional sign followed by digits grouped with single
      underscores, with any whitespace around, is read as the value of its
      digits, the underscores ignored, negated after a minus sign. */
  lemma UnderscoredDigitsAccepted(pre: string, sign: string, body: string, post: string)
    requires AllSpace(pre) && AllSpace(post)
    requires sign == "" || sign == "+" || sign == "-"
    requires WellFormedDigits(body)
    ensures var v: int := DigitsValue(DropUnderscores(body));
            ParseInt(pre + sign + body + post) == Some(if sign == "-" then -v else v)
  {
    SignedDigitsHaveNoSpaceEnds(sign, body);
    ParseIntPaddedSigned(pre, sign, body, post);
    ParseStrippedSigned(sign, body);
  }

  /** What trimming the start removes is all dropped characters. */
  lemma TrimmedPrefixDropped(s: string, drop: char -> bool)
    ensures All(s[..|s| - |TrimStart(s, drop)|], drop)
  {
    var pre := s[..|s| - |TrimStart(s, drop)|];
    forall i | 0 <= i < |pre| ensures drop(pre[i]) {
      assert pre[i] == s[i];
    }
  }

  /** What trimming the end removes is all dropped characters. */
  lemma TrimmedSuffixDropped(s: string, drop: char -> bool)
    ensures All(s[|TrimEnd(s, drop)|..], drop)
  {
    var r := TrimEnd(s, drop);
    var post := s[|r|..];
    forall i | 0 <= i < |post| ensures drop(post[i]) {
      assert post[i] == s[|r| + i];
    }
  }

  /** Text is what trimming its start removes, then what is left. */
  lemma TrimStartSplits(s: string, drop: char -> bool)
    ensures s == s[..|s| - |TrimStart(s, drop)|] + TrimStart(s, drop)
  {
  }

  /** Text is what trimming its end leaves, then what is removed. */
  lemma TrimEndSplits(s: string, drop: char -> bool)
    ensures s == TrimEnd(s, drop) + s[|TrimEnd(s, drop)|..]
  {
  }

  /** Text is its stripped part with whitespace on either side. */
  lemma StripSplits(text: string) returns (pre: string, post: string)
    ensures AllSpace(pre) && AllSpace(post) && text == pre + Strip(text) + post
  {
    var lead := TrimStart(text, IsSpace);
    var t := TrimEnd(lead, IsSpace);
    TrimmedPrefixDropped(text, IsSpace);
    TrimmedSuffixDropped(lead, IsSpace);
    TrimStartSplits(text, IsSpace);
    TrimEndSplits(lead, IsSpace);
    pre := text[..|text| - |lead|];
    post := lead[|t|..];
    Regroup(pre, t, post);
  }

  /** Stripped text that is accepted is an optional sign and well-formed
      digits, read as their signed value. */
  lemma StrippedAcceptedIsSigned(t: string) returns (sign: string, body: string)
    requires ParseStripped(t).Some?
    ensures sign == "" || sign == "+" || sign == "-"
    ensures WellFormedDigits(body) && t == sign + body
    ensures ParseStripped(t) == Some(SignedValue(sign, body))
  {
    if |t| > 0 && (t[0] == '-' || t[0] == '+') {
      sign, body := [t[0]], t[1..];
    } else {
      sign, body := "", t;
    }
  }

  /** Accepted text is a literal. */
  lemma AcceptedIsLiteral(text: string) returns (pre: string, sign: string, body: string, post: string)
    requires ParseStripped(Strip(text)).Some?
    ensures IsLiteral(text, pre, sign, body, post)
  {
    pre, post := StripSplits(text);
    sign, body := StrippedAcceptedIsSigned(Strip(text));
    Regroup(pre, sign, body);
  }

  /** A literal strips to its sign and digits. */
  lemma StripLiteral(pre: string, sign: string, body: string, post: string)
    requires AllSpace(pre) && AllSpace(post)
    requires sign == "" || sign == "+" || sign == "-"
    requires WellFormedDigits(body)
    ensures Strip(pre + sign + body + post) == sign + body
  {
    SignedDigitsHaveNoSpaceEnds(sign, body);
    Regroup(pre, sign, body);
    TrimPadded(pre, sign + body, post, IsSpace);
  }

  /** A literal reads as its value once stripped. */
  lemma LiteralReadsItsValue(text: string, pre: string, sign: string, body: string, post: string)
    requires IsLiteral(text, pre, sign, body, post)
    ensures ParseStripped(Strip(text)) == Some(SignedValue(sign, body))
  {
    StripLiteral(pre, sign, body, post);
    ParseStrippedSigned(sign, body);
  }

  /** Both directions of `ParseInt`'s contract, on its definition. */
  lemma StripReadsLiterals(text: string)
    ensures ParseStripped(Strip(text)).Some? <==> exists pre, sign, body, post :: IsLiteral(text, pre, sign, body, post)
    ensures forall pre, sign, body, post :: IsLiteral(text, pre, sign, body, post) ==>
              ParseStripped(Strip(text)) == Some(SignedValue(sign, body))
  {
    if ParseStripped(Strip(text)).Some? {
      var pre, sign, body, post := AcceptedIsLiteral(text);
    }
    forall pre, sign, body, post | IsLiteral(text, pre, sign, body, post)
      ensures ParseStripped(Strip(text)) == Some(SignedValue(sign, body))
    {
      LiteralReadsItsValue(text, pre, sign, body, post);
    }
  }

  /** Stripping text behind whitespace leaves a non-empty start of the
      text when it does not start with whitespace. */
  lemma StripAfterPadding(pre: string, x: string)
    requires AllSpace(pre) && x != [] && !IsSpace(x[0])
    ensures var t := Strip(pre + x); 0 < |t| <= |x| && t == x[..|t|]
  {
    TrimStartPadded(pre, x, IsSpace);
    TrimEndKeeps(x, 0, IsSpace);
  }

  /** When the character after the optional sign is not a digit, the
      unsigned part is malformed. */
  lemma UnsignedStartsWithNonDigit(t: string, sign: string, c: char)
    requires sign == "" || sign == "+" || sign == "-"
    requires !IsDigit(c) && (sign == "" ==> c != '+' && c != '-')
    requires |sign| <= |t| && (|sign| < |t| ==> t[|sign|] == c)
    requires sign != "" ==> t[0] == sign[0]
    ensures !WellFormedDigits(Unsigned(t))
  {
    if |sign| < |t| {
      assert Unsigned(t)[0] == c;
    }
  }

  /** Right after the optional sign there must be a digit: a leading
      underscore, a second sign, whitespace between the sign and the digits
      or any other character there makes `int()` raise. */
  lemma FirstCharacterAfterSignMustBeDigit(pre: string, sign: string, c: char, rest: string)
    requires AllSpace(pre)
    requires sign == "" || sign == "+" || sign == "-"
    requires !IsDigit(c)
    requires sign == "" ==> !IsSpace(c) && c != '+' && c != '-'
    ensures ParseInt(pre + sign + [c] + rest) == None
  {
    ParseIntStrips(pre + sign + [c] + rest);
    NonDigitAfterSignStrippedRejected(pre, sign, c, rest);
  }

  /** The same, on the stripped text. */
  lemma NonDigitAfterSignStrippedRejected(pre: string, sign: string, c: char, rest: string)
    requires AllSpace(pre)
    requires sign == "" || sign == "+" || sign == "-"
    requires !IsDigit(c)
    requires sign == "" ==> !IsSpace(c) && c != '+' && c != '-'
    ensures ParseStripped(Strip(pre + sign + [c] + rest)) == None
  {
    Regroup(pre, sign, [c]);
    Regroup(pre, sign + [c], rest);
    var x := sign + [c] + rest;
    assert x[|sign|] == c;
    assert x[0] == (if sign == "" then c else sign[0]);
    StripAfterPadding(pre, x);
    var t := Strip(pre + x);
    assert |sign| < |t| ==> t[|sign|] == x[|sign|];
    UnsignedStartsWithNonDigit(t, sign, c);
    MalformedUnsignedRejected(t);
  }

  /** Stripped text with two underscores in a row is refused. */
  lemma AdjacentUnderscoresRejected(t: string, p: nat)
    requires p + 1 < |t| && t[p] == '_' && t[p + 1] == '_'
    ensures ParseStripped(t) == None
  {
    var body := Unsigned(t);
    var q := if body == t then p else p - 1;
    assert body[q] == '_' && body[q + 1] == '_';
    MalformedUnsignedRejected(t);
  }

  /** Two neighbouring characters that are not whitespace stay neighbours
      after stripping, at position `p` and the next. */
  lemma StripKeepsPair(text: string, i: nat) returns (p: nat)
    requires i + 1 < |text| && !IsSpace(text[i]) && !IsSpace(text[i + 1])
    ensures p + 1 < |Strip(text)| && Strip(text)[p] == text[i] && Strip(text)[p + 1] == text[i + 1]
  {
    TrimKeeps(text, i, IsSpace);
    TrimKeeps(text, i + 1, IsSpace);
    p := i - (|text| - |TrimStart(text, IsSpace)|);
  }

  /** Two underscores in a row anywhere make `int()` raise. */
  lemma DoubleUnderscoreRejected(text: string, i: nat)
    requires i + 1 < |text| && text[i] == '_' && text[i + 1] == '_'
    ensures ParseInt(text) == None
  {
    ParseIntStrips(text);
    var p := StripKeepsPair(text, i);
    AdjacentUnderscoresRejected(Strip(text), p);
  }

  /** Trimming the start of text whose last character is kept never
      reaches what follows it. */
  lemma {:induction false} TrimStartBeforeKept(x: string, post: string, drop: char -> bool)
    requires x != [] && !drop(x[|x| - 1])
    ensures TrimStart(x + post, drop) == TrimStart(x, drop) + post
  {
    var s := x + post;
    assert s[0] == x[0];
    if drop(x[0]) {
      assert s[1..] == x[1..] + post;
      TrimStartBeforeKept(x[1..], post, drop);
    }
  }

  /** Trimming the start of text whose last character is kept leaves that
      character last. */
  lemma TrimStartEndsAsBefore(x: string, drop: char -> bool)
    requires x != [] && !drop(x[|x| - 1])
    ensures var lead := TrimStart(x, drop); lead != [] && lead[|lead| - 1] == x[|x| - 1]
  {
    TrimStartKeeps(x, |x| - 1, drop);
  }

  /** Trimming text that ends in a kept character and then dropped ones
      leaves text ending in that character. */
  lemma TrimBeforePadding(x: string, post: string, drop: char -> bool)
    requires All(post, drop) && x != [] && !drop(x[|x| - 1])
    ensures var t := TrimEnd(TrimStart(x + post, drop), drop);
            t != [] && t[|t| - 1] == x[|x| - 1]
  {
    TrimStartEndsAsBefore(x, drop);
    TrimStartBeforeKept(x, post, drop);
    TrimEndPadded(TrimStart(x, drop), post, drop);
  }

  /** Trimming text that ends in a given kept character and then dropped
      ones leaves text ending in that character. */
  lemma TrimBeforeKept(text: string, c: char, post: string, drop: char -> bool)
    requires All(post, drop) && !drop(c)
    ensures var t := TrimEnd(TrimStart(text + [c] + post, drop), drop);
            t != [] && t[|t| - 1] == c
  {
    var x := text + [c];
    assert x[|x| - 1] == c;
    TrimBeforePadding(x, post, drop);
  }

  /** Stripping text that ends in an underscore and then whitespace
      leaves text ending in that underscore. */
  lemma StripBeforeUnderscore(text: string, post: string)
    requires AllSpace(post)
    ensures var t := Strip(text + "_" + post); t != [] && t[|t| - 1] == '_'
  {
    TrimBeforeKept(text, '_', post, IsSpace);
  }

  /** Stripped text ending in an underscore is refused. */
  lemma TrailingUnderscoreStrippedRejected(t: string)
    requires t != [] && t[|t| - 1] == '_'
    ensures ParseStripped(t) == None
  {
    var body := Unsigned(t);
    assert body != [] && body[|body| - 1] == '_';
    MalformedUnsignedRejected(t);
  }

  /** An underscore as the last character before trailing whitespace makes
      `int()` raise. */
  lemma TrailingUnderscoreRejected(text: string, post: string)
    requires AllSpace(post)
    ensures ParseInt(text + "_" + post) == None
  {
    ParseIntStrips(text + "_" + post);
    StripBeforeUnderscore(text, post);
    TrailingUnderscoreStrippedRejected(Strip(text + "_" + post));
  }
}
