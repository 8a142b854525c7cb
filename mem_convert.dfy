/**
 * Human-readable sizes to a number of bytes (parse_size in
 * tempo/mem_convert.py). The number before the unit is read exactly, as a
 * rational `real`, where Python reads a binary float.
 */
module MemConvert {
  import opened Wrappers

  /** The multipliers of the units: decimal powers of a thousand. */
  const Units: map<string, nat> :=
    map["B" := 1, "KB" := 1000, "MB" := 1000000, "GB" := 1000000000, "TB" := 1000000000000]

  datatype SizeError =
    | NotTwoTokens   // ValueError: the split does not unpack into (number, unit)
    | NotANumber     // ValueError from float(), or int() of an infinity or a NaN
    | UnknownUnit    // KeyError: the unit is not in the table

  // ---------------------------------------------------------------------------
  // Text

  /** str.upper() on a byte string: only a-z change. */
  function UpperChar(c: char): char {
    if 'a' <= c <= 'z' then (c as int - 32) as char else c
  }

  function Upper(s: string): string {
    seq(|s|, i requires 0 <= i < |s| => UpperChar(s[i]))
  }

  /** The letters that may stand before B in a unit. */
  predicate IsUnitPrefix(c: char) {
    c == 'K' || c == 'M' || c == 'G' || c == 'T'
  }

  /** re.sub(r'([KMGT]?B)', r' \1', s): a space before every unit, matches taken left to right. */
  function SeparateUnits(s: string): string
    decreases |s|
  {
    if s == [] then []
    else if |s| >= 2 && IsUnitPrefix(s[0]) && s[1] == 'B' then " " + s[..2] + SeparateUnits(s[2..])
    else if s[0] == 'B' then " B" + SeparateUnits(s[1..])
    else [s[0]] + SeparateUnits(s[1..])
  }

  /** The characters str.split() breaks on: space, tab, line feed, vertical tab, form feed, carriage return. */
  predicate IsSpace(c: char) {
    c == ' ' || '\t' <= c <= '\r'
  }

  /** The length of the run of non-space characters that starts `s`. */
  function TokenLength(s: string): (n: nat)
    ensures n <= |s|
    ensures s != [] && !IsSpace(s[0]) ==> n >= 1
  {
    if s == [] || IsSpace(s[0]) then 0 else 1 + TokenLength(s[1..])
  }

  /** str.split() with no separator: the maximal runs of non-space characters. */
  function Words(s: string): seq<string>
    decreases |s|
  {
    if s == [] then []
    else if IsSpace(s[0]) then Words(s[1..])
    else
      var n := TokenLength(s);
      [s[..n]] + Words(s[n..])
  }

  /** The tokens parse_size unpacks: upper-cased, units split off unless the text starts with a space. */
  function Tokens(size: string): seq<string> {
    var upper := Upper(size);
    Words(if |upper| > 0 && upper[0] == ' ' then upper else SeparateUnits(upper))
  }

  // ---------------------------------------------------------------------------
  // Numbers

  predicate IsDigit(c: char) { '0' <= c <= '9' }

  function Digit(c: char): nat
    requires IsDigit(c)
  {
    c as int - '0' as int
  }

  /** The digits of `t` appended to `acc`, or nothing when `t` holds a non-digit. */
  function ReadDigits(t: string, acc: nat): Option<nat>
    decreases |t|
  {
    if t == [] then Some(acc)
    else if IsDigit(t[0]) then ReadDigits(t[1..], 10 * acc + Digit(t[0]))
    else None
  }

  function Pow10(e: nat): (p: nat)
    ensures p >= 1
  {
    if e == 0 then 1 else 10 * Pow10(e - 1)
  }

  /** x times ten to the power e. */
  function Scale(x: real, e: int): real {
    if e >= 0 then x * Pow10(e) as real else x / Pow10(-e) as real
  }

  /** An optional sign and at least one digit, all of `s`. */
  function ParseInteger(s: string): Option<int> {
    var digits := if |s| > 0 && (s[0] == '-' || s[0] == '+') then s[1..] else s;
    if digits == [] then None
    else match ReadDigits(digits, 0)
      case None => None
      case Some(v) =>
        var magnitude: int := v;
        Some(if s[0] == '-' then -magnitude else magnitude)
  }

  /** The exponent part of a decimal literal: empty, or `E` then an integer. */
  function ParseExponent(s: string): Option<int> {
    if s == [] then Some(0)
    else if s[0] == 'E' || s[0] == 'e' then ParseInteger(s[1..])
    else None
  }

  /**
   * The unsigned part of a decimal literal, read left to right: `value` holds
   * the digits read so far as one integer, `scale` how many of them follow the
   * point, `point` and `digit` whether a point and a digit have been read.
   */
  function ReadMantissa(t: string, value: nat, scale: nat, point: bool, digit: bool): Option<real>
    decreases |t|
  {
    if t != [] && IsDigit(t[0]) then
      ReadMantissa(t[1..], 10 * value + Digit(t[0]), if point then scale + 1 else scale, point, true)
    else if t != [] && t[0] == '.' && !point then
      ReadMantissa(t[1..], value, scale, true, digit)
    else if !digit then None
    else match ParseExponent(t)
      case None => None
      case Some(e) => Some(Scale(value as real, e - scale))
  }

  /**
   * float() of a decimal literal: an optional sign, digits with an optional
   * point (at least one digit in all) and an optional exponent. Spellings of
   * infinity and NaN are refused, as int() would refuse their product.
   */
  function ParseNumber(t: string): Option<real> {
    var unsigned := if |t| > 0 && (t[0] == '-' || t[0] == '+') then t[1..] else t;
    match ReadMantissa(unsigned, 0, 0, false, false)
      case None => None
      case Some(x) => Some(if t[0] == '-' then -x else x)
  }

  /** int(x): the fraction dropped, toward zero. */
  function Truncate(x: real): (r: int)
    ensures 0.0 <= x ==> r as real <= x < r as real + 1.0
    ensures x < 0.0 ==> r as real - 1.0 < x <= r as real
  {
    if x >= 0.0 then x.Floor else -((-x).Floor)
  }

  // ---------------------------------------------------------------------------
  // parse_size

  /**
   * `number, unit = ...split()` then `int(float(number) * units[unit])`:
   * exactly two tokens, and the number is read before the unit is looked up.
   */
  function Unpack(tokens: seq<string>): (r: Result<int, SizeError>)
    ensures r == Err(NotTwoTokens) <==> |tokens| != 2
    ensures r.Ok? ==> tokens[1] in Units && ParseNumber(tokens[0]).Some?
  {
    if |tokens| != 2 then Err(NotTwoTokens)
    else match ParseNumber(tokens[0])
      case None => Err(NotANumber)
      case Some(number) =>
        if tokens[1] !in Units then Err(UnknownUnit)
        else Ok(Truncate(number * Units[tokens[1]] as real))
  }

  /** parse_size: a human-readable size to a number of bytes, or the error Python raises. */
  function ParseSize(size: string): Result<int, SizeError> {
    Unpack(Tokens(size))
  }

  // ---------------------------------------------------------------------------
  // Properties

  lemma UpperIdempotent(s: string)
    ensures Upper(Upper(s)) == Upper(s)
  {
  }

  /** Text without lower-case letters is its own upper case. */
  lemma UpperOfUpperCase(s: string)
    requires forall i :: 0 <= i < |s| ==> !('a' <= s[i] <= 'z')
    ensures Upper(s) == s
  {
  }

  /** Upper-casing comes first, so lower-case units read like upper-case ones. */
  lemma ParseSizeIgnoresCase(size: string)
    ensures ParseSize(Upper(size)) == ParseSize(size)
  {
    UpperIdempotent(size);
  }

  /** The characters of a number literal as the upper-cased text holds it. */
  predicate IsNumberChar(c: char) {
    IsDigit(c) || c == '.' || c == '+' || c == '-' || c == 'E'
  }

  predicate IsNumberText(n: string) {
    n != [] && forall i :: 0 <= i < |n| ==> IsNumberChar(n[i])
  }

  /** The shape of the table's keys: B, alone or after one of K, M, G and T. */
  predicate IsUnitText(u: string) {
    u == ['B'] || (|u| == 2 && IsUnitPrefix(u[0]) && u[1] == 'B')
  }

  lemma UnitsAreUnitText(u: string)
    requires u in Units
    ensures IsUnitText(u)
  {
    assert u == "B" || u == "KB" || u == "MB" || u == "GB" || u == "TB";
  }

  lemma UpperKeepsNumberAndUnit(n: string, u: string)
    requires IsNumberText(n) && IsUnitText(u)
    ensures Upper(n + u) == n + u
    ensures Upper(n + " " + u) == n + " " + u
    ensures Upper(" " + n + u) == " " + n + u
    ensures Upper(" " + n + " " + u) == " " + n + " " + u
  {
    UpperOfUpperCase(n + u);
    UpperOfUpperCase(n + " " + u);
    UpperOfUpperCase(" " + n + u);
    UpperOfUpperCase(" " + n + " " + u);
  }

  lemma {:induction false} SeparateUnitsSkipsNumber(n: string, rest: string)
    requires forall i :: 0 <= i < |n| ==> IsNumberChar(n[i])
    ensures SeparateUnits(n + rest) == n + SeparateUnits(rest)
    decreases |n|
  {
    if n != [] {
      var s := n + rest;
      assert s[0] == n[0] && !IsUnitPrefix(s[0]) && s[0] != 'B';
      assert s[1..] == n[1..] + rest;
      SeparateUnitsSkipsNumber(n[1..], rest);
      calc {
        SeparateUnits(s);
        [s[0]] + SeparateUnits(s[1..]);
        [n[0]] + (n[1..] + SeparateUnits(rest));
        { assert [n[0]] + n[1..] == n; }
        n + SeparateUnits(rest);
      }
    } else {
      assert n + rest == rest;
    }
  }

  lemma SeparateUnitsOfUnit(u: string)
    requires IsUnitText(u)
    ensures SeparateUnits(u) == " " + u
    ensures SeparateUnits(" " + u) == "  " + u
  {
    if |u| == 2 {
      assert u[..2] == u && u[2..] == [];
    } else {
      assert u[1..] == [];
    }
    assert (" " + u)[1..] == u;
  }

  lemma {:induction false} TokenLengthOfToken(t: string, rest: string)
    requires forall i :: 0 <= i < |t| ==> !IsSpace(t[i])
    requires rest == [] || IsSpace(rest[0])
    ensures TokenLength(t + rest) == |t|
    decreases |t|
  {
    if t != [] {
      assert (t + rest)[1..] == t[1..] + rest;
      TokenLengthOfToken(t[1..], rest);
    }
  }

  lemma WordsOfToken(t: string, rest: string)
    requires t != [] && forall i :: 0 <= i < |t| ==> !IsSpace(t[i])
    requires rest == [] || IsSpace(rest[0])
    ensures Words(t + rest) == [t] + Words(rest)
  {
    TokenLengthOfToken(t, rest);
    assert (t + rest)[..|t|] == t;
    assert (t + rest)[|t|..] == rest;
  }

  /** A word with no space in it. */
  predicate IsWord(t: string) {
    t != [] && forall i :: 0 <= i < |t| ==> !IsSpace(t[i])
  }

  /** Two words parted by one or two spaces split into those two words. */
  lemma WordsOfTwo(a: string, b: string)
    requires IsWord(a) && IsWord(b)
    ensures Words(a + " " + b) == [a, b]
    ensures Words(a + "  " + b) == [a, b]
  {
    WordsOfToken(b, []);
    assert b + [] == b;
    assert Words(" " + b) == Words(b);
    assert Words("  " + b) == Words(" " + b);
    WordsOfToken(a, " " + b);
    assert a + " " + b == a + (" " + b);
    WordsOfToken(a, "  " + b);
    assert a + "  " + b == a + ("  " + b);
  }

  /** The number and its unit are two tokens, whether one or two spaces part them. */
  lemma WordsOfNumberAndUnit(n: string, u: string)
    requires IsNumberText(n) && IsUnitText(u)
    ensures Words(n + " " + u) == [n, u]
    ensures Words(n + "  " + u) == [n, u]
  {
    assert IsWord(u);
    assert IsWord(n);
    WordsOfTwo(n, u);
  }

  lemma TokensOfGlued(n: string, u: string)
    requires IsNumberText(n) && IsUnitText(u)
    ensures Tokens(n + u) == [n, u]
  {
    UpperKeepsNumberAndUnit(n, u);
    SeparateUnitsOfUnit(u);
    SeparateUnitsSkipsNumber(n, u);
    assert n + (" " + u) == n + " " + u;
    WordsOfNumberAndUnit(n, u);
  }

  lemma TokensOfSpaced(n: string, u: string)
    requires IsNumberText(n) && IsUnitText(u)
    ensures Tokens(n + " " + u) == [n, u]
  {
    UpperKeepsNumberAndUnit(n, u);
    SeparateUnitsOfUnit(u);
    SeparateUnitsSkipsNumber(n, " " + u);
    assert n + " " + u == n + (" " + u);
    assert n + ("  " + u) == n + "  " + u;
    WordsOfNumberAndUnit(n, u);
  }

  /** What parse_size gives for a number token and a unit token. */
  lemma ParseSizeOfTokens(size: string, n: string, u: string, x: real)
    requires Tokens(size) == [n, u] && u in Units && ParseNumber(n) == Some(x)
    ensures ParseSize(size) == Ok(Truncate(x * Units[u] as real))
  {
  }

  /** A number glued to its unit (`1MB`) reads like the spaced form (`1 MB`), error or not. */
  lemma ParseSizeGluedOrSpaced(n: string, u: string)
    requires IsNumberText(n) && u in Units
    ensures ParseSize(n + u) == ParseSize(n + " " + u)
  {
    UnitsAreUnitText(u);
    TokensOfGlued(n, u);
    TokensOfSpaced(n, u);
  }

  /** Either way, a number and a unit give the number's exact value times the multiplier, truncated. */
  lemma ParseSizeOfNumberAndUnit(n: string, u: string, x: real)
    requires IsNumberText(n) && u in Units && ParseNumber(n) == Some(x)
    ensures ParseSize(n + " " + u) == Ok(Truncate(x * Units[u] as real))
    ensures ParseSize(n + u) == Ok(Truncate(x * Units[u] as real))
  {
    UnitsAreUnitText(u);
    TokensOfSpaced(n, u);
    ParseSizeOfTokens(n + " " + u, n, u, x);
    TokensOfGlued(n, u);
    ParseSizeOfTokens(n + u, n, u, x);
  }

  /** A first token that is not a number is a ValueError, whatever the unit. */
  lemma ParseSizeRejectsBadNumber(n: string, u: string)
    requires IsNumberText(n) && u in Units && ParseNumber(n) == None
    ensures ParseSize(n + " " + u) == Err(NotANumber)
    ensures ParseSize(n + u) == Err(NotANumber)
  {
    UnitsAreUnitText(u);
    TokensOfSpaced(n, u);
    TokensOfGlued(n, u);
  }

  lemma TokensOfLeadingSpace(n: string, u: string)
    requires IsNumberText(n) && IsUnitText(u)
    ensures Tokens(" " + n + u) == [n + u]
    ensures Tokens(" " + n + " " + u) == [n, u]
  {
    UpperKeepsNumberAndUnit(n, u);
    assert Upper(" " + n + u) == " " + (n + u);
    assert Upper(" " + n + " " + u) == " " + (n + " " + u);
    assert forall i :: 0 <= i < |n + u| ==> !IsSpace((n + u)[i]);
    WordsOfToken(n + u, []);
    assert (n + u) + [] == n + u;
    WordsOfNumberAndUnit(n, u);
  }

  /**
   * Text that starts with a space skips the unit split: a glued number and
   * unit is then one token, an error, while the spaced form still reads.
   */
  lemma ParseSizeLeadingSpace(n: string, u: string)
    requires IsNumberText(n) && u in Units
    ensures ParseSize(" " + n + u) == Err(NotTwoTokens)
    ensures ParseSize(" " + n + " " + u) == ParseSize(n + " " + u)
  {
    UnitsAreUnitText(u);
    TokensOfLeadingSpace(n, u);
    TokensOfSpaced(n, u);
  }

  /** A number with no unit is one token: an error, not a count of bytes. */
  lemma ParseSizeNeedsUnit(n: string)
    requires IsNumberText(n)
    ensures ParseSize(n) == Err(NotTwoTokens)
  {
    assert Upper(n) == n;
    SeparateUnitsSkipsNumber(n, []);
    assert n + [] == n;
    WordsOfToken(n, []);
  }

  lemma {:induction false} SeparateUnitsWithoutB(s: string)
    requires forall i :: 0 <= i < |s| ==> s[i] != 'B'
    ensures SeparateUnits(s) == s
    decreases |s|
  {
    if s != [] {
      SeparateUnitsWithoutB(s[1..]);
    }
  }

  lemma TokensOfNumberAndWord(n: string, w: string)
    requires IsNumberText(n) && w != []
    requires forall i :: 0 <= i < |w| ==> !IsSpace(w[i]) && w[i] != 'B' && !('a' <= w[i] <= 'z')
    ensures Tokens(n + " " + w) == [n, w]
  {
    var s := n + " " + w;
    UpperOfUpperCase(s);
    SeparateUnitsWithoutB(s);
    assert IsWord(n) && IsWord(w);
    WordsOfTwo(n, w);
  }

  /** A second word that is not a unit of the table (and holds no B) is a KeyError. */
  lemma ParseSizeUnknownUnit(n: string, w: string)
    requires IsNumberText(n) && ParseNumber(n).Some?
    requires w != []
    requires forall i :: 0 <= i < |w| ==> !IsSpace(w[i]) && w[i] != 'B' && !('a' <= w[i] <= 'z')
    ensures ParseSize(n + " " + w) == Err(UnknownUnit)
  {
    assert forall u :: u in Units ==> u != [] && u[|u| - 1] == 'B';
    assert w[|w| - 1] != 'B';
    TokensOfNumberAndWord(n, w);
  }

  /**
   * A prefix letter outside the table is split from its B, so `4 PB` is three
   * tokens: a ValueError from the unpacking, not a KeyError.
   */
  lemma ParseSizeOtherPrefixSplits(n: string, c: char)
    requires IsNumberText(n) && !IsUnitPrefix(c) && c != 'B' && !IsSpace(c) && !('a' <= c <= 'z')
    ensures ParseSize(n + " " + [c, 'B']) == Err(NotTwoTokens)
  {
    var s := n + " " + [c, 'B'];
    UpperOfUpperCase(s);
    assert s == n + (" " + [c, 'B']);
    SeparateUnitsSkipsNumber(n, " " + [c, 'B']);
    assert (" " + [c, 'B'])[1..] == [c, 'B'] && [c, 'B'][1..] == "B" && "B"[1..] == [];
    assert SeparateUnits("B") == " B";
    assert SeparateUnits([c, 'B']) == [c] + " B";
    assert SeparateUnits(" " + [c, 'B']) == " " + ([c] + " B");
    var spaced := [c] + " " + "B";
    assert [c] + " B" == spaced;
    assert IsWord([c]) && IsWord("B") && IsWord(n);
    WordsOfTwo([c], "B");
    assert (" " + spaced)[1..] == spaced;
    WordsOfToken(n, " " + spaced);
    assert Tokens(s) == [n, [c], "B"];
  }

  /** A minus sign negates the number, a plus sign changes nothing. */
  lemma ParseNumberSign(t: string)
    requires t == [] || (t[0] != '-' && t[0] != '+')
    ensures ParseNumber("-" + t) == (match ParseNumber(t) case None => None case Some(x) => Some(-x))
    ensures ParseNumber("+" + t) == ParseNumber(t)
  {
    assert ("-" + t)[1..] == t;
    assert ("+" + t)[1..] == t;
  }

  /** Truncation toward zero treats a value and its negation alike. */
  lemma TruncateOdd(x: real)
    ensures Truncate(-x) == -Truncate(x)
  {
  }

  predicate AllDigits(a: string) {
    forall i :: 0 <= i < |a| ==> IsDigit(a[i])
  }

  /** The value of a run of decimal digits: ten times the value of all but the last, plus the last. */
  function DigitsValue(a: string): nat
    requires AllDigits(a)
  {
    if a == [] then 0 else 10 * DigitsValue(a[..|a| - 1]) + Digit(a[|a| - 1])
  }

  /** The first digit counts ten to the power of the digits after it. */
  lemma {:induction false} DigitsValueOfFirst(a: string)
    requires AllDigits(a) && a != []
    ensures DigitsValue(a) == Digit(a[0]) * Pow10(|a| - 1) + DigitsValue(a[1..])
    decreases |a|
  {
    if |a| > 1 {
      var init, tail := a[..|a| - 1], a[1..];
      var d, last := Digit(a[0]), Digit(a[|a| - 1]);
      DigitsValueOfFirst(init);
      assert init[0] == a[0] && init[1..] == tail[..|tail| - 1] && tail[|tail| - 1] == a[|a| - 1];
      var p, middle := Pow10(|init| - 1), DigitsValue(init[1..]);
      assert DigitsValue(init) == d * p + middle;
      assert DigitsValue(tail) == 10 * middle + last;
      assert DigitsValue(a) == 10 * DigitsValue(init) + last;
      TimesTen(d, p);
      assert Pow10(|a| - 1) == 10 * p;
    } else {
      assert a[1..] == [];
    }
  }

  lemma TimesTen(d: int, p: int)
    ensures 10 * (d * p) == d * (10 * p)
  {
  }

  /** One digit read: shifted into `value`, and counted in `scale` after the point. */
  lemma ReadMantissaDigit(c: char, t: string, value: nat, scale: nat, point: bool, digit: bool)
    requires IsDigit(c)
    ensures ReadMantissa([c] + t, value, scale, point, digit)
            == ReadMantissa(t, 10 * value + Digit(c), if point then scale + 1 else scale, point, true)
  {
    assert ([c] + t)[0] == c && ([c] + t)[1..] == t;
  }

  lemma ShiftDigit(value: nat, d: nat, p: nat, rest: nat)
    ensures (10 * value + d) * p + rest == value * (10 * p) + (d * p + rest)
  {
  }

  /** The reader consumes a run of digits by shifting them into `value`. */
  lemma {:induction false} ReadMantissaDigits(a: string, rest: string, value: nat, scale: nat, point: bool, digit: bool)
    requires AllDigits(a)
    ensures ReadMantissa(a + rest, value, scale, point, digit)
            == ReadMantissa(rest, value * Pow10(|a|) + DigitsValue(a),
                            if point then scale + |a| else scale, point, digit || a != [])
    decreases |a|
  {
    if a == [] {
      assert a + rest == rest;
    } else {
      var tail := a[1..];
      assert a + rest == [a[0]] + (tail + rest);
      ReadMantissaDigit(a[0], tail + rest, value, scale, point, digit);
      ReadMantissaDigits(tail, rest, 10 * value + Digit(a[0]), if point then scale + 1 else scale, point, true);
      DigitsValueOfFirst(a);
      ShiftDigit(value, Digit(a[0]), Pow10(|tail|), DigitsValue(tail));
    }
  }

  /** The first point read only marks that the digits now follow the point. */
  lemma ReadMantissaPoint(t: string, value: nat, scale: nat, digit: bool)
    ensures ReadMantissa(['.'] + t, value, scale, false, digit) == ReadMantissa(t, value, scale, true, digit)
  {
    assert (['.'] + t)[0] == '.' && (['.'] + t)[1..] == t;
  }

  /** After at least one digit, an exponent part ends the literal. */
  lemma ReadMantissaEnd(x: string, e: int, value: nat, scale: nat, point: bool)
    requires ParseExponent(x) == Some(e)
    ensures ReadMantissa(x, value, scale, point, true) == Some(Scale(value as real, e - scale))
  {
  }

  /** Text that starts with a digit or a point carries no sign and is read from its first character. */
  lemma ParseNumberUnsigned(t: string)
    requires t != [] && (IsDigit(t[0]) || t[0] == '.')
    ensures ParseNumber(t) == ReadMantissa(t, 0, 0, false, false)
  {
  }

  /** Digits before a point: the text starts with a digit or with the point. */
  lemma DecimalStart(a: string, rest: string)
    requires AllDigits(a) && rest != [] && rest[0] == '.'
    ensures a + rest != [] && (IsDigit((a + rest)[0]) || (a + rest)[0] == '.')
  {
    if a != [] {
      assert (a + rest)[0] == a[0];
    } else {
      assert a + rest == rest;
    }
  }

  /** The digits a literal starts with, read from the start. */
  lemma ReadMantissaLeadingDigits(a: string, rest: string)
    requires AllDigits(a)
    ensures ReadMantissa(a + rest, 0, 0, false, false) == ReadMantissa(rest, DigitsValue(a), 0, false, a != [])
  {
    ReadMantissaDigits(a, rest, 0, 0, false, false);
    assert 0 * Pow10(|a|) + DigitsValue(a) == DigitsValue(a);
  }

  /** A point, digits and an exponent part, after the digits before the point. */
  lemma ReadMantissaFraction(b: string, x: string, e: int, value: nat, digit: bool)
    requires AllDigits(b) && (digit || b != []) && ParseExponent(x) == Some(e)
    ensures ReadMantissa(['.'] + (b + x), value, 0, false, digit)
            == Some(Scale((value * Pow10(|b|) + DigitsValue(b)) as real, e - |b|))
  {
    ReadMantissaPoint(b + x, value, 0, digit);
    ReadMantissaDigits(b, x, value, 0, true, digit);
    ReadMantissaEnd(x, e, value * Pow10(|b|) + DigitsValue(b), |b|, true);
  }

  /** The whole literal `a.b` and its exponent part, read from the start. */
  lemma ReadMantissaDecimal(a: string, b: string, x: string, e: int)
    requires AllDigits(a) && AllDigits(b) && (a != [] || b != [])
    requires ParseExponent(x) == Some(e)
    ensures ReadMantissa(a + (['.'] + (b + x)), 0, 0, false, false)
            == Some(Scale((DigitsValue(a) * Pow10(|b|) + DigitsValue(b)) as real, e - |b|))
  {
    ReadMantissaLeadingDigits(a, ['.'] + (b + x));
    ReadMantissaFraction(b, x, e, DigitsValue(a), a != []);
  }

  /**
   * float() of a decimal literal `a.b` followed by an exponent part `x`
   * (empty, or E and an integer): the digits of `a` and `b` read as one
   * integer, scaled by the exponent less the number of digits after the
   * point. Either run of digits may be empty, but not both.
   */
  lemma NumberOfDecimal(a: string, b: string, x: string, e: int)
    requires AllDigits(a) && AllDigits(b) && (a != [] || b != [])
    requires ParseExponent(x) == Some(e)
    ensures ParseNumber(a + "." + b + x)
            == Some(Scale((DigitsValue(a) * Pow10(|b|) + DigitsValue(b)) as real, e - |b|))
  {
    var rest := ['.'] + (b + x);
    assert a + "." + b + x == a + rest;
    DecimalStart(a, rest);
    ParseNumberUnsigned(a + rest);
    ReadMantissaDecimal(a, b, x, e);
  }

  /** float() of a run of digits with an exponent part `x`: the digits' value, scaled. */
  lemma NumberOfInteger(a: string, x: string, e: int)
    requires AllDigits(a) && a != []
    requires ParseExponent(x) == Some(e)
    ensures ParseNumber(a + x) == Some(Scale(DigitsValue(a) as real, e))
  {
    assert (a + x)[0] == a[0];
    ReadMantissaDigits(a, x, 0, 0, false, false);
  }

  /** Without an exponent, a run of digits reads as its value. */
  lemma NumberOfDigits(a: string)
    requires AllDigits(a) && a != []
    ensures ParseNumber(a) == Some(DigitsValue(a) as real)
  {
    NumberOfInteger(a, [], 0);
    assert a + [] == a;
    assert Scale(DigitsValue(a) as real, 0) == DigitsValue(a) as real * 1.0;
  }

  lemma SplitFraction(whole: int, fraction: int, p: int)
    requires p >= 1
    ensures (whole * p + fraction) as real / p as real == whole as real + fraction as real / p as real
  {
    assert (whole * p + fraction) as real == whole as real * p as real + fraction as real;
  }

  /** Digits shifted past the point by `n` places: the whole part plus the fraction. */
  lemma ShiftedFraction(whole: int, fraction: int, n: nat)
    ensures Scale((whole * Pow10(n) + fraction) as real, 0 - n)
            == whole as real + fraction as real / Pow10(n) as real
  {
    var p := Pow10(n);
    var w := whole * p + fraction;
    SplitFraction(whole, fraction, p);
    if n == 0 {
      assert p == 1 && Scale(w as real, 0 - n) == w as real * 1.0;
    } else {
      assert Scale(w as real, 0 - n) == w as real / p as real;
    }
  }

  lemma NumberOfDecimalWithoutExponent(a: string, b: string)
    requires AllDigits(a) && AllDigits(b) && (a != [] || b != [])
    ensures ParseNumber(a + "." + b)
            == Some(Scale((DigitsValue(a) * Pow10(|b|) + DigitsValue(b)) as real, 0 - |b|))
  {
    NumberOfDecimal(a, b, [], 0);
    assert a + "." + b + [] == a + "." + b;
  }

  /**
   * Without an exponent, `a.b` reads as the value `whole` of `a` plus the
   * value `fraction` of `b` in fractional places.
   */
  lemma NumberOfFraction(a: string, b: string, whole: nat, fraction: nat)
    requires AllDigits(a) && AllDigits(b) && (a != [] || b != [])
    requires whole == DigitsValue(a) && fraction == DigitsValue(b)
    ensures ParseNumber(a + "." + b) == Some(whole as real + fraction as real / Pow10(|b|) as real)
  {
    NumberOfDecimalWithoutExponent(a, b);
    ShiftedFraction(whole, fraction, |b|);
  }

  lemma NumberOfOneDigit(c: char)
    requires IsDigit(c)
    ensures ParseNumber([c]) == Some(Digit(c) as real)
  {
    assert [c][1..] == [];
    assert ReadMantissa([], Digit(c), 0, false, true) == Some(Digit(c) as real);
  }

  lemma NumberTenAndAHalf()
    ensures ParseNumber("10.5") == Some(10.5)
  {
    var t := "10.5";
    assert t[1..] == "0.5" && t[1..][1..] == ".5" && t[1..][1..][1..] == "5";
    assert "5"[1..] == [];
    assert ReadMantissa([], 105, 1, true, true) == Some(10.5);
  }

  lemma TruncateOfProduct(a: int, b: nat)
    ensures Truncate(a as real * b as real) == a * b
  {
    assert a as real * b as real == (a * b) as real;
  }

  lemma UnpackDigitAndUnit(d: char, u: string)
    requires IsDigit(d) && u in Units
    ensures Unpack([[d], u]) == Ok(Digit(d) * Units[u])
  {
    NumberOfOneDigit(d);
    TruncateOfProduct(Digit(d), Units[u]);
  }

  /** One digit, a space and a unit, as in `4 GB`: the digit's value times the multiplier. */
  lemma ParseSizeOneDigitSpaced(d: char, u: string)
    requires IsDigit(d) && u in Units
    ensures ParseSize([d] + " " + u) == Ok(Digit(d) * Units[u])
  {
    UnitsAreUnitText(u);
    assert IsNumberText([d]);
    TokensOfSpaced([d], u);
    UnpackDigitAndUnit(d, u);
  }

  /** One digit glued to a unit, as in `1MB`: the digit's value times the multiplier. */
  lemma ParseSizeOneDigitGlued(d: char, u: string)
    requires IsDigit(d) && u in Units
    ensures ParseSize([d] + u) == Ok(Digit(d) * Units[u])
  {
    UnitsAreUnitText(u);
    assert IsNumberText([d]);
    TokensOfGlued([d], u);
    UnpackDigitAndUnit(d, u);
  }

  /** The examples of the function's documentation. */
  lemma ParseSizeFourGigabytes()
    ensures ParseSize("4 GB") == Ok(4000000000)
  {
    assert ['4'] + " " + "GB" == "4 GB";
    TokensOfSpaced(['4'], "GB");
    ParseSizeOneDigitSpaced('4', "GB");
  }

  lemma ParseSizeOneMegabyte()
    ensures ParseSize("1MB") == Ok(1000000)
  {
    assert ['1'] + "MB" == "1MB";
    TokensOfGlued(['1'], "MB");
    ParseSizeOneDigitGlued('1', "MB");
  }

  lemma ParseSizeTenAndAHalfKilobytes()
    ensures ParseSize("10.5 KB") == Ok(10500)
  {
    var n := "10.5";
    NumberTenAndAHalf();
    assert IsNumberText(n);
    TokensOfSpaced(n, "KB");
    assert n + " " + "KB" == "10.5 KB";
    ParseSizeOfTokens("10.5 KB", n, "KB", 10.5);
  }

  /** The table's multipliers are 1000 to the power 0, 1, 2, 3 and 4. */
  lemma UnitsAreDecimalPowers()
    ensures Units.Keys == {"B", "KB", "MB", "GB", "TB"}
    ensures Units["B"] == Pow10(0) && Units["KB"] == Pow10(3) && Units["MB"] == Pow10(6)
    ensures Units["GB"] == Pow10(9) && Units["TB"] == Pow10(12)
  {
  }


}
