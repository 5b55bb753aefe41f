/** The entity decoding the document helper applies to every text event
    (`lib/dom/DocHelper.js`, the `ontext` callback): a global replacement of
    `&([^;]+);`, where the entity runs from `&` to the next `;`.

    `amp`, `lt`, `gt` and `quot` are decoded; `#` followed by a number becomes
    the character `String.fromCharCode(Number('0' + rest))`; every other entity
    (unknown names, upper-case names, `#` followed by something that is not a
    number) is replaced by the callback's `undefined` result, which `replace`
    turns into the text `undefined`. */
module EntityDecoding {
  import opened Wrappers
  import opened JsStrings
  import JsNumbers

  /** What an entity the callback does not decode becomes. */
  const Undefined: string := "undefined"

  /** The value of a digit in the given radix (2, 8, 10 or 16), if it is one. */
  function DigitIn(c: char, radix: nat): (d: Option<nat>)
    ensures d.Some? ==> d.value < radix
  {
    if '0' <= c <= '9' && (c as int - '0' as int) < radix then Some(c as int - '0' as int)
    else if radix == 16 && 'a' <= c <= 'f' then Some(c as int - 'a' as int + 10)
    else if radix == 16 && 'A' <= c <= 'F' then Some(c as int - 'A' as int + 10)
    else None
  }

  predicate AllDigitsIn(s: string, radix: nat) {
    forall i :: 0 <= i < |s| ==> DigitIn(s[i], radix).Some?
  }

  /** The value of a run of digits in the given radix. */
  function ParseRadix(s: string, radix: nat): nat
    requires AllDigitsIn(s, radix)
  {
    if |s| == 0 then 0
    else radix * ParseRadix(s[..|s| - 1], radix) + DigitIn(s[|s| - 1], radix).value
  }

  /** Decimal digits are digits in radix 10, with their decimal value. */
  lemma {:induction false} DecimalIsRadixTen(s: string)
    requires forall i :: 0 <= i < |s| ==> IsDigit(s[i])
    ensures AllDigitsIn(s, 10)
    ensures ParseRadix(s, 10) == ParseDecimal(s)
  {
    if |s| > 0 {
      DecimalIsRadixTen(s[..|s| - 1]);
    }
  }

  /** Appending decimal digits shifts the value of the first run left by
      as many decimal places. */
  lemma {:induction false} ParseRadixTenAppend(s: string, t: string)
    requires AllDigitsIn(s, 10) && AllDigitsIn(t, 10)
    ensures AllDigitsIn(s + t, 10)
    ensures ParseRadix(s + t, 10) == JsNumbers.Times10Pow(ParseRadix(s, 10), |t|) + ParseRadix(t, 10)
    decreases |t|
  {
    assert forall i :: 0 <= i < |s + t| ==> (s + t)[i] == if i < |s| then s[i] else t[i - |s|];
    if |t| > 0 {
      var u := t[..|t| - 1];
      assert (s + t)[..|s + t| - 1] == s + u;
      ParseRadixTenAppend(s, u);
    } else {
      assert s + t == s;
    }
  }

  /** A radix prefix letter after the leading `0`: `x`, `b` or `o`, either case. */
  function RadixOfPrefix(c: char): Option<nat> {
    if c == 'x' || c == 'X' then Some(16)
    else if c == 'b' || c == 'B' then Some(2)
    else if c == 'o' || c == 'O' then Some(8)
    else None
  }

  /** The exact value a numeric literal denotes: `numerator / 10^decimals`. */
  datatype ExactValue = ExactValue(numerator: nat, decimals: nat)

  /** The exact value of `Number('0' + rest)` before rounding, `None` for
      `NaN`. Trailing white space is ignored; the accepted forms are decimal
      digits with an optional fraction (`'0' + ''` is `0`, `'0' + '.5'` is
      `0.5`), and `0x`, `0b`, `0o` followed by at least one digit of that
      radix. */
  function NumberAfterZero(rest: string): Option<ExactValue> {
    var t := TrimEnd(rest);
    if DecimalNumber(t).Some? then DecimalNumber(t) else RadixNumber(t)
  }

  /** Decimal digits with an optional point and fraction. */
  function DecimalNumber(t: string): Option<ExactValue> {
    var dot := FirstIndexOf(t, '.');
    var whole := t[..dot];
    var fraction := if dot == |t| then "" else t[dot + 1..];
    if AllDigitsIn(whole, 10) && AllDigitsIn(fraction, 10) then Some(DecimalValue(whole, fraction))
    else None
  }

  /** A radix prefix letter and at least one digit of that radix. */
  function RadixNumber(t: string): Option<ExactValue> {
    if |t| >= 2 && RadixOfPrefix(t[0]).Some? && AllDigitsIn(t[1..], RadixOfPrefix(t[0]).value) then
      Some(ExactValue(ParseRadix(t[1..], RadixOfPrefix(t[0]).value), 0))
    else None
  }

  /** The digits before and after the decimal point, read as one integer
      over ten to the number of digits after the point. */
  function DecimalValue(whole: string, fraction: string): (x: ExactValue)
    requires AllDigitsIn(whole, 10) && AllDigitsIn(fraction, 10)
    ensures x.decimals == |fraction|
    ensures x.numerator >= ParseRadix(fraction, 10)
  {
    ExactValue(JsNumbers.Times10Pow(ParseRadix(whole, 10), |fraction|) + ParseRadix(fraction, 10), |fraction|)
  }

  /** Plain decimal digits are read as the integer they spell. */
  lemma DigitsNumber(rest: string)
    requires forall i :: 0 <= i < |rest| ==> IsDigit(rest[i])
    ensures NumberAfterZero(rest) == Some(ExactValue(ParseDecimal(rest), 0))
  {
    DecimalIsRadixTen(rest);
    assert TrimEnd(rest) == rest by {
      if |rest| > 0 {
        TrimEndKeeps(rest);
      }
    }
    assert DecimalNumber(rest) == Some(DecimalValue(rest, "")) by {
      assert FirstIndexOf(rest, '.') == |rest|;
      assert rest[..|rest|] == rest;
    }
    assert DecimalValue(rest, "") == ExactValue(ParseDecimal(rest), 0);
  }

  /** The double `Number` produces for an exact value. */
  function NumberValue(x: ExactValue): JsNumbers.Double {
    JsNumbers.NearestDouble(x.numerator, JsNumbers.Times10Pow(1, x.decimals))
  }

  /** `String.fromCharCode` on the code unit `ToUint16` gives it. A lone
      surrogate cannot be a Dafny character and is represented by U+FFFD. */
  function FromCharCode(u: nat): (c: char)
    requires u < 0x1_0000
    ensures (u < 0xD800 || u > 0xDFFF) ==> c as int == u
  {
    if u < 0xD800 || u > 0xDFFF then u as char else '\U{FFFD}'
  }

  /** The replacement for one entity (the text between `&` and `;`). */
  function DecodeEntity(entity: string): (r: string)
    ensures entity == "amp" ==> r == "&"
    ensures entity == "lt" ==> r == "<"
    ensures entity == "gt" ==> r == ">"
    ensures entity == "quot" ==> r == "\""
    ensures |entity| > 0 && entity[0] == '#' && NumberAfterZero(entity[1..]).Some? ==>
              r == [FromCharCode(JsNumbers.ToUint16(NumberValue(NumberAfterZero(entity[1..]).value)))]
    ensures entity !in ["amp", "lt", "gt", "quot"]
            && !(|entity| > 0 && entity[0] == '#' && NumberAfterZero(entity[1..]).Some?)
            ==> r == Undefined
  {
    if entity == "amp" then "&"
    else if entity == "lt" then "<"
    else if entity == "gt" then ">"
    else if entity == "quot" then "\""
    else if |entity| > 0 && entity[0] == '#' then
      match NumberAfterZero(entity[1..])
      case Some(x) => [FromCharCode(JsNumbers.ToUint16(NumberValue(x)))]
      case None => Undefined
    else Undefined
  }

  /** `text.replace(/&([^;]+);/g, ...)`: scanning left to right, an `&` with a
      non-empty run of non-`;` characters and then a `;` is replaced; any other
      character is kept. */
  function DecodeEntities(s: string): string
    decreases |s|
  {
    if |s| == 0 then ""
    else if s[0] == '&' then
      var k := FirstIndexOf(s[1..], ';');
      if 0 < k < |s| - 1 then DecodeEntity(s[1..k + 1]) + DecodeEntities(s[k + 2..])
      else "&" + DecodeEntities(s[1..])
    else [s[0]] + DecodeEntities(s[1..])
  }

  /** Text without `&` is left alone. */
  lemma {:induction false} DecodeWithoutAmpersand(s: string)
    requires '&' !in s
    ensures DecodeEntities(s) == s
  {
    if |s| > 0 {
      DecodeWithoutAmpersand(s[1..]);
    }
  }

  /** An entity reference followed by more text decodes as the entity's
      replacement followed by the decoded rest. */
  lemma DecodeEntityReference(entity: string, rest: string)
    requires |entity| > 0 && ';' !in entity
    ensures DecodeEntities("&" + entity + ";" + rest) == DecodeEntity(entity) + DecodeEntities(rest)
  {
    var s := "&" + entity + ";" + rest;
    assert s[1..] == entity + [';'] + rest;
    FirstIndexOfAfter(entity, ';', rest);
    assert s[1..|entity| + 1] == entity;
    assert s[|entity| + 2..] == rest;
  }

  /** The characters the decoder has a name for. */
  predicate IsNamed(c: char) {
    c == '&' || c == '<' || c == '>' || c == '"'
  }

  /** The entity name of a named character. */
  function EntityName(c: char): (e: string)
    requires IsNamed(c)
    ensures |e| > 0 && ';' !in e
    ensures DecodeEntity(e) == [c]
  {
    if c == '&' then "amp" else if c == '<' then "lt" else if c == '>' then "gt" else "quot"
  }

  /** One character as the reference definition writes it. */
  function EscapeChar(c: char): string {
    if IsNamed(c) then "&" + EntityName(c) + ";" else [c]
  }

  /** The reference definition of what decoding undoes: the four named
      characters written as entities, everything else as itself. */
  function Escape(s: string): string {
    if |s| == 0 then "" else EscapeChar(s[0]) + Escape(s[1..])
  }

  lemma DecodeEscapedChar(c: char, rest: string)
    ensures DecodeEntities(EscapeChar(c) + rest) == [c] + DecodeEntities(rest)
  {
    if IsNamed(c) {
      DecodeEntityReference(EntityName(c), rest);
    } else {
      assert (EscapeChar(c) + rest)[1..] == rest;
    }
  }

  /** Decoding undoes escaping, for every text. */
  lemma {:induction false} DecodeEscape(s: string)
    ensures DecodeEntities(Escape(s)) == s
  {
    if |s| > 0 {
      DecodeEscape(s[1..]);
      DecodeEscapedChar(s[0], Escape(s[1..]));
      assert [s[0]] + s[1..] == s;
    }
  }

  /** `#N` with `N` written in decimal is the character with code unit `N`
      modulo 2^16, as long as `N` is at most 2^53 and so is read exactly. */
  lemma DecimalEntity(n: nat, e: string)
    requires e == "#" + NatToString(n)
    requires n <= JsNumbers.TwoTo53
    ensures |e| > 0 && ';' !in e
    ensures DecodeEntity(e) == [FromCharCode(n % 0x1_0000)]
  {
    assert e[1..] == NatToString(n);
    ParseNatToString(n);
    DigitsNumber(e[1..]);
    var d := NumberValue(ExactValue(n, 0));
    assert d == JsNumbers.NearestDouble(n, 1);
    JsNumbers.ExactInteger(n);
    assert e[0] == '#';
    assert DecodeEntity(e) == [FromCharCode(JsNumbers.ToUint16(d))];
  }

  /** `&#N;` with `N` written in decimal, at most 2^53, decodes to the
      character with code unit `N` modulo 2^16. */
  lemma DecimalCharacterReference(n: nat, s: string, rest: string)
    requires s == "&#" + NatToString(n) + ";" + rest
    requires n <= JsNumbers.TwoTo53
    ensures DecodeEntities(s) == [FromCharCode(n % 0x1_0000)] + DecodeEntities(rest)
  {
    var e := "#" + NatToString(n);
    assert s == "&" + e + ";" + rest;
    DecimalEntity(n, e);
    DecodeEntityReference(e, rest);
  }

  /** A decimal number of 2^1024 or more is `Infinity`, which
      `String.fromCharCode` turns into code unit 0. */
  lemma HugeDecimalEntity(n: nat, e: string)
    requires e == "#" + NatToString(n)
    requires n >= JsNumbers.TwoTo53 * JsNumbers.Times2Pow(1, JsNumbers.MaxExponent)
    ensures DecodeEntity(e) == [FromCharCode(0)]
  {
    assert e[1..] == NatToString(n);
    ParseNatToString(n);
    DigitsNumber(e[1..]);
    assert NumberValue(ExactValue(n, 0)) == JsNumbers.Infinity by {
      JsNumbers.Overflow(n, 1);
    }
    assert e[0] == '#';
  }

  /** `#65` names `A`. */
  lemma DecimalEntity65(e: string)
    requires e == "#65"
    ensures DecodeEntity(e) == "A"
  {
    assert 65 % 0x1_0000 == 65;
    assert FromCharCode(65) == 'A';
    assert NatToString(65) == "65";
    DecimalEntity(65, e);
  }

  /** `&#65;` is `A`. */
  lemma DecimalEntityExample(s: string)
    requires s == "&#65;"
    ensures DecodeEntities(s) == "A"
  {
    assert 65 % 0x1_0000 == 65;
    assert FromCharCode(65) == 'A';
    assert NatToString(65) == "65";
    DecimalCharacterReference(65, s, []);
  }

  /** A run of `k` nines. */
  function Nines(k: nat): (s: string)
    ensures |s| == k && forall i :: 0 <= i < k ==> s[i] == '9'
  {
    seq(k, _ => '9')
  }

  /** `k` nines are 10^k - 1. */
  lemma {:induction false} ParseNines(k: nat)
    ensures AllDigitsIn(Nines(k), 10)
    ensures ParseRadix(Nines(k), 10) + 1 == JsNumbers.Times10Pow(1, k)
  {
    if k > 0 {
      assert Nines(k)[..k - 1] == Nines(k - 1);
      ParseNines(k - 1);
    }
  }

  /** Digits, a point and digits: the exact value is the digits without the
      point over ten to the number of digits after it. */
  lemma DecimalFraction(t: string, whole: string, fraction: string)
    requires t == whole + "." + fraction
    requires TrimEnd(t) == t
    requires AllDigitsIn(whole, 10) && AllDigitsIn(fraction, 10)
    ensures NumberAfterZero(t) == Some(DecimalValue(whole, fraction))
  {
    assert '.' !in whole;
    FirstIndexOfAfter(whole, '.', fraction);
    assert t[..|whole|] == whole && t[|whole| + 1..] == fraction;
    assert DecimalNumber(t) == Some(DecimalValue(whole, fraction));
  }

  /** Digits and `k` nines after the point: one below the next integer,
      scaled by 10^k. */
  lemma NinesValue(whole: string, k: nat)
    requires AllDigitsIn(whole, 10)
    ensures AllDigitsIn(Nines(k), 10)
    ensures DecimalValue(whole, Nines(k)) == ExactValue(JsNumbers.Times10Pow(ParseRadix(whole, 10) + 1, k) - 1, k)
  {
    ParseNines(k);
    JsNumbers.Times10PowSum(ParseRadix(whole, 10), 1, k);
  }

  /** `65.` followed by seventeen nines is the exact value
      6599999999999999999 / 10^17. */
  lemma NearlySixtySixNumber(t: string)
    requires t == "65." + Nines(17)
    ensures NumberAfterZero(t) == Some(ExactValue(6599999999999999999, 17))
  {
    assert ParseRadix("65", 10) == 65;
    NinesValue("65", 17);
    assert t[|t| - 1] == '9';
    TrimEndKeeps(t);
    DecimalFraction(t, "65", Nines(17));
    JsNumbers.TenTo17();
    JsNumbers.Times10PowScales(66, 17);
  }

  /** `#65.` followed by seventeen nines names `B`: `Number` rounds the value
      to the double 66. */
  lemma NearlySixtySixEntity(e: string)
    requires e == "#65." + Nines(17)
    ensures DecodeEntity(e) == "B"
  {
    var a: nat, b: nat := 6599999999999999999, 100_000_000_000_000_000;
    assert FromCharCode(66) == 'B';
    assert e[1..] == "65." + Nines(17);
    NearlySixtySixNumber(e[1..]);
    JsNumbers.TenTo17();
    JsNumbers.NearlySixtySix(a, b);
    assert NumberValue(ExactValue(a, 17)) == JsNumbers.NearestDouble(a, b);
  }

  /** `x41` is `Number('0x41')`, 65. */
  lemma HexNumber(t: string)
    requires t == "x41"
    ensures NumberAfterZero(t) == Some(ExactValue(65, 0))
  {
    assert TrimEnd(t) == t;
    assert FirstIndexOf(t, '.') == 3;
    assert !AllDigitsIn(t[..3], 10) by {
      assert DigitIn(t[0], 10).None?;
    }
    assert DecimalNumber(t).None?;
    var digits := t[1..];
    assert ParseRadix(digits, 16) == 65 by {
      assert digits[..1] == "4";
      assert ParseRadix(digits[..1], 16) == 4;
    }
    assert RadixNumber(t) == Some(ExactValue(65, 0));
  }

  /** `#x41` names `A`. */
  lemma HexEntity(e: string)
    requires e == "#x41"
    ensures DecodeEntity(e) == "A"
  {
    assert 65 % 0x1_0000 == 65;
    assert FromCharCode(65) == 'A';
    assert JsNumbers.ToUint16(NumberValue(ExactValue(65, 0))) == 65 by {
      JsNumbers.ExactInteger(65);
    }
    HexNumber(e[1..]);
  }

  /** `&#x41;` is `A` too: the `0` prefix makes the entity hexadecimal. */
  lemma HexEntityExample(s: string)
    requires s == "&#x41;"
    ensures DecodeEntities(s) == "A"
  {
    var e, rest := s[1..5], s[6..];
    assert e == "#x41" && rest == [];
    assert s == "&" + e + ";" + rest;
    HexEntity(e);
    DecodeEntityReference(e, rest);
  }

  /** An unknown name becomes `undefined`. */
  lemma UnknownEntityExample(s: string)
    requires s == "&nbsp;"
    ensures DecodeEntities(s) == Undefined
  {
    var e := "nbsp";
    var rest: string := [];
    DecodeEntityReference(e, rest);
    assert s == "&" + e + ";" + rest;
  }

  /** `&;` is not an entity and stays. */
  lemma EmptyEntityExample(s: string)
    requires s == "&;"
    ensures DecodeEntities(s) == s
  {
    assert FirstIndexOf(s[1..], ';') == 0;
    assert DecodeEntities(s) == "&" + DecodeEntities(s[1..]);
    assert DecodeEntities(s[1..]) == ";" + DecodeEntities(s[2..]);
  }

  /** `#z` is not a number. */
  lemma NonNumericEntity(e: string)
    requires e == "#z"
    ensures DecodeEntity(e) == Undefined
  {
    var t := e[1..];
    assert t == "z";
    assert TrimEnd(t) == t;
    assert FirstIndexOf(t, '.') == 1;
  }

  /** A `#` followed by something that is not a number becomes `undefined`. */
  lemma NonNumericReference(s: string)
    requires s == "&#z;"
    ensures DecodeEntities(s) == Undefined
  {
    var e := "#z";
    var rest: string := [];
    assert s == "&" + e + ";" + rest;
    NonNumericEntity(e);
    DecodeEntityReference(e, rest);
  }
}
