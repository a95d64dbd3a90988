/**
 * JavaScript values as the record-proxy services handle them, and the few
 * built-in operations the translation layer relies on: truthiness and `||`,
 * property reads with optional chaining, `String(v)` / `v.toString()`,
 * `parseInt` without a radix, `String.prototype.split` on one character,
 * `Array.prototype.join` and `String.prototype.trim`.
 *
 * Numbers are unbounded integers plus NaN: fractions, infinities, -0 and the
 * exponent notation of very large numbers are not modelled.
 */
module Js {

  datatype Option<+T> = None | Some(value: T)

  datatype JsValue =
    | Undefined
    | Null
    | Bool(b: bool)
    | Num(n: int)
    | NaN
    | Str(s: string)
    | Arr(elems: seq<JsValue>)
    | Obj(fields: map<string, JsValue>)

  /** The own properties of a plain object (a request body, a record payload). */
  type Fields = map<string, JsValue>

  /** ECMAScript ToBoolean. */
  predicate IsTruthy(v: JsValue) {
    match v
    case Undefined => false
    case Null => false
    case NaN => false
    case Bool(b) => b
    case Num(n) => n != 0
    case Str(s) => s != ""
    case Arr(_) => true
    case Obj(_) => true
  }

  predicate IsNullish(v: JsValue) {
    v.Undefined? || v.Null?
  }

  /** `a || b`: the left operand when it is truthy, else the right one. */
  function Or(a: JsValue, b: JsValue): JsValue {
    if IsTruthy(a) then a else b
  }

  /** `o.key` on a plain object; a missing key reads as undefined. */
  function Get(o: Fields, key: string): JsValue {
    if key in o then o[key] else Undefined
  }

  /**
   * `v?.key`: reading a property through optional chaining. Null and
   * undefined give undefined instead of throwing; strings and arrays have a
   * `length`; no other primitive has the keys the services read.
   */
  function Prop(v: JsValue, key: string): JsValue {
    match v
    case Obj(fields) => Get(fields, key)
    case Str(s) => if key == "length" then Num(|s|) else Undefined
    case Arr(es) => if key == "length" then Num(|es|) else Undefined
    case _ => Undefined
  }

  /** `v > 0` for the values a `length` read produces (numbers and booleans). */
  predicate IsPositive(v: JsValue) {
    (v.Num? && v.n > 0) || (v.Bool? && v.b)
  }

  // ---------------------------------------------------------------------------
  // Number to string

  predicate IsDecimalDigit(c: char) {
    '0' <= c <= '9'
  }

  function DigitChar(d: nat): (c: char)
    requires d < 10
    ensures IsDecimalDigit(c) && DigitValue(c) == d
  {
    ('0' as int + d) as char
  }

  /** The shortest decimal numeral of a natural number. */
  function NatDecimal(n: nat): (s: string)
    ensures |s| > 0
    ensures forall i :: 0 <= i < |s| ==> IsDecimalDigit(s[i])
    decreases n
  {
    if n < 10 then [DigitChar(n)] else NatDecimal(n / 10) + [DigitChar(n % 10)]
  }

  /** `Number.prototype.toString()` for an integer. */
  function Decimal(n: int): string {
    if n < 0 then "-" + NatDecimal(-n) else NatDecimal(n)
  }

  /** ECMAScript ToString. An array is joined with "," (its `toString`). */
  function ToJsString(v: JsValue): string
    decreases v, 1
  {
    match v
    case Undefined => "undefined"
    case Null => "null"
    case Bool(b) => if b then "true" else "false"
    case Num(n) => Decimal(n)
    case NaN => "NaN"
    case Str(s) => s
    case Arr(es) => ArrayJoin(es, ",")
    case Obj(_) => "[object Object]"
  }

  /** `Array.prototype.join(sep)`: null and undefined elements become "". */
  function ArrayJoin(es: seq<JsValue>, sep: string): (r: string)
    ensures |es| == 0 ==> r == ""
    ensures |es| == 1 ==> r == (if IsNullish(es[0]) then "" else ToJsString(es[0]))
    decreases Arr(es), 0
  {
    Join(seq(|es|, i requires 0 <= i < |es| => if IsNullish(es[i]) then "" else ToJsString(es[i])), sep)
  }

  /** The strings joined with `sep` between neighbours. */
  function Join(parts: seq<string>, sep: string): string
    decreases |parts|
  {
    if |parts| == 0 then ""
    else if |parts| == 1 then parts[0]
    else parts[0] + sep + Join(parts[1..], sep)
  }

  // ---------------------------------------------------------------------------
  // parseInt

  /** The JavaScript WhiteSpace and LineTerminator code points. */
  predicate IsWhiteSpace(c: char) {
    || c == '\t' || c == '\n' || c == '\U{000B}' || c == '\U{000C}' || c == '\r'
    || c == ' ' || c == '\U{00A0}' || c == '\U{1680}'
    || ('\U{2000}' <= c <= '\U{200A}')
    || c == '\U{2028}' || c == '\U{2029}' || c == '\U{202F}' || c == '\U{205F}'
    || c == '\U{3000}' || c == '\U{FEFF}'
  }

  /** Drops the leading white space: what is left is a suffix of `s` that starts with no white space. */
  function TrimStart(s: string): (r: string)
    ensures |r| <= |s| && r == s[|s| - |r|..]
    ensures |r| > 0 ==> !IsWhiteSpace(r[0])
    decreases |s|
  {
    if |s| > 0 && IsWhiteSpace(s[0]) then TrimStart(s[1..]) else s
  }

  /** Drops the trailing white space: what is left is a prefix of `s` that ends with no white space. */
  function TrimEnd(s: string): (r: string)
    ensures |r| <= |s| && r == s[..|r|]
    ensures |r| > 0 ==> !IsWhiteSpace(r[|r| - 1])
    decreases |s|
  {
    if |s| > 0 && IsWhiteSpace(s[|s| - 1]) then TrimEnd(s[..|s| - 1]) else s
  }

  /** `String.prototype.trim`. */
  function Trim(s: string): (r: string)
    ensures |r| <= |s|
    ensures |r| > 0 ==> !IsWhiteSpace(r[0]) && !IsWhiteSpace(r[|r| - 1])
  {
    TrimEnd(TrimStart(s))
  }

  predicate IsBlank(s: string) {
    forall i :: 0 <= i < |s| ==> IsWhiteSpace(s[i])
  }

  /** The value of a digit in radix 36 and below; 36 for every other character. */
  function DigitValue(c: char): nat {
    if '0' <= c <= '9' then c as int - '0' as int
    else if 'a' <= c <= 'z' then c as int - 'a' as int + 10
    else if 'A' <= c <= 'Z' then c as int - 'A' as int + 10
    else 36
  }

  /** The longest prefix of `s` made of digits of the radix. */
  function DigitPrefix(s: string, radix: nat): (z: string)
    ensures |z| <= |s| && z == s[..|z|]
    ensures forall i :: 0 <= i < |z| ==> DigitValue(z[i]) < radix
    ensures |z| < |s| ==> DigitValue(s[|z|]) >= radix
    decreases |s|
  {
    if |s| > 0 && DigitValue(s[0]) < radix then [s[0]] + DigitPrefix(s[1..], radix) else ""
  }

  /** The number a numeral denotes, most significant digit first. */
  function DigitsValue(z: string, radix: nat): nat
    decreases |z|
  {
    if |z| == 0 then 0 else DigitsValue(z[..|z| - 1], radix) * radix + DigitValue(z[|z| - 1])
  }

  /**
   * The digits after the sign: hexadecimal after "0x"/"0X", decimal
   * otherwise, up to the first character that is not a digit; None when
   * there is no digit at all.
   */
  function ParseDigits(u: string): Option<nat> {
    var hex := |u| >= 2 && u[0] == '0' && (u[1] == 'x' || u[1] == 'X');
    var radix := if hex then 16 else 10;
    var z := DigitPrefix(if hex then u[2..] else u, radix);
    if |z| == 0 then None else Some(DigitsValue(z, radix))
  }

  /**
   * `parseInt(s)` with no radix: skip leading white space, take an optional
   * sign, then the digits; no digit at all gives NaN.
   */
  function ParseIntString(s: string): (r: JsValue)
    ensures r.Num? || r.NaN?
  {
    var t := TrimStart(s);
    var negative := |t| > 0 && t[0] == '-';
    var u := if |t| > 0 && (t[0] == '-' || t[0] == '+') then t[1..] else t;
    match ParseDigits(u)
    case None => NaN
    case Some(v) => if negative then Num(0 - v) else Num(v)
  }

  /**
   * `parseInt(v)`. The language converts the argument with ToString first;
   * this definition takes each kind of value directly, and
   * ParseIntConvertsFirst proves it equal to that conversion: the numeral of
   * a number parses back to the number, and "undefined", "null", "NaN",
   * "true", "false" and "[object Object]" start with no digit.
   */
  function ParseInt(v: JsValue): (r: JsValue)
    ensures r.Num? || r.NaN?
  {
    match v
    case Num(n) => Num(n)
    case Str(s) => ParseIntString(s)
    case Arr(es) => ParseIntString(ArrayJoin(es, ","))
    case _ => NaN
  }

  // ---------------------------------------------------------------------------
  // Splitting newline-joined text

  /** `s.split(sep)` for a one-character separator; "" splits to [""]. */
  function Split(s: string, sep: char): (parts: seq<string>)
    ensures |parts| > 0
    ensures forall i :: 0 <= i < |parts| ==> sep !in parts[i]
    decreases |s|
  {
    if |s| == 0 then [""]
    else if s[0] == sep then [""] + Split(s[1..], sep)
    else
      var rest := Split(s[1..], sep);
      [[s[0]] + rest[0]] + rest[1..]
  }

  /** `lines.filter(l => l.trim())`: the lines that are not white space only, in order. */
  function NonBlank(lines: seq<string>): (kept: seq<string>)
    ensures |kept| <= |lines|
    ensures forall i :: 0 <= i < |kept| ==> kept[i] in lines && Trim(kept[i]) != ""
    ensures forall i :: 0 <= i < |lines| && Trim(lines[i]) != "" ==> lines[i] in kept
    decreases |lines|
  {
    if |lines| == 0 then []
    else if IsTruthy(Str(Trim(lines[0]))) then [lines[0]] + NonBlank(lines[1..])
    else NonBlank(lines[1..])
  }

  // ---------------------------------------------------------------------------
  // Lemmas

  /** `s.trim()` is truthy exactly when `s` has a character that is not white space. */
  lemma {:induction false} TrimEmptyIffBlank(s: string)
    ensures Trim(s) == "" <==> IsBlank(s)
  {
    TrimStartBlank(s);
    TrimEndBlank(TrimStart(s));
  }

  lemma {:induction false} TrimStartBlank(s: string)
    ensures TrimStart(s) == "" <==> IsBlank(s)
    ensures IsBlank(s) <==> IsBlank(TrimStart(s))
    decreases |s|
  {
    if |s| > 0 && IsWhiteSpace(s[0]) {
      TrimStartBlank(s[1..]);
      assert IsBlank(s) <==> IsBlank(s[1..]) by {
        if IsBlank(s[1..]) {
          forall i | 0 <= i < |s| ensures IsWhiteSpace(s[i]) {
            if i > 0 { assert s[i] == s[1..][i - 1]; }
          }
        }
      }
    }
  }

  lemma {:induction false} TrimEndBlank(s: string)
    ensures TrimEnd(s) == "" <==> IsBlank(s)
    decreases |s|
  {
    if |s| > 0 && IsWhiteSpace(s[|s| - 1]) {
      var p := s[..|s| - 1];
      TrimEndBlank(p);
      assert IsBlank(s) <==> IsBlank(p) by {
        if IsBlank(p) {
          forall i | 0 <= i < |s| ensures IsWhiteSpace(s[i]) {
            if i < |s| - 1 { assert s[i] == p[i]; }
          }
        }
      }
    } else if |s| > 0 {
      assert !IsWhiteSpace(s[|s| - 1]);
    }
  }

  /** The filter keeps every line when none is blank. */
  lemma {:induction false} NonBlankKeepsAll(lines: seq<string>)
    requires forall i :: 0 <= i < |lines| ==> !IsBlank(lines[i])
    ensures NonBlank(lines) == lines
    decreases |lines|
  {
    if |lines| > 0 {
      TrimEmptyIffBlank(lines[0]);
      NonBlankKeepsAll(lines[1..]);
    }
  }

  /** The filter keeps order: filtering a concatenation concatenates the filtered parts. */
  lemma {:induction false} NonBlankAppend(a: seq<string>, b: seq<string>)
    ensures NonBlank(a + b) == NonBlank(a) + NonBlank(b)
    decreases |a|
  {
    if |a| > 0 {
      assert (a + b)[0] == a[0];
      assert (a + b)[1..] == a[1..] + b;
      NonBlankAppend(a[1..], b);
    } else {
      assert a + b == b;
    }
  }

  /** Prefixing a character to the first piece prefixes it to the joined text. */
  lemma {:induction false} JoinConsFirst(c: char, parts: seq<string>, sep: string)
    requires |parts| > 0
    ensures Join([[c] + parts[0]] + parts[1..], sep) == [c] + Join(parts, sep)
  {
    var q := [[c] + parts[0]] + parts[1..];
    assert q[1..] == parts[1..];
  }

  /** Joining with the separator undoes splitting on it. */
  lemma {:induction false} JoinSplit(s: string, sep: char)
    ensures Join(Split(s, sep), [sep]) == s
    decreases |s|
  {
    if |s| > 0 {
      var rest := Split(s[1..], sep);
      JoinSplit(s[1..], sep);
      if s[0] == sep {
        assert Split(s, sep) == [""] + rest;
        assert ([""] + rest)[1..] == rest;
        assert s == [sep] + s[1..];
      } else {
        JoinConsFirst(s[0], rest, [sep]);
        assert s == [s[0]] + s[1..];
      }
    }
  }

  /** Splitting text that starts with a separator-free piece `a`. */
  lemma {:induction false} SplitAfterPiece(a: string, t: string, sep: char)
    requires sep !in a
    ensures Split(a + t, sep) == [a + Split(t, sep)[0]] + Split(t, sep)[1..]
    decreases |a|
  {
    if |a| == 0 {
      var parts := Split(t, sep);
      assert a + t == t && a + parts[0] == parts[0];
      assert parts == [parts[0]] + parts[1..];
    } else {
      assert (a + t)[0] == a[0];
      assert (a + t)[1..] == a[1..] + t;
      SplitAfterPiece(a[1..], t, sep);
      assert [a[0]] + (a[1..] + Split(t, sep)[0]) == a + Split(t, sep)[0];
    }
  }

  /** Splitting on the separator undoes joining with it. */
  lemma {:induction false} SplitJoin(parts: seq<string>, sep: char)
    requires |parts| > 0
    requires forall i :: 0 <= i < |parts| ==> sep !in parts[i]
    ensures Split(Join(parts, [sep]), sep) == parts
    decreases |parts|
  {
    if |parts| == 1 {
      SplitAfterPiece(parts[0], "", sep);
      assert parts[0] + "" == parts[0];
    } else {
      var rest := Join(parts[1..], [sep]);
      assert Join(parts, [sep]) == parts[0] + ([sep] + rest);
      SplitAfterPiece(parts[0], [sep] + rest, sep);
      assert ([sep] + rest)[1..] == rest;
      SplitJoin(parts[1..], sep);
      assert Split([sep] + rest, sep) == [""] + parts[1..];
      assert parts[0] + "" == parts[0];
    }
  }

  lemma {:induction false} DigitPrefixAll(s: string, radix: nat)
    requires forall i :: 0 <= i < |s| ==> DigitValue(s[i]) < radix
    ensures DigitPrefix(s, radix) == s
    decreases |s|
  {
    if |s| > 0 {
      DigitPrefixAll(s[1..], radix);
    }
  }

  lemma {:induction false} NatDecimalValue(n: nat)
    ensures DigitsValue(NatDecimal(n), 10) == n
    decreases n
  {
    if n >= 10 {
      var p := NatDecimal(n / 10);
      var s := p + [DigitChar(n % 10)];
      assert s[..|s| - 1] == p;
      NatDecimalValue(n / 10);
    }
  }

  lemma DecimalDigits(digits: string)
    requires |digits| > 0
    requires forall i :: 0 <= i < |digits| ==> IsDecimalDigit(digits[i])
    ensures ParseDigits(digits) == Some(DigitsValue(digits, 10))
  {
    assert !(|digits| >= 2 && digits[0] == '0' && (digits[1] == 'x' || digits[1] == 'X')) by {
      if |digits| >= 2 {
        assert IsDecimalDigit(digits[1]);
      }
    }
    assert forall i :: 0 <= i < |digits| ==> DigitValue(digits[i]) < 10 by {
      forall i | 0 <= i < |digits|
        ensures DigitValue(digits[i]) < 10
      {
        assert IsDecimalDigit(digits[i]);
      }
    }
    DigitPrefixAll(digits, 10);
  }

  /** `parseInt(n.toString())` gives back `n` for every integer. */
  lemma {:induction false} ParseIntDecimal(n: int)
    ensures ParseIntString(Decimal(n)) == Num(n)
  {
    var m: nat := if n < 0 then -n else n;
    var digits := NatDecimal(m);
    DecimalDigits(digits);
    NatDecimalValue(m);
    var s := Decimal(n);
    assert !IsWhiteSpace(s[0]);
    assert TrimStart(s) == s;
    if n < 0 {
      assert s[0] == '-' && s[1..] == digits;
    } else {
      assert s == digits && s[0] != '-' && s[0] != '+';
    }
  }

  /** Hence `parseInt` of the numeral of a number is that number. */
  lemma ParseIntOfNumber(n: int)
    ensures ParseInt(Str(Decimal(n))) == Num(n)
  {
    ParseIntDecimal(n);
  }

  /** Text that starts with neither white space, a sign nor a decimal digit parses to NaN. */
  lemma NoLeadingDigit(s: string)
    requires |s| > 0 && !IsWhiteSpace(s[0]) && s[0] != '-' && s[0] != '+' && DigitValue(s[0]) >= 10
    ensures ParseIntString(s) == NaN
  {
    assert TrimStart(s) == s;
    assert DigitPrefix(s, 10) == "";
  }

  /** `parseInt` agrees with parsing the argument's ToString. */
  lemma ParseIntConvertsFirst(v: JsValue)
    ensures ParseInt(v) == ParseIntString(ToJsString(v))
  {
    match v
    case Num(n) => ParseIntDecimal(n);
    case Str(_) =>
    case Arr(_) =>
    case _ =>
      var text := ToJsString(v);
      assert text[0] in {'u', 'n', 'N', 't', 'f', '['};
      NoLeadingDigit(text);
  }
}
