/**
 * The parts of the Kotlin standard library that the Tello client relies on, stated as
 * functions: fixed-width integers, `Int.toString()`, `String.toIntOrNull()` / `toByteOrNull()`,
 * `String.split(c)`, `String.split(c, limit = 2)` and `startsWith`.
 */
module KotlinText {
  import opened Wrappers

  newtype int8 = x: int | -0x80 <= x < 0x80
  newtype int16 = x: int | -0x8000 <= x < 0x8000
  newtype int32 = x: int | -0x8000_0000 <= x < 0x8000_0000

  const INT32_MIN: int := -0x8000_0000
  const INT32_MAX: int := 0x7FFF_FFFF

  predicate InInt32(x: int) { INT32_MIN <= x <= INT32_MAX }

  /** Two's-complement wrap-around, as Kotlin `Int` arithmetic does it. */
  function Wrap32(x: int): (r: int32)
    ensures (r as int - x) % 0x1_0000_0000 == 0
    ensures InInt32(x) ==> r as int == x
  {
    var m := x % 0x1_0000_0000;
    (if m < 0x8000_0000 then m else m - 0x1_0000_0000) as int32
  }

  /** Unary minus on a Kotlin `Int`: `-Int.MIN_VALUE` wraps back to `Int.MIN_VALUE`. */
  function Negate32(x: int32): (r: int32)
    ensures x as int != INT32_MIN ==> r as int == -(x as int)
    ensures x as int == INT32_MIN ==> r == x
  {
    Wrap32(-(x as int))
  }

  // ---------------------------------------------------------------- decimal digits

  predicate IsDigit(c: char) { '0' <= c <= '9' }

  predicate AllDigits(s: string) { forall i :: 0 <= i < |s| ==> IsDigit(s[i]) }

  function DigitValue(c: char): nat
    requires IsDigit(c)
  {
    c as int - '0' as int
  }

  function DigitChar(d: nat): (c: char)
    requires d < 10
    ensures IsDigit(c) && DigitValue(c) == d
  {
    (d + '0' as int) as char
  }

  /** The value of a string of decimal digits, most significant first. */
  function DigitsValue(s: string): nat
    requires AllDigits(s)
    decreases |s|
  {
    if s == [] then 0 else DigitsValue(s[..|s| - 1]) * 10 + DigitValue(s[|s| - 1])
  }

  /** The shortest decimal spelling of `n`: no leading zero except in `"0"` itself. */
  function NatToDecimal(n: nat): (s: string)
    ensures |s| >= 1 && AllDigits(s)
    ensures DigitsValue(s) == n
    ensures |s| == 1 || s[0] != '0'
    decreases n
  {
    var prefix := if n < 10 then [] else NatToDecimal(n / 10);
    var s := prefix + [DigitChar(n % 10)];
    assert AllDigits(s) && DigitsValue(s) == n by {
      assert s[..|s| - 1] == prefix;
    }
    assert |s| == 1 || s[0] != '0' by {
      if |prefix| == 1 {
        assert prefix[..0] == [];
      }
    }
    s
  }

  /** Kotlin `Int.toString()`: a minus sign for negative values, then the magnitude. */
  function IntToString(n: int32): (s: string)
    ensures |s| >= 1
    ensures n >= 0 ==> AllDigits(s) && DigitsValue(s) == n as int
    ensures n < 0 ==> s[0] == '-' && AllDigits(s[1..]) && DigitsValue(s[1..]) == -(n as int)
    ensures n >= 0 ==> |s| == 1 || s[0] != '0'
    ensures n < 0 ==> |s| >= 2 && s[1] != '0'
  {
    if n < 0 then
      var m := NatToDecimal(-(n as int));
      assert m[0] != '0';
      "-" + m
    else NatToDecimal(n as int)
  }

  /** A printed `Int` holds decimal digits and, in front, possibly a minus sign: no other character. */
  lemma IntToStringChars(n: int32, c: char)
    requires !IsDigit(c) && c != '-'
    ensures c !in IntToString(n)
  {
    var t := IntToString(n);
    if n < 0 {
      forall i | 1 <= i < |t| ensures t[i] != c {
        assert t[i] == t[1..][i - 1];
      }
    }
  }

  /**
   * Kotlin `String.toIntOrNull()` in radix 10: an optional `+` or `-`, then at least one
   * decimal digit, and a value that fits an `Int`; anything else gives `None`
   * (where `toInt()` throws `NumberFormatException`).
   */
  function ParseInt(s: string): (r: Option<int32>)
    ensures r.Some? ==> |s| >= 1 && s != "-" && s != "+"
    ensures s != [] && AllDigits(s) ==>
      r == if DigitsValue(s) <= INT32_MAX then Some(DigitsValue(s) as int32) else None
    ensures |s| >= 2 && s[0] == '+' && AllDigits(s[1..]) ==>
      r == if DigitsValue(s[1..]) <= INT32_MAX then Some(DigitsValue(s[1..]) as int32) else None
    ensures |s| >= 2 && s[0] == '-' && AllDigits(s[1..]) ==>
      r == if DigitsValue(s[1..]) <= -INT32_MIN then Some((-(DigitsValue(s[1..]) as int)) as int32) else None
  {
    if |s| == 0 then None
    else
      var negative := s[0] == '-';
      var digits := if s[0] == '-' || s[0] == '+' then s[1..] else s;
      if |digits| == 0 || !AllDigits(digits) then None
      else
        var v: int := if negative then -(DigitsValue(digits) as int) else DigitsValue(digits);
        if InInt32(v) then Some(v as int32) else None
  }

  /**
   * A character other than a digit, after the optional sign, makes the text no number
   * (`"abc"`, `"1:2"`, `"--1"`, `"1.5"`).
   */
  lemma NonDigitIsNoNumber(s: string, i: nat)
    requires i < |s| && !IsDigit(s[i])
    requires i > 0 || (s[0] != '-' && s[0] != '+')
    ensures ParseInt(s).None?
  {
    if i > 0 && (s[0] == '-' || s[0] == '+') {
      assert s[1..][i - 1] == s[i];
    }
  }

  /** Kotlin `String.toByteOrNull()`: `toIntOrNull()` followed by a range check. */
  function ParseByte(s: string): Option<int8>
  {
    match ParseInt(s)
    case None => None
    case Some(v) => if -0x80 <= v as int < 0x80 then Some(v as int8) else None
  }

  /** Every `Int` survives printing and parsing back. */
  lemma {:induction false} ParseIntToString(n: int32)
    ensures ParseInt(IntToString(n)) == Some(n)
  {
    var s := IntToString(n);
    if n < 0 {
      assert s[0] == '-';
    } else {
      assert IsDigit(s[0]);
    }
  }

  /** A printed `Int` reads back as a `Byte` exactly when it lies in -128..127. */
  lemma ParseByteOfInt(n: int32)
    ensures ParseByte(IntToString(n)) == if -0x80 <= n as int < 0x80 then Some(n as int8) else None
  {
    ParseIntToString(n);
  }

  // ---------------------------------------------------------------- splitting

  predicate StartsWith(s: string, prefix: string)
  {
    |prefix| <= |s| && s[..|prefix|] == prefix
  }

  /** The inverse of `Split`: the parts with the separator between each two. */
  function Join(parts: seq<string>, sep: char): string
    requires |parts| >= 1
    decreases |parts|
  {
    if |parts| == 1 then parts[0] else parts[0] + [sep] + Join(parts[1..], sep)
  }

  /**
   * Kotlin `s.split(sep)`: the maximal runs between separators, so `n` separators give `n + 1`
   * parts, some of them possibly empty (`"".split(';') == [""]`, `"a;".split(';') == ["a", ""]`).
   */
  function Split(s: string, sep: char): (parts: seq<string>)
    ensures |parts| >= 1
    ensures forall i :: 0 <= i < |parts| ==> sep !in parts[i]
    ensures Join(parts, sep) == s
    decreases |s|
  {
    if |s| == 0 then [""]
    else
      var rest := Split(s[1..], sep);
      if s[0] == sep then
        var parts := [""] + rest;
        assert parts[1..] == rest;
        parts
      else
        var parts := [[s[0]] + rest[0]] + rest[1..];
        assert |rest| > 1 ==> Join(rest, sep) == rest[0] + [sep] + Join(rest[1..], sep);
        assert |parts| > 1 ==> parts[1..] == rest[1..];
        parts
  }

  /** Splitting undoes joining parts that do not contain the separator. */
  lemma {:induction false} SplitJoin(parts: seq<string>, sep: char)
    requires |parts| >= 1
    requires forall i :: 0 <= i < |parts| ==> sep !in parts[i]
    ensures Split(Join(parts, sep), sep) == parts
    decreases |parts|, |parts[0]|
  {
    var s := Join(parts, sep);
    if |parts[0]| == 0 {
      if |parts| == 1 {
        assert s == "";
      } else {
        assert s == [sep] + Join(parts[1..], sep);
        assert s[1..] == Join(parts[1..], sep);
        SplitJoin(parts[1..], sep);
      }
    } else {
      var c := parts[0][0];
      var tail := [parts[0][1..]] + parts[1..];
      assert tail[1..] == parts[1..];
      assert s[0] == c;
      if |parts| == 1 {
        assert s[1..] == Join(tail, sep);
      } else {
        assert s == [c] + (parts[0][1..] + [sep] + Join(parts[1..], sep));
        assert s[1..] == Join(tail, sep);
      }
      SplitJoin(tail, sep);
      assert [parts[0][0]] + parts[0][1..] == parts[0];
    }
  }

  /**
   * Kotlin `s.split(sep, limit = 2)`: the text before the first separator and, when there is a
   * separator, everything after it (which may itself contain the separator).
   */
  function SplitFirst(s: string, sep: char): (kv: seq<string>)
    ensures 1 <= |kv| <= 2
    ensures sep !in kv[0]
    ensures |kv| == 1 <==> sep !in s
    ensures |kv| == 1 ==> kv[0] == s
    ensures |kv| == 2 ==> kv[0] + [sep] + kv[1] == s
    decreases |s|
  {
    if |s| == 0 then [s]
    else if s[0] == sep then ["", s[1..]]
    else
      var rest := SplitFirst(s[1..], sep);
      assert s == [s[0]] + s[1..];
      [[s[0]] + rest[0]] + rest[1..]
  }

  /** Whatever follows the first separator is the value, wherever later separators fall. */
  lemma {:induction false} SplitFirstOf(key: string, sep: char, value: string)
    requires sep !in key
    ensures SplitFirst(key + [sep] + value, sep) == [key, value]
    decreases |key|
  {
    var s := key + [sep] + value;
    if key != [] {
      assert s[1..] == key[1..] + [sep] + value;
      SplitFirstOf(key[1..], sep, value);
      assert [key[0]] + key[1..] == key;
    } else {
      assert s[1..] == value;
    }
  }
}
