/**
 * The parts of Python's `str` and `int` that the system relies on:
 * `strip()`, `lower()`, `isdigit()`, substring `in`, `str(n)` and `int(s)`.
 */
module Text {
  import opened Wrappers

  /** Python's `str.isspace()` for one character: the Unicode whitespace characters. */
  predicate IsSpace(c: char)
  {
    var n := c as int;
    (9 <= n <= 13) || (28 <= n <= 32) || n == 133 || n == 160 || n == 5760
    || (8192 <= n <= 8202) || n == 8232 || n == 8233 || n == 8239 || n == 8287 || n == 12288
  }

  /** `lstrip()`: drops the leading whitespace and nothing else. */
  function TrimLeft(s: string): (r: string)
    ensures |r| <= |s| && r == s[|s| - |r|..]
    ensures forall k :: 0 <= k < |s| - |r| ==> IsSpace(s[k])
    ensures r != [] ==> !IsSpace(r[0])
  {
    if s != [] && IsSpace(s[0]) then TrimLeft(s[1..]) else s
  }

  /** `rstrip()`: drops the trailing whitespace and nothing else. */
  function TrimRight(s: string): (r: string)
    ensures |r| <= |s| && r == s[..|r|]
    ensures forall k :: |r| <= k < |s| ==> IsSpace(s[k])
    ensures r != [] ==> !IsSpace(r[|r| - 1])
  {
    if s != [] && IsSpace(s[|s| - 1]) then TrimRight(s[..|s| - 1]) else s
  }

  /** `strip()` */
  function Strip(s: string): string
  {
    TrimRight(TrimLeft(s))
  }

  /** What `strip()` leaves is a slice of the input with no whitespace at either end. */
  lemma StripShape(s: string)
    ensures var r := Strip(s);
      |r| <= |s|
      && (r != [] ==> !IsSpace(r[0]) && !IsSpace(r[|r| - 1]))
      && r == s[|s| - |TrimLeft(s)|..][..|r|]
  {
  }

  /** Stripping is blank exactly when every character is whitespace. */
  lemma StripEmptyIff(s: string)
    ensures Strip(s) == "" <==> forall k :: 0 <= k < |s| ==> IsSpace(s[k])
  {
    var l := TrimLeft(s);
    if Strip(s) == "" {
      assert l == [];
    } else if l != [] {
      assert !IsSpace(s[|s| - |l|]);
    }
  }

  /** `strip()` is idempotent. */
  lemma {:induction false} StripIdempotent(s: string)
    ensures Strip(Strip(s)) == Strip(s)
  {
    var r := Strip(s);
    StripShape(s);
    assert TrimLeft(r) == r;
    assert TrimRight(r) == r;
  }

  /** One character of `lower()`: ASCII and Latin-1 capitals; everything else is kept. */
  function LowerChar(c: char): char
  {
    var n := c as int;
    if 65 <= n <= 90 || (192 <= n <= 222 && n != 215) then (n + 32) as char else c
  }

  /** `lower()`, character by character. */
  function Lower(s: string): (r: string)
    ensures |r| == |s| && forall k :: 0 <= k < |s| ==> r[k] == LowerChar(s[k])
  {
    seq(|s|, k requires 0 <= k < |s| => LowerChar(s[k]))
  }

  lemma LowerIdempotent(s: string)
    ensures Lower(Lower(s)) == Lower(s)
  {
  }

  lemma LowerAppend(a: string, b: string)
    ensures Lower(a + b) == Lower(a) + Lower(b)
  {
  }

  /** Lowering never turns whitespace into text or text into whitespace. */
  lemma LowerKeepsSpace(c: char)
    ensures IsSpace(LowerChar(c)) <==> IsSpace(c)
  {
  }

  lemma {:induction false} TrimLeftLower(s: string)
    ensures TrimLeft(Lower(s)) == Lower(TrimLeft(s))
    decreases |s|
  {
    if s != [] {
      LowerKeepsSpace(s[0]);
      if IsSpace(s[0]) {
        assert Lower(s)[1..] == Lower(s[1..]);
        TrimLeftLower(s[1..]);
      }
    }
  }

  lemma {:induction false} TrimRightLower(s: string)
    ensures TrimRight(Lower(s)) == Lower(TrimRight(s))
    decreases |s|
  {
    if s != [] {
      LowerKeepsSpace(s[|s| - 1]);
      if IsSpace(s[|s| - 1]) {
        assert Lower(s)[..|s| - 1] == Lower(s[..|s| - 1]);
        TrimRightLower(s[..|s| - 1]);
      }
    }
  }

  /** `s.lower().strip() == s.strip().lower()` */
  lemma StripLower(s: string)
    ensures Strip(Lower(s)) == Lower(Strip(s))
  {
    TrimLeftLower(s);
    TrimRightLower(TrimLeft(s));
  }

  predicate IsDigit(c: char)
  {
    '0' <= c <= '9'
  }

  /** `isdigit()` on ASCII text: non-empty and made of digits only. */
  predicate IsDigits(s: string)
  {
    |s| > 0 && forall k :: 0 <= k < |s| ==> IsDigit(s[k])
  }

  function DigitValue(c: char): nat
    requires IsDigit(c)
  {
    c as int - '0' as int
  }

  /** The number a run of decimal digits denotes. */
  function DigitsValue(s: string): nat
    requires forall k :: 0 <= k < |s| ==> IsDigit(s[k])
  {
    if s == [] then 0 else DigitsValue(s[..|s| - 1]) * 10 + DigitValue(s[|s| - 1])
  }

  /** A digit run denotes a positive number exactly when one of its digits is not zero. */
  lemma {:induction false} DigitsPositiveIff(s: string)
    requires forall k :: 0 <= k < |s| ==> IsDigit(s[k])
    ensures DigitsValue(s) > 0 <==> exists k :: 0 <= k < |s| && s[k] != '0'
    decreases |s|
  {
    if s != [] {
      var p := s[..|s| - 1];
      DigitsPositiveIff(p);
      if DigitsValue(s) > 0 {
        if DigitValue(s[|s| - 1]) == 0 {
          var k :| 0 <= k < |p| && p[k] != '0';
          assert s[k] == p[k];
        }
      } else {
        assert DigitsValue(p) == 0;
        forall k | 0 <= k < |s| ensures s[k] == '0' {
          if k < |p| {
            assert p[k] == s[k];
          }
        }
      }
    }
  }

  /** Python's `in` on strings: `needle` occurs in `hay` as a contiguous piece. */
  predicate Contains(hay: string, needle: string)
    decreases |hay|
  {
    needle <= hay || (hay != [] && Contains(hay[1..], needle))
  }

  /** The empty string occurs in every string. */
  lemma ContainsEmpty(hay: string)
    ensures Contains(hay, "")
  {
  }

  /** `needle` occurs in `hay` starting at position `i`. */
  predicate OccursAt(hay: string, needle: string, i: int)
  {
    0 <= i <= |hay| - |needle| && hay[i..i + |needle|] == needle
  }

  /** `in` means there is a position where `needle` starts. */
  lemma {:induction false} ContainsIff(hay: string, needle: string)
    ensures Contains(hay, needle) <==> exists i :: OccursAt(hay, needle, i)
    decreases |hay|
  {
    if needle <= hay {
      assert OccursAt(hay, needle, 0);
    }
    if hay != [] {
      ContainsIff(hay[1..], needle);
      if Contains(hay[1..], needle) {
        var i :| OccursAt(hay[1..], needle, i);
        assert hay[i + 1..i + 1 + |needle|] == hay[1..][i..i + |needle|];
        assert OccursAt(hay, needle, i + 1);
      }
    }
    forall i | OccursAt(hay, needle, i) ensures Contains(hay, needle) {
      if i == 0 {
        assert needle <= hay;
      } else {
        assert hay[1..][i - 1..i - 1 + |needle|] == hay[i..i + |needle|];
        assert OccursAt(hay[1..], needle, i - 1);
      }
    }
  }

  function DigitChar(d: nat): (c: char)
    requires d < 10
    ensures IsDigit(c) && DigitValue(c) == d
  {
    ('0' as int + d) as char
  }

  /** Decimal notation of a natural number, without leading zeros. */
  function NatToString(n: nat): (r: string)
    ensures IsDigits(r)
    ensures DigitsValue(r) == n
    ensures r[0] == '0' ==> n == 0
  {
    if n < 10 then [DigitChar(n)]
    else
      var p := NatToString(n / 10);
      assert (p + [DigitChar(n % 10)])[..|p|] == p;
      p + [DigitChar(n % 10)]
  }

  /** `str(n)` for an int. */
  function IntToString(n: int): string
  {
    if n < 0 then "-" + NatToString(-n) else NatToString(n)
  }

  /** An optional sign followed by ASCII digits, with nothing before or after them. */
  function SignedDigits(t: string): Option<int>
  {
    if t != [] && (t[0] == '+' || t[0] == '-') then
      if IsDigits(t[1..]) then
        var v: int := DigitsValue(t[1..]);
        Some(if t[0] == '-' then -v else v)
      else None
    else if IsDigits(t) then Some(DigitsValue(t))
    else None
  }

  /** `int(s)` for a str: surrounding whitespace, an optional sign, then ASCII digits. */
  function ParseInt(s: string): Option<int>
  {
    SignedDigits(Strip(s))
  }

  /** `int` accepts only an optional sign followed by digits, once whitespace is stripped. */
  lemma ParseIntShape(s: string)
    ensures ParseInt(s).Some? <==>
      var t := Strip(s);
      IsDigits(t) || (t != [] && (t[0] == '+' || t[0] == '-') && IsDigits(t[1..]))
  {
  }

  lemma NoSpaceStrip(s: string)
    requires forall k :: 0 <= k < |s| ==> !IsSpace(s[k])
    ensures Strip(s) == s
  {
    if s != [] {
      assert !IsSpace(s[0]);
      assert !IsSpace(s[|s| - 1]);
    }
  }

  lemma DigitsHaveNoSpace(d: string)
    requires IsDigits(d)
    ensures forall k :: 0 <= k < |d| ==> !IsSpace(d[k])
  {
  }

  lemma SignedHasNoSpace(d: string)
    requires IsDigits(d)
    ensures forall k :: 0 <= k < |"-" + d| ==> !IsSpace(("-" + d)[k])
  {
    var s := "-" + d;
    forall k | 0 <= k < |s| ensures !IsSpace(s[k]) {
      if k > 0 { assert s[k] == d[k - 1]; }
    }
  }

  /** The decimal text of an integer reads back as that integer. */
  lemma SignedDigitsToString(n: int)
    ensures SignedDigits(IntToString(n)) == Some(n)
  {
    if n < 0 {
      assert IntToString(n)[1..] == NatToString(-n);
    }
  }

  /** `int(str(n)) == n` */
  lemma ParseIntToString(n: int)
    ensures ParseInt(IntToString(n)) == Some(n)
  {
    var s := IntToString(n);
    if n < 0 {
      var d := NatToString(-n);
      SignedHasNoSpace(d);
    } else {
      DigitsHaveNoSpace(s);
    }
    NoSpaceStrip(s);
    SignedDigitsToString(n);
  }

  lemma IntToStringInjective(m: int, n: int)
    ensures IntToString(m) == IntToString(n) <==> m == n
  {
    if IntToString(m) == IntToString(n) {
      ParseIntToString(m);
      ParseIntToString(n);
    }
  }
  /** The position of the first '.' in `t`, or `|t|` when there is none. */
  function DotIndex(t: string): (k: nat)
    ensures k <= |t| && (k < |t| ==> t[k] == '.')
    ensures forall j :: 0 <= j < k ==> t[j] != '.'
    decreases |t|
  {
    if t == [] || t[0] == '.' then 0 else 1 + DotIndex(t[1..])
  }

  /** `float(s)` on the texts that denote a whole number in positional notation:
      surrounding whitespace, an optional sign and ASCII digits, optionally followed by a
      point and zeros only. */
  function ParseWholeFloat(s: string): Option<int>
  {
    PointZeros(Strip(s))
  }

  /** A signed digit run, optionally followed by a point and zeros only, with nothing
      before or after. */
  function PointZeros(t: string): Option<int>
  {
    var k := DotIndex(t);
    if forall j :: k < j < |t| ==> t[j] == '0' then SignedDigits(t[..k]) else None
  }

  /** `str(float(n))` for a whole number n: its decimal text followed by ".0". */
  function FloatToString(n: int): string
  {
    IntToString(n) + ".0"
  }

  /** The decimal text of an integer holds only digits and a leading minus sign. */
  lemma IntToStringChars(n: int)
    ensures forall k :: 0 <= k < |IntToString(n)| ==> IsDigit(IntToString(n)[k]) || IntToString(n)[k] == '-'
  {
    if n < 0 {
      var d := NatToString(-n);
      forall k | 0 <= k < |IntToString(n)|
        ensures IsDigit(IntToString(n)[k]) || IntToString(n)[k] == '-'
      {
        if k > 0 { assert IntToString(n)[k] == d[k - 1]; }
      }
    }
  }

  /** The first point of `d + rest` is the first cell of `rest` when `d` has none. */
  lemma DotAfter(d: string, rest: string)
    requires forall k :: 0 <= k < |d| ==> d[k] != '.'
    requires rest != [] && rest[0] == '.'
    ensures DotIndex(d + rest) == |d|
  {
    var s := d + rest;
    var k := DotIndex(s);
    assert s[|d|] == '.';
    assert forall j :: 0 <= j < |d| ==> s[j] == d[j];
  }

  /** A text of digits and minus signs followed by ".0" strips to itself. */
  lemma PointZeroStrips(d: string)
    requires forall k :: 0 <= k < |d| ==> IsDigit(d[k]) || d[k] == '-'
    ensures Strip(d + ".0") == d + ".0"
  {
    var s := d + ".0";
    forall k | 0 <= k < |s| ensures !IsSpace(s[k]) {
      if k < |d| { assert s[k] == d[k]; }
    }
    NoSpaceStrip(s);
  }

  /** A signed digit run followed by ".0" is a whole float text with the run's value. */
  lemma PointZeroValue(d: string, v: int)
    requires forall k :: 0 <= k < |d| ==> d[k] != '.'
    requires SignedDigits(d) == Some(v)
    ensures PointZeros(d + ".0") == Some(v)
  {
    var s := d + ".0";
    DotAfter(d, ".0");
    assert s[..|d|] == d;
    assert s[|d| + 1] == '0';
  }

  /** The text `str(float(n))` has no surrounding whitespace to strip. */
  lemma FloatToStringStrips(n: int)
    ensures Strip(IntToString(n) + ".0") == IntToString(n) + ".0"
  {
    IntToStringChars(n);
    PointZeroStrips(IntToString(n));
  }

  /** The text `str(float(n))` is n's digits followed by a point and a zero. */
  lemma FloatToStringPointZeros(n: int)
    ensures PointZeros(IntToString(n) + ".0") == Some(n)
  {
    IntToStringChars(n);
    SignedDigitsToString(n);
    PointZeroValue(IntToString(n), n);
  }

  /** `float(str(float(n))) == n` for every whole number n. */
  lemma ParseWholeFloatToString(n: int)
    ensures ParseWholeFloat(FloatToString(n)) == Some(n)
  {
    FloatToStringStrips(n);
    FloatToStringPointZeros(n);
  }

  /** `float()` accepts every text `int()` accepts, with the same value. */
  lemma ParseWholeFloatOfInt(s: string)
    requires ParseInt(s).Some?
    ensures ParseWholeFloat(s) == ParseInt(s)
  {
    var t := Strip(s);
    assert forall j :: 0 <= j < |t| ==> t[j] != '.' by {
      if t != [] && (t[0] == '+' || t[0] == '-') {
        assert forall j :: 1 <= j < |t| ==> t[j] == t[1..][j - 1];
      }
    }
    assert t[..DotIndex(t)] == t;
  }
}
