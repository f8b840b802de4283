/**
 * Field validation and parsing helpers used by the console layer before it
 * calls into the stores. All of them are pure predicates and parsers over text;
 * `None` stands for a missing value.
 */
module Validator {
  import opened Wrappers
  import opened Text

  /** True for a present value that is not blank once stripped. */
  predicate IsNonEmptyString(value: Option<string>)
  {
    value.Some? && Strip(value.value) != ""
  }

  /** "non-blank after strip" means: some character is not whitespace. */
  lemma NonEmptyStringIff(value: Option<string>)
    ensures IsNonEmptyString(value)
      <==> value.Some? && exists k :: 0 <= k < |value.value| && !IsSpace(value.value[k])
  {
    if value.Some? {
      StripEmptyIff(value.value);
    }
  }

  /** `None` becomes the empty string, anything else its stripped form. */
  function CleanString(value: Option<string>): string
  {
    if value.None? then "" else Strip(value.value)
  }

  /** Cleaning a cleaned value changes nothing. */
  lemma CleanStringIdempotent(value: Option<string>)
    ensures CleanString(Some(CleanString(value))) == CleanString(value)
  {
    if value.Some? {
      StripIdempotent(value.value);
    }
  }

  /** A cleaned value never starts or ends with whitespace and is blank only for blank input. */
  lemma CleanStringShape(value: Option<string>)
    ensures var c := CleanString(value);
      (c != "" ==> !IsSpace(c[0]) && !IsSpace(c[|c| - 1]))
      && (c == "" <==> !IsNonEmptyString(value))
  {
    if value.Some? {
      StripShape(value.value);
    }
  }

  /** The default bounds of `is_valid_name`. */
  const DefaultMinLen := 1
  const DefaultMaxLen := 100

  /** The character class of the name pattern: letters (with the Spanish accented ones),
      digits, whitespace, `-`, `.`, `_` and `'`. */
  predicate IsNameChar(c: char)
  {
    ('A' <= c <= 'Z') || ('a' <= c <= 'z') || IsDigit(c) || IsSpace(c)
    || c in "ÁÉÍÓÚÜÑáéíóúüñ" || c == '-' || c == '.' || c == '_' || c == '\''
  }

  /** The name pattern: one or more allowed characters, the first not a digit. */
  predicate MatchesNamePattern(s: string)
  {
    |s| > 0 && !IsDigit(s[0]) && forall k :: 0 <= k < |s| ==> IsNameChar(s[k])
  }

  /** The cleaned value has a length in [minLen, maxLen] and matches the name pattern. */
  predicate IsValidName(value: Option<string>, minLen: int, maxLen: int)
  {
    var s := CleanString(value);
    minLen <= |s| <= maxLen && MatchesNamePattern(s)
  }

  /** A valid name is never blank, whatever the bounds are, and does not start with a digit. */
  lemma ValidNameIsNonBlank(value: Option<string>, minLen: int, maxLen: int)
    requires IsValidName(value, minLen, maxLen)
    ensures IsNonEmptyString(value)
    ensures value.Some? && !IsDigit(Strip(value.value)[0])
  {
  }

  /** Even with a zero minimum length the empty name is refused, because the pattern needs a character. */
  lemma EmptyNameRefused(maxLen: int)
    ensures !IsValidName(Some(""), 0, maxLen)
  {
    assert Strip("") == "";
  }

  /** With the default bounds the minimum never bites, since the pattern already needs a
      character: a name is valid exactly when its cleaned form matches the pattern and has at
      most 100 characters. */
  lemma ValidNameAtDefaults(value: Option<string>)
    ensures IsValidName(value, DefaultMinLen, DefaultMaxLen)
      <==> MatchesNamePattern(CleanString(value)) && |CleanString(value)| <= DefaultMaxLen
  {
  }

  /** The stripped value is a non-empty run of ASCII digits whose value is positive. */
  predicate IsPositiveIntStr(value: string)
  {
    var s := Strip(value);
    IsDigits(s) && DigitsValue(s) > 0
  }

  /** Equivalently: a digit run with at least one digit other than `0`. */
  lemma PositiveIntStrIff(value: string)
    ensures IsPositiveIntStr(value)
      <==> var s := Strip(value); IsDigits(s) && exists k :: 0 <= k < |s| && s[k] != '0'
  {
    var s := Strip(value);
    if IsDigits(s) {
      DigitsPositiveIff(s);
    }
  }

  datatype IntError = NotAnInteger | NotPositive

  /** `int(value)` when it is above zero; otherwise the error that would be raised. */
  function ParsePositiveInt(value: string): (r: Result<int, IntError>)
    ensures r.Ok? ==> r.value > 0 && ParseInt(value) == Some(r.value)
    ensures r == Err(NotAnInteger) <==> ParseInt(value).None?
    ensures r == Err(NotPositive) <==> ParseInt(value).Some? && ParseInt(value).value <= 0
  {
    match ParseInt(value)
    case None => Err(NotAnInteger)
    case Some(n) => if n <= 0 then Err(NotPositive) else Ok(n)
  }

  /** What the positive-digit check accepts, the parser turns into its value. */
  lemma PositiveIntStrParses(value: string)
    requires IsPositiveIntStr(value)
    ensures ParsePositiveInt(value) == Ok(DigitsValue(Strip(value)))
  {
    var s := Strip(value);
    assert s[0] != '+' && s[0] != '-';
  }

  /** The parser is more lenient than the check: it accepts an explicit sign. */
  lemma SignedPositiveParsesButFailsCheck()
    ensures ParsePositiveInt("+5") == Ok(5)
    ensures !IsPositiveIntStr("+5")
  {
    assert !IsSpace('+') && !IsSpace('5');
    assert TrimLeft("+5") == "+5";
    assert TrimRight("+5") == "+5";
    assert "+5"[1..] == "5";
    assert DigitsValue("5") == 5 by {
      assert "5"[..0] == "";
    }
  }

  /** Every positive integer's own decimal text parses back to it. */
  lemma ParsePositiveIntToString(n: int)
    requires n > 0
    ensures ParsePositiveInt(IntToString(n)) == Ok(n)
  {
    ParseIntToString(n);
  }

  predicate IsDecimalSeparator(c: char)
  {
    c == '.' || c == ','
  }

  /** `\d+([.,]\d+)?` on the whole text. */
  predicate IsUnsignedDecimal(s: string)
  {
    IsDigits(s)
    || exists k :: 0 < k < |s| - 1 && IsDecimalSeparator(s[k]) && IsDigits(s[..k]) && IsDigits(s[k + 1..])
  }

  /** `[+-]?\d+([.,]\d+)?` on the whole text. */
  predicate IsDecimalBody(s: string)
  {
    if s != [] && (s[0] == '+' || s[0] == '-') then IsUnsignedDecimal(s[1..]) else IsUnsignedDecimal(s)
  }

  /** The decimal pattern `^[+-]?\d+([.,]\d+)?$` under `re.match`; its `$` also matches
      just before one final newline. */
  predicate MatchesDecimalPattern(s: string)
  {
    IsDecimalBody(s) || (|s| > 0 && s[|s| - 1] == '\n' && IsDecimalBody(s[..|s| - 1]))
  }

  /** The text the decimal checks test: stripped, with every space removed. */
  function DecimalCandidate(value: string): string
  {
    RemoveSpaces(Strip(value))
  }

  function RemoveSpaces(s: string): (r: string)
    ensures |r| <= |s|
    ensures forall k :: 0 <= k < |r| ==> r[k] != ' '
    ensures s != [] && s[|s| - 1] != ' ' ==> r != [] && r[|r| - 1] == s[|s| - 1]
  {
    if s == [] then []
    else RemoveSpaces(s[..|s| - 1]) + (if s[|s| - 1] == ' ' then [] else [s[|s| - 1]])
  }

  /** After strip and space removal the newline allowance of `$` can never apply. */
  lemma DecimalCandidateNoNewline(value: string)
    ensures MatchesDecimalPattern(DecimalCandidate(value)) <==> IsDecimalBody(DecimalCandidate(value))
  {
    var t := Strip(value);
    StripShape(value);
    var c := DecimalCandidate(value);
    if c != [] {
      assert t != [];
      assert c[|c| - 1] == t[|t| - 1];
    }
  }

  /** An unsigned decimal ends with a digit and has digits everywhere except at most one
      separator. */
  lemma UnsignedDecimalChars(u: string)
    requires IsUnsignedDecimal(u)
    ensures |u| > 0 && IsDigit(u[|u| - 1])
    ensures forall k :: 0 <= k < |u| ==> IsDigit(u[k]) || IsDecimalSeparator(u[k])
    ensures forall i, j :: 0 <= i < j < |u| && IsDecimalSeparator(u[i]) ==> !IsDecimalSeparator(u[j])
  {
    if !IsDigits(u) {
      var k :| 0 < k < |u| - 1 && IsDecimalSeparator(u[k]) && IsDigits(u[..k]) && IsDigits(u[k + 1..]);
      forall m | 0 <= m < |u| && m != k ensures IsDigit(u[m]) {
        if m < k { assert u[m] == u[..k][m]; } else { assert u[m] == u[k + 1..][m - k - 1]; }
      }
    }
  }

  /** A text of the decimal shape ends with a digit and uses only digits, a leading sign
      and at most one separator. */
  lemma DecimalShapeChars(s: string)
    requires IsDecimalBody(s)
    ensures |s| > 0 && IsDigit(s[|s| - 1])
    ensures forall k :: 0 <= k < |s| ==>
      IsDigit(s[k]) || (k == 0 && (s[k] == '+' || s[k] == '-')) || IsDecimalSeparator(s[k])
    ensures forall i, j :: 0 <= i < j < |s| && IsDecimalSeparator(s[i]) ==> !IsDecimalSeparator(s[j])
  {
    if s != [] && (s[0] == '+' || s[0] == '-') {
      var u := s[1..];
      UnsignedDecimalChars(u);
      assert forall k :: 1 <= k < |s| ==> s[k] == u[k - 1];
    } else {
      UnsignedDecimalChars(s);
    }
  }

  /** Every plain digit string has the decimal shape. */
  lemma DigitsAreDecimal(s: string)
    requires IsDigits(s)
    ensures IsDecimalBody(s)
  {
  }

  /** `name` is not blank and differs, after strip and lower-casing, from every element of
      `container`. */
  predicate IsUniqueName(name: string, container: seq<string>)
  {
    IsNonEmptyString(Some(name))
    && forall k :: 0 <= k < |container| ==> Lower(Strip(name)) != Lower(Strip(container[k]))
  }

  /** A blank name is never unique, even against an empty container. */
  lemma BlankNameNotUnique(name: string, container: seq<string>)
    requires forall k :: 0 <= k < |name| ==> IsSpace(name[k])
    ensures !IsUniqueName(name, container)
  {
    StripEmptyIff(name);
  }

  /** A unique name differs from every element even before stripping, ignoring case. */
  lemma UniqueNameDiffersIgnoringCase(name: string, container: seq<string>, k: int)
    requires IsUniqueName(name, container)
    requires 0 <= k < |container|
    ensures Lower(name) != Lower(container[k])
  {
    StripLower(name);
    StripLower(container[k]);
  }

  const TrueWords: set<string> := {"y", "yes", "s", "si", "true", "t", "1"}
  const FalseWords: set<string> := {"n", "no", "false", "f", "0"}

  /** The normalised answer: stripped and lower-cased. */
  function Answer(value: string): string
  {
    Lower(Strip(value))
  }

  /** No answer is both yes and no: the true words and the false words start differently. */
  lemma WordsDisjoint(v: string)
    ensures !(v in TrueWords && v in FalseWords)
  {
    if v in TrueWords {
      assert v[0] in "yst1";
    }
    if v in FalseWords {
      assert v[0] in "nf0";
    }
  }

  /** The yes/no table: the normalised answer looked up in the true and the false words. */
  function ParseBool(value: Option<string>): (r: Option<bool>)
    ensures r == Some(true) <==> value.Some? && Answer(value.value) in TrueWords
    ensures r == Some(false) <==> value.Some? && Answer(value.value) in FalseWords
    ensures r == None <==>
      value.None? || (Answer(value.value) !in TrueWords && Answer(value.value) !in FalseWords)
  {
    if value.None? then None
    else
      var v := Answer(value.value);
      WordsDisjoint(v);
      if v in TrueWords then Some(true) else if v in FalseWords then Some(false) else None
  }

  /** The answer ignores case. */
  lemma ParseBoolIgnoresCase(s: string)
    ensures ParseBool(Some(Lower(s))) == ParseBool(Some(s))
  {
    StripLower(s);
    LowerIdempotent(Strip(s));
  }

  /** The answer ignores surrounding whitespace. */
  lemma ParseBoolIgnoresPadding(s: string)
    ensures ParseBool(Some(Strip(s))) == ParseBool(Some(s))
  {
    StripIdempotent(s);
  }
}
