/**
 * The Python string built-ins the survey-file parser relies on: `str.isspace`,
 * `str.strip`, `str.startswith`, `str.split` with an explicit separator, and
 * `int()` applied to a string (base 10), together with `str()` of an `int` as
 * the inverse that the round-trip lemmas use.
 */
module PyText {
  import opened Wrappers

  /** `c.isspace()`: the characters Python treats as whitespace. */
  predicate IsSpace(c: char) {
    || c == ' '
    || ('\t' <= c <= '\r')
    || ('\U{1c}' <= c <= '\U{1f}')
    || c == '\U{85}' || c == '\U{a0}' || c == '\U{1680}'
    || ('\U{2000}' <= c <= '\U{200a}')
    || c == '\U{2028}' || c == '\U{2029}' || c == '\U{202f}' || c == '\U{205f}' || c == '\U{3000}'
  }

  /** `s.lstrip()`: drops the leading whitespace and nothing else. */
  function TrimStart(s: string): (r: string)
    ensures |r| <= |s| && r == s[|s| - |r|..]
    ensures forall k :: 0 <= k < |s| - |r| ==> IsSpace(s[k])
    ensures r == [] || !IsSpace(r[0])
  {
    if s != [] && IsSpace(s[0]) then
      var r := TrimStart(s[1..]);
      assert s[1..][|s| - 1 - |r|..] == s[|s| - |r|..];
      assert forall k :: 0 < k < |s| ==> s[k] == s[1..][k - 1];
      r
    else s
  }

  /** `s.rstrip()`: drops the trailing whitespace and nothing else. */
  function TrimEnd(s: string): (r: string)
    ensures |r| <= |s| && r == s[..|r|]
    ensures forall k :: |r| <= k < |s| ==> IsSpace(s[k])
    ensures r == [] || !IsSpace(r[|r| - 1])
  {
    if s != [] && IsSpace(s[|s| - 1]) then
      var r := TrimEnd(s[..|s| - 1]);
      assert s[..|s| - 1][..|r|] == s[..|r|];
      assert forall k :: 0 <= k < |s| - 1 ==> s[k] == s[..|s| - 1][k];
      r
    else s
  }

  /** `s.strip()`. */
  function Strip(s: string): (r: string)
    ensures |r| <= |s|
    ensures r == [] || (!IsSpace(r[0]) && !IsSpace(r[|r| - 1]))
    ensures r == [] ==> forall k :: 0 <= k < |s| ==> IsSpace(s[k])
  {
    TrimEnd(TrimStart(s))
  }

  /** A string that starts and ends with a non-space character is its own strip. */
  lemma StripUnchanged(s: string)
    requires s != [] && !IsSpace(s[0]) && !IsSpace(s[|s| - 1])
    ensures Strip(s) == s
  {
    assert TrimStart(s) == s;
  }

  /** Stripping a line as read from a file drops its newline and nothing else. */
  lemma StripNewline(s: string)
    requires s != [] && !IsSpace(s[0]) && !IsSpace(s[|s| - 1])
    ensures Strip(s + "\n") == s
  {
    var t := s + "\n";
    assert TrimStart(t) == t;
    assert t[..|t| - 1] == s;
    assert TrimEnd(s) == s;
  }

  /** `s.startswith(prefix)`. */
  predicate StartsWith(s: string, prefix: string) {
    |prefix| <= |s| && s[..|prefix|] == prefix
  }

  /** `s.split(sep)`: the pieces between the occurrences of `sep`; never empty. */
  function Split(s: string, sep: char): (fields: seq<string>)
    ensures |fields| >= 1
    ensures forall k :: 0 <= k < |fields| ==> sep !in fields[k]
  {
    if s == [] then [""]
    else
      var rest := Split(s[1..], sep);
      if s[0] == sep then [""] + rest else [[s[0]] + rest[0]] + rest[1..]
  }

  /** `sep.join(fields)`, the inverse of `Split`. */
  function Join(fields: seq<string>, sep: char): string
    requires |fields| >= 1
  {
    if |fields| == 1 then fields[0] else fields[0] + [sep] + Join(fields[1..], sep)
  }

  /** The first and last characters of a joined string. */
  lemma {:induction false} JoinEnds(fields: seq<string>, sep: char)
    requires |fields| >= 1
    ensures fields[0] != [] ==> Join(fields, sep) != [] && Join(fields, sep)[0] == fields[0][0]
    ensures fields[0] == [] && |fields| > 1 ==> Join(fields, sep) != [] && Join(fields, sep)[0] == sep
    ensures var last := fields[|fields| - 1];
            last != [] ==> Join(fields, sep) != [] && Join(fields, sep)[|Join(fields, sep)| - 1] == last[|last| - 1]
  {
    if |fields| > 1 {
      JoinEnds(fields[1..], sep);
    }
  }

  /** Splitting loses nothing: joining the pieces gives the string back. */
  lemma {:induction false} JoinSplit(s: string, sep: char)
    ensures Join(Split(s, sep), sep) == s
  {
    if s != [] {
      var rest := Split(s[1..], sep);
      JoinSplit(s[1..], sep);
      if s[0] == sep {
        assert Split(s, sep) == [""] + rest;
        assert ([""] + rest)[1..] == rest;
      } else {
        var fields := Split(s, sep);
        assert fields == [[s[0]] + rest[0]] + rest[1..];
        if |rest| == 1 {
          assert fields == [[s[0]] + rest[0]];
        } else {
          assert fields[1..] == rest[1..];
          assert Join(rest, sep) == rest[0] + [sep] + Join(rest[1..], sep);
          assert [s[0]] + Join(rest, sep) == s;
        }
      }
    }
  }

  /** A piece without the separator followed by more text splits off as one field. */
  lemma {:induction false} SplitPiece(f: string, rest: string, sep: char)
    requires sep !in f
    ensures Split(f + [sep] + rest, sep) == [f] + Split(rest, sep)
    ensures Split(f, sep) == [f]
  {
    if f == [] {
      assert f + [sep] + rest == [sep] + rest;
      assert ([sep] + rest)[1..] == rest;
    } else {
      SplitPiece(f[1..], rest, sep);
      assert (f + [sep] + rest)[1..] == f[1..] + [sep] + rest;
      assert [f[0]] + f[1..] == f;
    }
  }

  /** Joining fields that do not contain the separator and splitting again gives the fields back. */
  lemma {:induction false} SplitJoin(fields: seq<string>, sep: char)
    requires |fields| >= 1
    requires forall k :: 0 <= k < |fields| ==> sep !in fields[k]
    ensures Split(Join(fields, sep), sep) == fields
  {
    SplitPiece(fields[0], [], sep);
    if |fields| > 1 {
      SplitPiece(fields[0], Join(fields[1..], sep), sep);
      SplitJoin(fields[1..], sep);
      assert [fields[0]] + fields[1..] == fields;
    }
  }

  predicate IsDigit(c: char) {
    '0' <= c <= '9'
  }

  function DigitOf(c: char): nat {
    if IsDigit(c) then c as int - '0' as int else 0
  }

  function DigitChar(d: nat): (c: char)
    requires d < 10
    ensures IsDigit(c) && DigitOf(c) == d
  {
    ('0' as int + d) as char
  }

  /** Decimal digits, possibly grouped by single underscores, as `int()` accepts them. */
  predicate IsDigitGroup(s: string) {
    && |s| > 0 && IsDigit(s[0]) && IsDigit(s[|s| - 1])
    && (forall k :: 0 <= k < |s| ==> IsDigit(s[k]) || s[k] == '_')
    && (forall k :: 0 <= k < |s| - 1 ==> s[k] == '_' ==> s[k + 1] != '_')
  }

  /** The value of a digit string read left to right; underscores are skipped. */
  function DigitsValue(s: string): nat {
    if s == [] then 0
    else if s[|s| - 1] == '_' then DigitsValue(s[..|s| - 1])
    else DigitsValue(s[..|s| - 1]) * 10 + DigitOf(s[|s| - 1])
  }

  /**
   * CPython's default bound on the number of digits `int()` reads from a string
   * and `str()` writes for an integer (`sys.int_info.default_max_str_digits`);
   * past it both raise `ValueError`.
   */
  const INT_MAX_STR_DIGITS: nat := 4300

  /** The number of digits in `s`; underscores do not count. */
  function DigitCount(s: string): nat {
    if s == [] then 0
    else DigitCount(s[..|s| - 1]) + (if s[|s| - 1] == '_' then 0 else 1)
  }

  /** A digit group `int()` accepts: no more than `INT_MAX_STR_DIGITS` digits. */
  predicate IsReadableDigits(s: string) {
    IsDigitGroup(s) && DigitCount(s) <= INT_MAX_STR_DIGITS
  }

  /**
   * U+001C to U+001F: `isspace()` accepts them, but `int()` does not skip them,
   * since it skips only ASCII whitespace and the non-ASCII characters `isspace()`
   * accepts.
   */
  predicate IsInformationSeparator(c: char) {
    '\U{1c}' <= c <= '\U{1f}'
  }

  /**
   * `int(s)` for a string: surrounding whitespace is ignored, one optional sign,
   * then a digit group of at most `INT_MAX_STR_DIGITS` digits. `None` stands for
   * the `ValueError` Python raises. An information separator can be neither
   * skipped nor part of the number, so wherever it stands `int()` raises.
   */
  function ParseInt(s: string): Option<int> {
    if exists k :: 0 <= k < |s| && IsInformationSeparator(s[k]) then None
    else ParseSignedDigits(Strip(s))
  }

  /** A field holding an information separator is refused, even around a valid number. */
  lemma ParseIntOfSeparator(s: string, k: int)
    requires 0 <= k < |s| && IsInformationSeparator(s[k])
    ensures ParseInt(s) == None
  {
  }

  /** What `int()` accepts once the whitespace is stripped: one optional sign, then a digit group. */
  function ParseSignedDigits(t: string): Option<int> {
    if |t| > 0 && (t[0] == '+' || t[0] == '-') then
      if IsReadableDigits(t[1..]) then
        Some(if t[0] == '-' then -(DigitsValue(t[1..]) as int) else DigitsValue(t[1..]) as int)
      else None
    else if IsReadableDigits(t) then Some(DigitsValue(t) as int)
    else None
  }

  /** `str(n)` for a natural number. */
  function NatToString(n: nat): (s: string)
    ensures |s| > 0 && forall k :: 0 <= k < |s| ==> IsDigit(s[k])
  {
    if n < 10 then [DigitChar(n)] else NatToString(n / 10) + [DigitChar(n % 10)]
  }

  /** The absolute value, whose decimal text `str()` writes after any sign. */
  function Abs(i: int): nat {
    if i < 0 then -i else i
  }

  /**
   * `str(i)` for an integer. Python computes it only when the decimal text has
   * at most `INT_MAX_STR_DIGITS` digits (`StrDefined`), and raises `ValueError`
   * otherwise.
   */
  function IntToString(i: int): string {
    if i < 0 then "-" + NatToString(-i) else NatToString(i)
  }

  /** `str(i)` does not raise. */
  predicate StrDefined(i: int) {
    |NatToString(Abs(i))| <= INT_MAX_STR_DIGITS
  }

  /** A string without underscores has one digit per character. */
  lemma {:induction false} DigitCountNoUnderscore(s: string)
    requires forall k :: 0 <= k < |s| ==> s[k] != '_'
    ensures DigitCount(s) == |s|
  {
    if s != [] {
      DigitCountNoUnderscore(s[..|s| - 1]);
    }
  }

  lemma {:induction false} NatToStringValue(n: nat)
    ensures DigitsValue(NatToString(n)) == n
  {
    var s := NatToString(n);
    if n < 10 {
      assert s[..|s| - 1] == [];
    } else {
      NatToStringValue(n / 10);
      assert s[..|s| - 1] == NatToString(n / 10);
    }
  }

  /** The decimal text of a natural number is a digit group. */
  lemma NatToStringIsDigitGroup(n: nat)
    ensures IsDigitGroup(NatToString(n))
  {
    var digits := NatToString(n);
    assert forall k :: 0 <= k < |digits| ==> digits[k] != '_';
  }

  /** A digit is neither whitespace nor a sign. */
  lemma DigitNotSpaceOrSign(c: char)
    requires IsDigit(c)
    ensures !IsSpace(c) && c != '+' && c != '-'
  {
  }

  /** `int()` of a digit group is its value, unless it has too many digits. */
  lemma ParseIntOfDigitGroup(t: string)
    requires IsDigitGroup(t)
    ensures ParseInt(t) == if DigitCount(t) <= INT_MAX_STR_DIGITS then Some(DigitsValue(t) as int) else None
  {
    DigitNotSpaceOrSign(t[0]);
    DigitNotSpaceOrSign(t[|t| - 1]);
    StripUnchanged(t);
  }

  /** A minus sign followed by a digit group reads as the negated value, unless it has too many digits. */
  lemma SignedDigitsOfNegated(t: string)
    requires IsDigitGroup(t)
    ensures ParseSignedDigits("-" + t) ==
            if DigitCount(t) <= INT_MAX_STR_DIGITS then Some(-(DigitsValue(t) as int)) else None
  {
    assert ("-" + t)[1..] == t;
  }

  /** A minus sign followed by a digit group has nothing to strip. */
  lemma StripNegated(t: string)
    requires IsDigitGroup(t)
    ensures Strip("-" + t) == "-" + t
  {
    var m := "-" + t;
    DigitNotSpaceOrSign(t[|t| - 1]);
    assert m[|m| - 1] == t[|t| - 1];
    StripUnchanged(m);
  }

  /** `int()` of a minus sign followed by a digit group is the negated value, unless it has too many digits. */
  lemma ParseIntOfNegatedDigitGroup(t: string)
    requires IsDigitGroup(t)
    ensures ParseInt("-" + t) ==
            if DigitCount(t) <= INT_MAX_STR_DIGITS then Some(-(DigitsValue(t) as int)) else None
  {
    var m := "-" + t;
    assert forall k :: 1 <= k < |m| ==> m[k] == t[k - 1];
    assert !exists k :: 0 <= k < |m| && IsInformationSeparator(m[k]);
    StripNegated(t);
    SignedDigitsOfNegated(t);
  }

  /**
   * `int(str(i)) == i` whenever `str(i)` is defined; the text of an integer
   * with more digits is refused by `int()` as well.
   */
  lemma ParseIntToString(i: int)
    ensures ParseInt(IntToString(i)) == if StrDefined(i) then Some(i) else None
  {
    var n := Abs(i);
    NatToStringValue(n);
    NatToStringIsDigitGroup(n);
    DigitCountNoUnderscore(NatToString(n));
    if i < 0 {
      ParseIntOfNegatedDigitGroup(NatToString(n));
    } else {
      ParseIntOfDigitGroup(NatToString(n));
    }
  }

  /** `int()` of an empty or all-whitespace string raises `ValueError`. */
  lemma ParseIntBlank(s: string)
    requires forall k :: 0 <= k < |s| ==> IsSpace(s[k])
    ensures ParseInt(s) == None
  {
  }
}
