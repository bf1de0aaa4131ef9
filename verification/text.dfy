/**
 The handful of Python text built-ins the codec and the command engine lean on:
 `str(n)` for integers, `int(s)` for canonical decimal text, slicing with
 Python's index normalisation, `str.index("\r\n")` and `repr` of a list of
 strings.
 */
module Text {
  import opened Wrappers

  /** The digit character for `d`. */
  function DigitChar(d: nat): (c: char)
    requires d < 10
    ensures '0' <= c <= '9'
  {
    "0123456789"[d]
  }

  predicate IsDigit(c: char) {
    '0' <= c <= '9'
  }

  predicate AllDigits(s: string) {
    forall i :: 0 <= i < |s| ==> IsDigit(s[i])
  }

  /** Decimal digits of a natural number, most significant first, no leading zeros. */
  function NatDigits(n: nat): (r: string)
    ensures |r| > 0 && AllDigits(r)
    ensures r[0] == '0' ==> n == 0
    decreases n
  {
    if n < 10 then [DigitChar(n)] else NatDigits(n / 10) + [DigitChar(n % 10)]
  }

  /**
   Python's `str(n)` (equivalently `f"{n}"`) for an integer: a minus sign
   exactly for a negative number, then decimal digits with no leading zero
   unless the number is 0.
   */
  function ShowInt(n: int): (r: string)
    ensures |r| > 0 && (r[0] == '-' <==> n < 0)
    ensures var digits := if n < 0 then r[1..] else r;
      |digits| > 0 && AllDigits(digits) && (digits[0] == '0' ==> n == 0)
  {
    if n < 0 then "-" + NatDigits(-n) else NatDigits(n)
  }

  /** The value of a non-empty run of decimal digits, read left to right. */
  function DigitsValue(s: string): nat
    requires AllDigits(s)
    decreases |s|
  {
    if |s| == 0 then 0
    else DigitsValue(s[..|s| - 1]) * 10 + (s[|s| - 1] as int - '0' as int)
  }

  /**
   Python's `int(s)` restricted to canonical text: an optional `+` or `-`
   followed by at least one ASCII digit.  Anything else is the `ValueError`
   that `int` raises, rendered as `None`.
   */
  function ReadInt(s: string): (r: Option<int>)
    ensures r.Some? ==> forall i :: 0 <= i < |s| ==> IsDigit(s[i]) || (i == 0 && s[i] in "+-")
    ensures r.Some? ==> |s| > 0
    ensures r.Some? <==> (|s| > 0 && AllDigits(s)) || (|s| > 1 && s[0] in "+-" && AllDigits(s[1..]))
    ensures r.Some? && s[0] == '-' ==> r.value <= 0
    ensures r.Some? && s[0] != '-' ==> r.value >= 0
  {
    if |s| > 0 && (s[0] == '-' || s[0] == '+') then
      var digits := s[1..];
      if |digits| > 0 && AllDigits(digits) then
        Some(if s[0] == '-' then 0 - DigitsValue(digits) as int else DigitsValue(digits))
      else None
    else if |s| > 0 && AllDigits(s) then Some(DigitsValue(s))
    else None
  }

  lemma {:induction false} NatDigitsValue(n: nat)
    ensures AllDigits(NatDigits(n))
    ensures DigitsValue(NatDigits(n)) == n
    decreases n
  {
    if n >= 10 {
      var prefix := NatDigits(n / 10);
      var s := NatDigits(n);
      assert s[..|s| - 1] == prefix;
      NatDigitsValue(n / 10);
    }
  }

  /** `int(str(n)) == n`: decimal formatting and parsing are inverse. */
  lemma ReadShowInt(n: int)
    ensures ReadInt(ShowInt(n)) == Some(n)
  {
    NatDigitsValue(if n < 0 then -n else n);
    if n < 0 {
      assert ShowInt(n)[1..] == NatDigits(-n);
    }
  }

  /** Python's rendering of an integer never contains a carriage return. */
  lemma ShowIntHasNoCr(n: int)
    ensures '\r' !in ShowInt(n)
    ensures |ShowInt(n)| > 0
  {
  }

  /** The renderings of the small integers the server writes as literal text. */
  lemma SmallInts()
    ensures ShowInt(0) == "0" && ShowInt(1) == "1" && ShowInt(2) == "2"
    ensures ShowInt(-1) == "-1" && ShowInt(-2) == "-2"
  {
    assert NatDigits(0) == "0" && NatDigits(1) == "1" && NatDigits(2) == "2";
  }

  /** Python's slice-index normalisation for a sequence of length `len`. */
  function SliceIndex(i: int, len: nat): (r: nat)
    ensures r <= len
    ensures 0 <= i <= len ==> r == i
    ensures 0 - len as int <= i < 0 ==> r == len + i
  {
    if i < 0 then (if len + i < 0 then 0 else len + i)
    else if i > len then len
    else i
  }

  /** Python's `s[start:stop]`: never fails, wraps a negative index once, clamps the rest. */
  function Slice<T>(s: seq<T>, start: int, stop: int): (r: seq<T>)
    ensures |r| <= |s|
    ensures SliceIndex(start, |s|) + |r| <= |s|
    ensures r == s[SliceIndex(start, |s|)..SliceIndex(start, |s|) + |r|]
    ensures SliceIndex(start, |s|) < SliceIndex(stop, |s|) ==> |r| == SliceIndex(stop, |s|) - SliceIndex(start, |s|)
    ensures SliceIndex(stop, |s|) <= SliceIndex(start, |s|) ==> r == []
  {
    var i := SliceIndex(start, |s|);
    var j := SliceIndex(stop, |s|);
    if i < j then s[i..j] else []
  }

  /** Position of the first `"\r\n"` at or after `from`, as `str.index` finds it. */
  function FindCrlfFrom(s: string, from: nat): (r: Option<nat>)
    requires from <= |s|
    ensures r.Some? ==> from <= r.value && r.value + 1 < |s| && s[r.value] == '\r' && s[r.value + 1] == '\n'
    ensures r.Some? ==> forall k :: from <= k < r.value ==> !(s[k] == '\r' && s[k + 1] == '\n')
    ensures r.None? ==> forall k :: from <= k < |s| - 1 ==> !(s[k] == '\r' && s[k + 1] == '\n')
    decreases |s| - from
  {
    if from + 1 >= |s| then None
    else if s[from] == '\r' && s[from + 1] == '\n' then Some(from)
    else FindCrlfFrom(s, from + 1)
  }

  /** `s.index("\r\n")`; `None` stands for the `ValueError` raised when there is none. */
  function FindCrlf(s: string): (r: Option<nat>)
    ensures r.Some? ==> r.value + 1 < |s| && s[r.value] == '\r' && s[r.value + 1] == '\n'
    ensures r.Some? ==> forall k :: 0 <= k < r.value ==> !(s[k] == '\r' && s[k + 1] == '\n')
    ensures r.None? ==> forall k :: 0 <= k < |s| - 1 ==> !(s[k] == '\r' && s[k + 1] == '\n')
  {
    FindCrlfFrom(s, 0)
  }

  /** Two lower-case hexadecimal digits, as in Python's `\xNN` escapes. */
  function Hex2(n: nat): string
    requires n < 256
  {
    ["0123456789abcdef"[n / 16], "0123456789abcdef"[n % 16]]
  }

  /**
   Python's repr of one character inside a string literal quoted with `quote`.
   Non-ASCII characters from U+00A1 on (other than U+00AD) are treated as printable.
   */
  function ReprChar(c: char, quote: char): string {
    if c == quote || c == '\\' then ['\\', c]
    else if c == '\t' then "\\t"
    else if c == '\n' then "\\n"
    else if c == '\r' then "\\r"
    else if c < ' ' || (0x7f <= c as int <= 0xa0) || c as int == 0xad then "\\x" + Hex2(c as int)
    else [c]
  }

  function ReprBody(s: string, quote: char): string
    decreases |s|
  {
    if |s| == 0 then "" else ReprChar(s[0], quote) + ReprBody(s[1..], quote)
  }

  /** Python's `repr(s)`: single quotes unless `s` holds a `'` and no `"`. */
  function ReprStr(s: string): (r: string)
    ensures |r| >= 2 && r[0] == r[|r| - 1] && r[0] in "'\""
  {
    var quote := if '\'' in s && '"' !in s then '"' else '\'';
    [quote] + ReprBody(s, quote) + [quote]
  }

  function ReprItems(xs: seq<string>): string
    decreases |xs|
  {
    if |xs| == 0 then ""
    else if |xs| == 1 then ReprStr(xs[0])
    else ReprStr(xs[0]) + ", " + ReprItems(xs[1..])
  }

  /** Python's `str(xs)` for a list of strings: `[` + `", ".join(map(repr, xs))` + `]`. */
  function ReprList(xs: seq<string>): (r: string)
    ensures |r| >= 2 && r[0] == '[' && r[|r| - 1] == ']'
    ensures r == "[]" <==> |xs| == 0
  {
    "[" + ReprItems(xs) + "]"
  }
}
