/** The JavaScript string primitives the blog engine relies on, over
    `seq<char>`: `indexOf`, one-argument `substr`, `trim`, `padStart`,
    `toLowerCase` on ASCII, and the decimal rendering of numbers.

    A Dafny `char` is a Unicode scalar value, while JavaScript indexes
    strings by UTF-16 code unit; the two agree on text that stays inside the
    Basic Multilingual Plane. */
module Text {
  import opened Results

  /** The `\s` class of JavaScript regular expressions, which is also the set
      of characters `String.prototype.trim` removes: the ECMAScript
      WhiteSpace and LineTerminator code points. */
  predicate IsSpace(c: char) {
    || c == '\t' || c == '\n' || c == '\U{000B}' || c == '\U{000C}' || c == '\r'
    || c == ' ' || c == '\U{00A0}' || c == '\U{1680}'
    || ('\U{2000}' <= c <= '\U{200A}')
    || c == '\U{2028}' || c == '\U{2029}' || c == '\U{202F}' || c == '\U{205F}'
    || c == '\U{3000}' || c == '\U{FEFF}'
  }

  /** The characters a regular-expression `.` does not match. */
  predicate IsLineTerminator(c: char) {
    c == '\n' || c == '\r' || c == '\U{2028}' || c == '\U{2029}'
  }

  lemma LineTerminatorIsSpace(c: char)
    requires IsLineTerminator(c)
    ensures IsSpace(c)
  {
  }

  /** `s` holds no whitespace character. */
  predicate NoSpace(s: string) {
    forall i :: 0 <= i < |s| ==> !IsSpace(s[i])
  }

  predicate AllSpace(s: string) {
    forall i :: 0 <= i < |s| ==> IsSpace(s[i])
  }

  predicate IsDigit(c: char) {
    '0' <= c <= '9'
  }

  predicate AllDigits(s: string) {
    forall i :: 0 <= i < |s| ==> IsDigit(s[i])
  }

  lemma DigitsHaveNoSpace(s: string)
    requires AllDigits(s)
    ensures NoSpace(s)
  {
    forall i | 0 <= i < |s|
      ensures !IsSpace(s[i])
    {
      assert IsDigit(s[i]);
    }
  }

  predicate IsUpper(c: char) {
    'A' <= c <= 'Z'
  }

  predicate IsLower(c: char) {
    'a' <= c <= 'z'
  }

  predicate IsLetter(c: char) {
    IsUpper(c) || IsLower(c)
  }

  lemma LettersHaveNoSpace(s: string)
    requires forall i :: 0 <= i < |s| ==> IsLetter(s[i])
    ensures NoSpace(s)
  {
    forall i | 0 <= i < |s|
      ensures !IsSpace(s[i])
    {
      assert IsLetter(s[i]);
    }
  }

  /** `s.indexOf(c)`: the first index holding `c`, or -1 when there is none. */
  function IndexOf(s: string, c: char): (r: int)
    ensures r == -1 <==> c !in s
    ensures r != -1 ==> 0 <= r < |s| && s[r] == c && c !in s[..r]
  {
    FirstFrom(s, c, 0)
  }

  /** The first position of `c` at or after `i`. */
  function FirstFrom(s: string, c: char, i: nat): (r: int)
    requires i <= |s|
    ensures r == -1 || i <= r < |s|
    ensures r == -1 ==> forall j :: i <= j < |s| ==> s[j] != c
    ensures r != -1 ==> s[r] == c && forall j :: i <= j < r ==> s[j] != c
    decreases |s| - i
  {
    if i == |s| then -1
    else if s[i] == c then i
    else FirstFrom(s, c, i + 1)
  }

  /** One-argument `s.substr(start)`: a negative start counts from the end
      (and is clamped at 0), a start past the end yields "". */
  function Substr(s: string, start: int): string
  {
    if start < 0 then (if |s| + start < 0 then s else s[|s| + start..])
    else if start <= |s| then s[start..]
    else []
  }

  /** The first index at or after `i` that does not hold a space, or `|s|`. */
  function SkipSpaces(s: string, i: nat): (k: nat)
    requires i <= |s|
    ensures i <= k <= |s|
    ensures AllSpace(s[i..k])
    ensures k < |s| ==> !IsSpace(s[k])
    decreases |s| - i
  {
    if i == |s| || !IsSpace(s[i]) then i else SkipSpaces(s, i + 1)
  }

  /** The first index at or after `i` holding a line terminator, or `|s|`. */
  function LineEnd(s: string, i: nat): (k: nat)
    requires i <= |s|
    ensures i <= k <= |s|
    ensures forall j :: i <= j < k ==> !IsLineTerminator(s[j])
    ensures k < |s| ==> IsLineTerminator(s[k])
    decreases |s| - i
  {
    if i == |s| || IsLineTerminator(s[i]) then i else LineEnd(s, i + 1)
  }

  /** The end of `s[..k]` once its trailing spaces are dropped. */
  function TrailingSpaceStart(s: string, k: nat): (n: nat)
    requires k <= |s|
    ensures n <= k
    ensures AllSpace(s[n..k])
    ensures n > 0 ==> !IsSpace(s[n - 1])
    decreases k
  {
    if k == 0 || !IsSpace(s[k - 1]) then k
    else
      var n := TrailingSpaceStart(s, k - 1);
      assert s[n..k] == s[n..k - 1] + [s[k - 1]];
      n
  }

  /** `s` without its trailing spaces. */
  function TrimEnd(s: string): (r: string)
    ensures |r| <= |s| && r == s[..|r|]
    ensures AllSpace(s[|r|..])
    ensures |r| > 0 ==> !IsSpace(r[|r| - 1])
  {
    s[..TrailingSpaceStart(s, |s|)]
  }

  /** `s` without its leading spaces. */
  function TrimStart(s: string): (r: string)
    ensures |r| <= |s| && r == s[|s| - |r|..]
    ensures AllSpace(s[..|s| - |r|])
    ensures |r| > 0 ==> !IsSpace(r[0])
  {
    s[SkipSpaces(s, 0)..]
  }

  /** `s.trim()`. */
  function Trim(s: string): (r: string)
  {
    TrimEnd(TrimStart(s))
  }

  lemma TrimEnds(s: string)
    ensures |Trim(s)| > 0 ==> !IsSpace(Trim(s)[0]) && !IsSpace(Trim(s)[|Trim(s)| - 1])
  {
    var t := TrimStart(s);
    var r := TrimEnd(t);
    if |r| > 0 {
      assert r[0] == t[0];
    }
  }

  lemma TrimOne(c: char)
    ensures Trim([c]) == if IsSpace(c) then [] else [c]
  {
    if !IsSpace(c) {
      assert TrimStart([c]) == [c];
    }
  }

  /** What `trim` keeps: a slice of the input that neither starts nor ends
      with a space, all of whose removed characters are spaces. */
  lemma TrimShape(s: string)
    ensures var r := Trim(s);
      && (|r| > 0 ==> !IsSpace(r[0]) && !IsSpace(r[|r| - 1]))
      && (exists a :: 0 <= a <= |s| - |r| && s[a..a + |r|] == r && AllSpace(s[..a]) && AllSpace(s[a + |r|..]))
  {
    var t := TrimStart(s);
    var r := TrimEnd(t);
    var a := |s| - |t|;
    assert s[a..a + |r|] == t[..|r|];
    assert s[a + |r|..] == t[|r|..];
  }

  /** Trimming a string that does not start with a space only removes its
      trailing spaces. */
  lemma TrimNoLeadingSpace(s: string)
    requires |s| > 0 && !IsSpace(s[0])
    ensures Trim(s) == TrimEnd(s)
  {
  }

  function DigitChar(d: nat): (c: char)
    requires d < 10
    ensures IsDigit(c)
  {
    ['0', '1', '2', '3', '4', '5', '6', '7', '8', '9'][d]
  }

  function DigitValue(c: char): nat
    requires IsDigit(c)
  {
    (c as int - '0' as int) as nat
  }

  /** Decimal digits of a non-negative integer, most significant first, with
      no leading zero (JavaScript's `Number.prototype.toString` on integers). */
  function DecimalString(n: nat): (r: string)
    ensures 0 < |r|
    ensures AllDigits(r)
    ensures |r| > 1 ==> r[0] != '0'
    decreases n
  {
    if n < 10 then [DigitChar(n)] else DecimalString(n / 10) + [DigitChar(n % 10)]
  }

  /** The value a string of decimal digits denotes. */
  function DecimalValue(s: string): nat
    requires AllDigits(s)
  {
    if |s| == 0 then 0 else 10 * DecimalValue(s[..|s| - 1]) + DigitValue(s[|s| - 1])
  }

  /** Reading back the decimal rendering of a number gives the number. */
  lemma {:induction false} DecimalRoundTrip(n: nat)
    ensures DecimalValue(DecimalString(n)) == n
    decreases n
  {
    var r := DecimalString(n);
    if n >= 10 {
      DecimalRoundTrip(n / 10);
      assert r[..|r| - 1] == DecimalString(n / 10);
    }
  }

  /** Leading zeros add nothing to the value of a digit string. */
  lemma {:induction false} DecimalValueLeadingZeros(z: string, s: string)
    requires AllDigits(z) && AllDigits(s)
    requires forall i :: 0 <= i < |z| ==> z[i] == '0'
    ensures AllDigits(z + s)
    ensures DecimalValue(z + s) == DecimalValue(s)
    decreases |s|
  {
    var zs := z + s;
    if |s| == 0 {
      assert zs == z;
      DecimalValueOfZeros(z);
    } else {
      assert zs[..|zs| - 1] == z + s[..|s| - 1];
      DecimalValueLeadingZeros(z, s[..|s| - 1]);
    }
  }

  lemma {:induction false} DecimalValueOfZeros(z: string)
    requires AllDigits(z)
    requires forall i :: 0 <= i < |z| ==> z[i] == '0'
    ensures DecimalValue(z) == 0
    decreases |z|
  {
    if |z| > 0 {
      DecimalValueOfZeros(z[..|z| - 1]);
    }
  }

  /** `String(x)` for an integral number `x`: it starts with "-" exactly
      for negative numbers, is all digits after that sign, and reads back
      as `x`. */
  function NumberString(x: int): (r: string)
    ensures |r| > 0 && (r[0] == '-' <==> x < 0)
    ensures AllDigits(if x < 0 then r[1..] else r)
    ensures ReadInt(r) == Some(x)
  {
    var d := DecimalString(if x < 0 then -x else x);
    DecimalRoundTrip(if x < 0 then -x else x);
    if x < 0 then
      assert ("-" + d)[1..] == d;
      "-" + d
    else d
  }

  /** A natural number is written without a sign. */
  lemma NaturalNumberString(n: nat)
    ensures NumberString(n) == DecimalString(n)
  {
  }

  /** Reads an optionally signed run of decimal digits. */
  function ReadInt(t: string): Option<int> {
    if |t| > 1 && t[0] == '-' && AllDigits(t[1..]) then Some(-(DecimalValue(t[1..]) as int))
    else if |t| > 0 && AllDigits(t) then Some(DecimalValue(t) as int)
    else None
  }

  function Repeat(c: char, n: nat): (r: string)
    ensures |r| == n
    ensures forall i :: 0 <= i < n ==> r[i] == c
  {
    if n == 0 then [] else [c] + Repeat(c, n - 1)
  }

  /** `s.padStart(n, c)` for a one-character filler. */
  function PadStart(s: string, n: nat, c: char): (r: string)
    ensures |r| == if |s| >= n then |s| else n
    ensures r[|r| - |s|..] == s
    ensures forall i :: 0 <= i < |r| - |s| ==> r[i] == c
  {
    if |s| >= n then s else Repeat(c, n - |s|) + s
  }

  function LowerChar(c: char): char {
    if 'A' <= c <= 'Z' then (c as int + 32) as char else c
  }

  /** `toLowerCase`, for the ASCII text it is applied to here. */
  function LowerAscii(s: string): (r: string)
    ensures |r| == |s|
    ensures forall i :: 0 <= i < |s| ==> r[i] == LowerChar(s[i])
  {
    if |s| == 0 then [] else [LowerChar(s[0])] + LowerAscii(s[1..])
  }

  /** Lower-casing loses nothing between strings whose upper-case letters
      sit at the same places. */
  lemma LowerSameCase(x: string, y: string)
    requires |x| == |y|
    requires forall i :: 0 <= i < |x| ==> (IsUpper(x[i]) <==> IsUpper(y[i]))
    requires LowerAscii(x) == LowerAscii(y)
    ensures x == y
  {
    forall i | 0 <= i < |x|
      ensures x[i] == y[i]
    {
      assert LowerChar(x[i]) == LowerAscii(x)[i] == LowerAscii(y)[i] == LowerChar(y[i]);
    }
  }

  /** Every occurrence of the character `a` in `s` replaced by `b`. */
  function MapChar(s: string, a: char, b: char): (r: string)
    ensures |r| == |s|
    ensures forall i :: 0 <= i < |s| ==> r[i] == if s[i] == a then b else s[i]
  {
    if |s| == 0 then [] else [if s[0] == a then b else s[0]] + MapChar(s[1..], a, b)
  }

  /** `String(n).padStart(width, '0')` for a non-negative integer. */
  function Padded(n: nat, width: nat): (r: string)
    ensures AllDigits(r)
    ensures |r| >= width
  {
    PadStart(DecimalString(n), width, '0')
  }

  /** A zero-padded number reads back as the number. */
  lemma PaddedRoundTrip(n: nat, width: nat)
    ensures DecimalValue(Padded(n, width)) == n
  {
    var d := DecimalString(n);
    var r := Padded(n, width);
    var z := r[..|r| - |d|];
    assert r == z + d;
    DecimalRoundTrip(n);
    DecimalValueLeadingZeros(z, d);
  }

  /** Zero-padded renderings of different numbers differ. */
  lemma PaddedInjective(a: nat, b: nat, width: nat)
    requires Padded(a, width) == Padded(b, width)
    ensures a == b
  {
    PaddedRoundTrip(a, width);
    PaddedRoundTrip(b, width);
  }

  /** A number below 10 is padded to two digits with one leading zero, a
      number from 10 to 99 is written as it is. */
  lemma TwoDigits(n: nat)
    requires n < 100
    ensures |Padded(n, 2)| == 2
    ensures Padded(n, 2) == [DigitChar(n / 10), DigitChar(n % 10)]
  {
    if n >= 10 {
      assert DecimalString(n / 10) == [DigitChar(n / 10)];
    }
  }

  /** The index of the first whitespace character of `s`, or `|s|`. */
  function FirstSpace(s: string): (i: nat)
    ensures i <= |s|
    ensures forall j :: 0 <= j < i ==> !IsSpace(s[j])
    ensures i < |s| ==> IsSpace(s[i])
  {
    if |s| == 0 || IsSpace(s[0]) then 0 else 1 + FirstSpace(s[1..])
  }

  /** `s.split(/\s+/)`: the pieces between maximal runs of whitespace; a
      leading run gives an empty first piece and a trailing run an empty
      last one. */
  function SplitSpaces(s: string): (r: seq<string>)
    ensures |r| > 0
    decreases |s|
  {
    var i := FirstSpace(s);
    if i == |s| then [s]
    else [s[..i]] + SplitSpaces(s[SkipSpaces(s, i)..])
  }

  /** A word followed by a single space and a text that does not start with
      whitespace splits into the word and the pieces of that text. */
  lemma SplitWord(w: string, rest: string)
    requires |w| > 0 && NoSpace(w)
    requires |rest| == 0 || !IsSpace(rest[0])
    ensures SplitSpaces(w + " " + rest) == [w] + SplitSpaces(rest)
  {
    var s := w + " " + rest;
    FirstSpaceOfWord(w, " " + rest);
    assert s == w + (" " + rest);
    assert s[..|w|] == w;
    assert SkipSpaces(s, |w|) == |w| + 1;
    assert s[|w| + 1..] == rest;
  }

  lemma FirstSpaceOfWord(w: string, t: string)
    requires NoSpace(w)
    requires |t| > 0 && IsSpace(t[0])
    ensures FirstSpace(w + t) == |w|
  {
    assert forall j :: 0 <= j < |w| ==> (w + t)[j] == w[j];
    assert (w + t)[|w|] == t[0];
  }

  /** `s.lastIndexOf(c)`: the last index holding `c`, or -1 when there is
      none. */
  function LastIndexOf(s: string, c: char): (r: int)
    ensures r == -1 <==> c !in s
    ensures r != -1 ==> 0 <= r < |s| && s[r] == c && c !in s[r + 1..]
  {
    LastBefore(s, c, |s|)
  }

  /** The last position of `c` among the first `n` characters of `s`. */
  function LastBefore(s: string, c: char, n: nat): (r: int)
    requires n <= |s|
    ensures -1 <= r < n
    ensures r == -1 ==> forall j :: 0 <= j < n ==> s[j] != c
    ensures r != -1 ==> s[r] == c && forall j :: r < j < n ==> s[j] != c
  {
    if n == 0 then -1
    else if s[n - 1] == c then n - 1
    else LastBefore(s, c, n - 1)
  }

  /** Equal concatenations whose first parts have equal length have equal
      parts. */
  lemma SplitAtLength(a: string, x: string, b: string, y: string)
    requires |a| == |b| && a + x == b + y
    ensures a == b && x == y
  {
    assert a == (a + x)[..|a|] && b == (b + y)[..|b|];
    assert x == (a + x)[|a|..] && y == (b + y)[|b|..];
  }

  /** The part before the first separator is determined by the string. */
  lemma SplitAtFirst(a: string, x: string, b: string, y: string, c: char)
    requires c !in a && c !in b
    requires a + [c] + x == b + [c] + y
    ensures a == b && x == y
  {
    FirstAt(a, x, c);
    FirstAt(b, y, c);
    assert a + [c] + x == a + ([c] + x) && b + [c] + y == b + ([c] + y);
    SplitAtLength(a, [c] + x, b, [c] + y);
    assert x == ([c] + x)[1..] && y == ([c] + y)[1..];
  }

  lemma {:induction false} FirstAt(a: string, x: string, c: char)
    requires c !in a
    ensures IndexOf(a + [c] + x, c) == |a|
    decreases |a|
  {
    var s := a + [c] + x;
    if |a| > 0 {
      assert s[0] == a[0] && s[1..] == a[1..] + [c] + x;
      FirstAt(a[1..], x, c);
    }
  }

  /** `a.reverse()` on a copy. */
  function Reverse<T>(a: seq<T>): (r: seq<T>)
    ensures |r| == |a|
    ensures forall i :: 0 <= i < |a| ==> r[i] == a[|a| - 1 - i]
  {
    if |a| == 0 then [] else Reverse(a[1..]) + [a[0]]
  }
}
