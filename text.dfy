/**
 * The Python string built-ins the fuzzer relies on, written out:
 * `str.split(sep)` and `sep.join(...)` for one-character separators,
 * `str.strip()`, and the decimal rendering `str(n)` of a non-negative int.
 */
module Text {

  /** Index of the first occurrence of `c` in `s`, or `|s|` when `c` does not occur. */
  function IndexOf(s: string, c: char): (i: nat)
    ensures i <= |s|
    ensures i < |s| ==> s[i] == c
    ensures forall k :: 0 <= k < i ==> s[k] != c
  {
    if s == [] then 0
    else if s[0] == c then 0
    else 1 + IndexOf(s[1..], c)
  }

  /** Number of occurrences of `c` in `s`. */
  function Count(s: string, c: char): nat
  {
    if s == [] then 0 else (if s[0] == c then 1 else 0) + Count(s[1..], c)
  }

  lemma {:induction false} CountConcat(a: string, b: string, c: char)
    ensures Count(a + b, c) == Count(a, c) + Count(b, c)
  {
    if a != [] {
      assert (a + b)[1..] == a[1..] + b;
      CountConcat(a[1..], b, c);
    } else {
      assert a + b == b;
    }
  }

  lemma {:induction false} CountAbsent(s: string, c: char)
    requires forall k :: 0 <= k < |s| ==> s[k] != c
    ensures Count(s, c) == 0
  {
    if s != [] {
      CountAbsent(s[1..], c);
    }
  }

  /**
   * Python's `s.split(sep)` for a one-character separator: the fields between
   * separators, empty fields included; `""` splits into `[""]`.
   */
  function SplitOn(s: string, sep: char): (fields: seq<string>)
    ensures |fields| >= 1
    ensures forall k :: 0 <= k < |fields| ==> sep !in fields[k]
    decreases |s|
  {
    var i := IndexOf(s, sep);
    if i == |s| then [s] else [s[..i]] + SplitOn(s[i + 1..], sep)
  }

  /** Python's `sep.join(fields)`. */
  function JoinOn(fields: seq<string>, sep: char): string
  {
    if fields == [] then ""
    else if |fields| == 1 then fields[0]
    else fields[0] + [sep] + JoinOn(fields[1..], sep)
  }

  /** Splitting never loses a character: joining the fields back gives the input. */
  lemma {:induction false} JoinSplit(s: string, sep: char)
    ensures JoinOn(SplitOn(s, sep), sep) == s
    decreases |s|
  {
    var i := IndexOf(s, sep);
    if i < |s| {
      var rest := SplitOn(s[i + 1..], sep);
      var fields := [s[..i]] + rest;
      JoinSplit(s[i + 1..], sep);
      assert SplitOn(s, sep) == fields;
      assert |fields| >= 2 && fields[0] == s[..i] && fields[1..] == rest;
      assert JoinOn(fields, sep) == s[..i] + [sep] + JoinOn(rest, sep);
      assert s == s[..i] + [sep] + s[i + 1..];
    }
  }

  /** Fields that hold no separator come back unchanged from a join and a split. */
  lemma {:induction false} SplitJoin(fields: seq<string>, sep: char)
    requires |fields| >= 1
    requires forall k :: 0 <= k < |fields| ==> sep !in fields[k]
    ensures SplitOn(JoinOn(fields, sep), sep) == fields
  {
    var f := fields[0];
    if |fields| == 1 {
      assert IndexOf(f, sep) == |f|;
    } else {
      var tail := JoinOn(fields[1..], sep);
      var s := f + [sep] + tail;
      assert JoinOn(fields, sep) == s;
      var i := IndexOf(s, sep);
      assert s[|f|] == sep;
      assert forall k :: 0 <= k < |f| ==> s[k] == f[k];
      assert i == |f|;
      assert s[..i] == f;
      assert s[i + 1..] == tail;
      SplitJoin(fields[1..], sep);
      assert fields == [f] + fields[1..];
    }
  }

  /** A split yields one field more than there are separators. */
  lemma {:induction false} SplitLength(s: string, sep: char)
    ensures |SplitOn(s, sep)| == Count(s, sep) + 1
    decreases |s|
  {
    var i := IndexOf(s, sep);
    CountAbsent(s[..i], sep);
    if i == |s| {
      assert s[..i] == s;
    } else {
      SplitLength(s[i + 1..], sep);
      assert s == s[..i] + ([sep] + s[i + 1..]);
      CountConcat(s[..i], [sep] + s[i + 1..], sep);
      assert ([sep] + s[i + 1..])[1..] == s[i + 1..];
    }
  }

  /**
   * The characters Python's `str.isspace()` accepts, which `str.strip()`
   * removes: tab to carriage return, the four separators 0x1C-0x1F, space,
   * NEL, no-break space, and the Unicode space separators.
   */
  predicate IsSpace(c: char)
  {
    ('\t' <= c <= '\r') || ('\U{1C}' <= c <= ' ') || c == '\U{85}' || c == '\U{A0}' || c == '\U{1680}'
    || ('\U{2000}' <= c <= '\U{200A}') || c == '\U{2028}' || c == '\U{2029}' || c == '\U{202F}'
    || c == '\U{205F}' || c == '\U{3000}'
  }

  /** `s` without its leading whitespace. */
  function TrimStart(s: string): (r: string)
    ensures |r| <= |s| && r == s[|s| - |r|..]
    ensures forall k :: 0 <= k < |s| - |r| ==> IsSpace(s[k])
    ensures r == [] || !IsSpace(r[0])
  {
    if s != [] && IsSpace(s[0]) then TrimStart(s[1..]) else s
  }

  /** `s` without its trailing whitespace. */
  function TrimEnd(s: string): (r: string)
    ensures |r| <= |s| && r == s[..|r|]
    ensures forall k :: |r| <= k < |s| ==> IsSpace(s[k])
    ensures r == [] || !IsSpace(r[|r| - 1])
  {
    if s != [] && IsSpace(s[|s| - 1]) then TrimEnd(s[..|s| - 1]) else s
  }

  /** `s` has no whitespace at either end. */
  predicate Trimmed(s: string)
  {
    s == [] || (!IsSpace(s[0]) && !IsSpace(s[|s| - 1]))
  }

  /**
   * Python's `s.strip()`: the result is the middle of `s` left after removing
   * a whitespace prefix and a whitespace suffix; it carries no whitespace at
   * either end, and it is `s` itself exactly when `s` had none to remove.
   */
  function Strip(s: string): (r: string)
    ensures Trimmed(r)
    ensures |r| <= |s|
    ensures var i := |s| - |TrimStart(s)|;
            i + |r| <= |s| && r == s[i..i + |r|]
            && (forall k :: 0 <= k < i ==> IsSpace(s[k]))
            && (forall k :: i + |r| <= k < |s| ==> IsSpace(s[k]))
    ensures r == s <==> Trimmed(s)
  {
    TrimmedMiddle(s);
    TrimEnd(TrimStart(s))
  }

  /** Trimming both ends leaves a middle slice of `s` with only whitespace around it. */
  lemma TrimmedMiddle(s: string)
    ensures var t := TrimStart(s);
            var r := TrimEnd(t);
            var i := |s| - |t|;
            i + |r| <= |s| && r == s[i..i + |r|]
            && (forall k :: 0 <= k < i ==> IsSpace(s[k]))
            && (forall k :: i + |r| <= k < |s| ==> IsSpace(s[k]))
  {
    var t := TrimStart(s);
    var r := TrimEnd(t);
    var i := |s| - |t|;
    assert t == s[i..];
    assert r == t[..|r|];
    assert r == s[i..i + |r|];
    forall k | i + |r| <= k < |s|
      ensures IsSpace(s[k])
    {
      assert |r| <= k - i < |t|;
      assert IsSpace(t[k - i]);
      assert t[k - i] == s[k];
    }
  }

  predicate IsDigit(c: char)
  {
    '0' <= c <= '9'
  }

  predicate AllDigits(s: string)
  {
    forall k :: 0 <= k < |s| ==> IsDigit(s[k])
  }

  function DigitChar(d: nat): (c: char)
    requires d < 10
    ensures IsDigit(c)
  {
    ('0' as int + d) as char
  }

  function DigitValue(c: char): (d: nat)
    requires IsDigit(c)
    ensures d < 10
  {
    c as int - '0' as int
  }

  /**
   * Python's `str(n)` for `n >= 0`: decimal digits, most significant first,
   * without leading zeros.
   */
  function NatToDecimal(n: nat): (s: string)
    ensures |s| >= 1
    ensures AllDigits(s)
    ensures s[0] == '0' ==> n == 0 && s == "0"
    decreases n
  {
    if n < 10 then [DigitChar(n)] else NatToDecimal(n / 10) + [DigitChar(n % 10)]
  }

  /** The number a string of decimal digits denotes. */
  function DecimalValue(s: string): nat
    requires AllDigits(s)
  {
    if s == [] then 0 else 10 * DecimalValue(s[..|s| - 1]) + DigitValue(s[|s| - 1])
  }

  /** Reading back the rendering of `n` gives `n`. */
  lemma {:induction false} DecimalRoundTrip(n: nat)
    ensures DecimalValue(NatToDecimal(n)) == n
    decreases n
  {
    var s := NatToDecimal(n);
    if n >= 10 {
      DecimalRoundTrip(n / 10);
      assert s[..|s| - 1] == NatToDecimal(n / 10);
    }
  }

  /** Length of the longest suffix of `s` made of decimal digits. */
  function TrailingDigits(s: string): (n: nat)
    ensures n <= |s|
    ensures forall k :: |s| - n <= k < |s| ==> IsDigit(s[k])
    ensures AllDigits(s[|s| - n..])
    ensures n < |s| ==> !IsDigit(s[|s| - n - 1])
  {
    if s != [] && IsDigit(s[|s| - 1]) then 1 + TrailingDigits(s[..|s| - 1]) else 0
  }

  /** A run of digits after a non-digit is exactly the trailing digits. */
  lemma {:induction false} TrailingDigitsAfter(head: string, digits: string)
    requires head != [] && !IsDigit(head[|head| - 1]) && AllDigits(digits)
    ensures TrailingDigits(head + digits) == |digits|
    decreases |digits|
  {
    var s := head + digits;
    if digits == [] {
      assert s == head;
    } else {
      var front := digits[..|digits| - 1];
      assert s[..|s| - 1] == head + front;
      assert s[|s| - 1] == digits[|digits| - 1];
      TrailingDigitsAfter(head, front);
    }
  }
}
