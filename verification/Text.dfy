// The string operations the repository takes from Go's standard library:
// decimal printing and parsing (strconv), splitting and searching (strings).
module Text {
  datatype Option<+T> = None | Some(value: T)

  const INT64_LIMIT: int := 0x8000_0000_0000_0000

  // ---------------------------------------------------------------- decimals

  predicate IsDigit(c: char) {
    '0' <= c <= '9'
  }

  predicate AllDigits(s: string) {
    forall i :: 0 <= i < |s| ==> IsDigit(s[i])
  }

  function DigitValue(c: char): (d: nat)
    requires IsDigit(c)
    ensures d < 10
  {
    c as int - '0' as int
  }

  function Digit(d: nat): (c: char)
    requires d < 10
    ensures IsDigit(c) && DigitValue(c) == d
  {
    ('0' as int + d) as char
  }

  // Decimal digits of a natural number, most significant first.
  function NatToString(n: nat): (s: string)
    ensures s != "" && AllDigits(s)
  {
    if n < 10 then [Digit(n)] else NatToString(n / 10) + [Digit(n % 10)]
  }

  // fmt's %d and %v on an int: a minus sign in front of a negative number.
  function IntToString(n: int): string {
    if n < 0 then "-" + NatToString(-n) else NatToString(n)
  }

  function DigitsValue(s: string): (v: int)
    requires AllDigits(s)
    ensures 0 <= v
  {
    if s == "" then 0 else 10 * DigitsValue(s[..|s| - 1]) + DigitValue(s[|s| - 1])
  }

  // strconv.Atoi on a 64-bit platform: one optional sign, at least one digit,
  // nothing else, and a range error outside of int64.
  function Atoi(s: string): Option<int> {
    var negative := s != "" && s[0] == '-';
    var digits := if s != "" && (s[0] == '-' || s[0] == '+') then s[1..] else s;
    if digits == "" || !AllDigits(digits) then None
    else
      var v := if negative then 0 - DigitsValue(digits) else DigitsValue(digits);
      if -INT64_LIMIT <= v < INT64_LIMIT then Some(v) else None
  }

  lemma {:induction false} PrintedValue(n: nat)
    ensures DigitsValue(NatToString(n)) == n
  {
    var s := NatToString(n);
    if n < 10 {
      assert s[..|s| - 1] == "";
    } else {
      PrintedValue(n / 10);
      assert s[..|s| - 1] == NatToString(n / 10);
    }
  }

  const DIGITS := "0123456789"

  // What decimal notation is: one digit up to nine, one more for every power
  // of ten, and a minus sign.
  lemma DecimalNotation(n: nat, d: nat)
    requires d < 10
    ensures NatToString(d) == [DIGITS[d]]
    ensures n > 0 ==> NatToString(10 * n + d) == NatToString(n) + [DIGITS[d]]
    ensures IntToString(n) == NatToString(n)
    ensures n > 0 ==> IntToString(-(n as int)) == "-" + NatToString(n)
  {
    assert DIGITS[d] == Digit(d);
  }

  lemma {:induction false} ZerosValue(zeros: string, s: string)
    requires (forall k :: 0 <= k < |zeros| ==> zeros[k] == '0') && AllDigits(s)
    ensures AllDigits(zeros + s) && DigitsValue(zeros + s) == DigitsValue(s)
    decreases |s| + |zeros|
  {
    var whole := zeros + s;
    if s != "" {
      assert whole[..|whole| - 1] == zeros + s[..|s| - 1];
      ZerosValue(zeros, s[..|s| - 1]);
    } else if zeros != "" {
      assert whole == zeros && whole[..|whole| - 1] == zeros[..|zeros| - 1] + "";
      ZerosValue(zeros[..|zeros| - 1], "");
    } else {
      assert whole == s;
    }
  }

  // A string of digits is the notation of its value, after leading zeros.
  lemma {:induction false} LeadingZeros(s: string) returns (zeros: string)
    requires s != "" && AllDigits(s)
    ensures s == zeros + NatToString(DigitsValue(s)) && forall k :: 0 <= k < |zeros| ==> zeros[k] == '0'
  {
    var front, last := s[..|s| - 1], s[|s| - 1];
    assert s == front + [last];
    if front == "" {
      assert DigitsValue(front) == 0;
      zeros := "";
    } else {
      zeros := LeadingZeros(front);
      AppendDigit(zeros, DigitsValue(front), last);
      zeros := if DigitsValue(front) == 0 then zeros + "0" else zeros;
    }
  }

  lemma AppendDigit(zeros: string, v: nat, c: char)
    requires IsDigit(c)
    ensures zeros + NatToString(v) + [c] == (if v == 0 then zeros + "0" else zeros) + NatToString(10 * v + DigitValue(c))
  {
    assert NatToString(10 * v + DigitValue(c)) == if v == 0 then [c] else NatToString(v) + [c];
  }

  // Printing is injective, so distinct numbers never share a name.
  lemma IntToStringInjective(m: int, n: int)
    requires IntToString(m) == IntToString(n)
    ensures m == n
  {
    var s, t := IntToString(m), IntToString(n);
    assert IsDigit(NatToString(if m < 0 then -m else m)[0]) && IsDigit(NatToString(if n < 0 then -n else n)[0]);
    assert (m < 0) == (s[0] == '-') && (n < 0) == (t[0] == '-');
    if m < 0 {
      assert s[1..] == NatToString(-m) && t[1..] == NatToString(-n);
      PrintedValue(-m);
      PrintedValue(-n);
    } else {
      PrintedValue(m);
      PrintedValue(n);
    }
  }

  // Atoi undoes printing on the whole non-negative int64 range.
  lemma AtoiOfPrinted(n: nat)
    requires n < INT64_LIMIT
    ensures Atoi(NatToString(n)) == Some(n)
  {
    assert IsDigit(NatToString(n)[0]);
    PrintedValue(n);
  }

  // ------------------------------------------------------- prefixes, suffixes

  predicate HasPrefix(s: string, prefix: string) {
    |prefix| <= |s| && s[..|prefix|] == prefix
  }

  predicate HasSuffix(s: string, suffix: string) {
    |suffix| <= |s| && s[|s| - |suffix|..] == suffix
  }

  // Being a prefix is to be followed by some rest, ...
  lemma PrefixIs(s: string, prefix: string)
    ensures HasPrefix(s, prefix) <==> exists rest: string :: s == prefix + rest
  {
    if HasPrefix(s, prefix) {
      assert s == prefix + s[|prefix|..];
    }
    if rest: string :| s == prefix + rest {
      assert s[..|prefix|] == prefix;
    }
  }

  // ... and being a suffix to be preceded by some front.
  lemma SuffixIs(s: string, suffix: string)
    ensures HasSuffix(s, suffix) <==> exists front: string :: s == front + suffix
  {
    if HasSuffix(s, suffix) {
      assert s == s[..|s| - |suffix|] + suffix;
    }
    if front: string :| s == front + suffix {
      assert s[|s| - |suffix|..] == suffix;
    }
  }

  lemma SuffixCancels(a: string, b: string, suffix: string)
    ensures a + suffix == b + suffix <==> a == b
  {
    if a + suffix == b + suffix {
      assert (a + suffix)[..|a|] == a && (b + suffix)[..|b|] == b;
    }
  }

  lemma PrefixCancels(prefix: string, a: string, b: string)
    ensures prefix + a == prefix + b <==> a == b
  {
    if prefix + a == prefix + b {
      assert (prefix + a)[|prefix|..] == a && (prefix + b)[|prefix|..] == b;
    }
  }

  // ------------------------------------------------------- separators

  function FirstIndex(s: string, c: char): (i: nat)
    requires c in s
    ensures i < |s| && s[i] == c && c !in s[..i]
  {
    if s[0] == c then 0 else 1 + FirstIndex(s[1..], c)
  }

  // strings.Split on a one-character separator.
  function Split(s: string, c: char): (parts: seq<string>)
    ensures parts != []
    ensures forall k :: 0 <= k < |parts| ==> c !in parts[k]
    decreases |s|
  {
    if c in s then
      var i := FirstIndex(s, c);
      [s[..i]] + Split(s[i + 1..], c)
    else [s]
  }

  function LastPart(s: string, c: char): (t: string)
    ensures c !in t
  {
    var parts := Split(s, c);
    parts[|parts| - 1]
  }

  lemma FirstIndexIs(s: string, c: char, i: nat)
    requires i < |s| && s[i] == c && c !in s[..i]
    ensures FirstIndex(s, c) == i
  {
    var j := FirstIndex(s, c);
    assert forall k :: 0 <= k < i ==> s[k] == s[..i][k];
    assert forall k :: 0 <= k < j ==> s[k] == s[..j][k];
  }

  lemma {:induction false} LastPartAfterSeparator(s: string, c: char, t: string)
    requires c !in t
    ensures LastPart(s + [c] + t, c) == t
    decreases |s|
  {
    var whole := s + [c] + t;
    assert whole[|s|] == c;
    if c in s {
      var i := FirstIndex(s, c);
      assert whole[..i] == s[..i];
      FirstIndexIs(whole, c, i);
      assert whole[i + 1..] == s[i + 1..] + [c] + t;
      LastPartAfterSeparator(s[i + 1..], c, t);
    } else {
      assert whole[..|s|] == s;
      FirstIndexIs(whole, c, |s|);
      assert whole[|s| + 1..] == t;
      assert Split(t, c) == [t];
      assert Split(whole, c) == [s] + [t];
    }
  }

  // The last part is what follows the last separator.
  lemma {:induction false} BeforeLastPart(s: string, c: char) returns (front: string)
    ensures s == front + LastPart(s, c) && (front == "" || front[|front| - 1] == c)
    decreases |s|
  {
    if c in s {
      var i := FirstIndex(s, c);
      front := BeforeLastPart(s[i + 1..], c);
      assert LastPart(s, c) == LastPart(s[i + 1..], c);
      assert s == s[..i + 1] + s[i + 1..];
      front := s[..i + 1] + front;
    } else {
      front := "";
    }
  }

  // strings.LastIndex on a one-character separator; None stands for -1.
  function LastIndex(s: string, c: char): (i: Option<nat>)
    ensures i.None? <==> c !in s
    ensures i.Some? ==> i.value < |s| && s[i.value] == c && c !in s[i.value + 1..]
  {
    if s == "" then None
    else if s[|s| - 1] == c then Some(|s| - 1)
    else
      var i := LastIndex(s[..|s| - 1], c);
      assert s == s[..|s| - 1] + [s[|s| - 1]];
      assert i.Some? ==> s[i.value + 1..] == s[..|s| - 1][i.value + 1..] + [s[|s| - 1]];
      i
  }

  lemma {:induction false} LastIndexOfJoin(s: string, c: char, t: string)
    requires c !in t
    ensures LastIndex(s + [c] + t, c) == Some(|s|)
    decreases |t|
  {
    var whole := s + [c] + t;
    if t != "" {
      assert t[|t| - 1] != c;
      assert whole[..|whole| - 1] == s + [c] + t[..|t| - 1];
      LastIndexOfJoin(s, c, t[..|t| - 1]);
    }
  }
}
