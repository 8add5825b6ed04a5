/** Printing and reading decimal numbers in the firmware's own library. */
module Decimal {
  import opened Bytes

  datatype Option<+T> = None | Some(value: T)

  const NUL: char := '\0'
  /** The largest value of the signed integer that the reader accumulates in. */
  const INT_MAX := 0x7fff_ffff

  predicate IsDigit(c: char) {
    '0' <= c <= '9'
  }

  function DigitOf(c: char): nat
    requires IsDigit(c)
  {
    c as int - '0' as int
  }

  function CharOf(d: nat): (c: char)
    requires d < 10
    ensures IsDigit(c) && DigitOf(c) == d
  {
    ('0' as int + d) as char
  }

  predicate AllDigits(s: string) {
    forall i :: 0 <= i < |s| ==> IsDigit(s[i])
  }

  /** The number a string of digits denotes. */
  function Value(s: string): nat
    requires AllDigits(s)
  {
    if s == [] then 0 else 10 * Value(s[..|s| - 1]) + DigitOf(s[|s| - 1])
  }

  /** The canonical digits of a number. */
  function Digits(n: nat): (s: string)
    ensures s != [] && AllDigits(s)
  {
    if n < 10 then [CharOf(n)] else Digits(n / 10) + [CharOf(n % 10)]
  }

  lemma {:induction false} ValueOfDigits(n: nat)
    ensures Value(Digits(n)) == n
    ensures Digits(n)[0] == '0' <==> n == 0
  {
    if n >= 10 {
      ValueOfDigits(n / 10);
      assert Digits(n)[..|Digits(n)| - 1] == Digits(n / 10);
    }
  }

  /** Canonical digits are the only ones without a leading zero that denote the number. */
  lemma {:induction false} DigitsUnique(s: string)
    requires s != [] && AllDigits(s) && (s[0] == '0' ==> |s| == 1)
    ensures Digits(Value(s)) == s
    decreases |s|
  {
    var front := s[..|s| - 1];
    if front != [] {
      DigitsUnique(front);
      assert s == front + [s[|s| - 1]];
      assert Value(s) / 10 == Value(front) && Value(s) % 10 == DigitOf(s[|s| - 1]);
    }
  }

  /** Print `num` into `str`; the number of slots needed includes the final NUL, and too few of them halt. */
  method Uitoa(num: uint64, str: array<char>) returns (halted: bool)
    modifies str
    ensures halted <==> str.Length <= |Digits(num)|
    ensures halted ==> str[..] == old(str[..])
    ensures !halted ==> str[..] == Digits(num) + [NUL] + old(str[..])[|Digits(num)| + 1..]
  {
    var length := 1;
    var tmp: int := num / 10;
    while tmp != 0
      invariant 0 <= tmp && length + (if tmp == 0 then 0 else |Digits(tmp)|) == |Digits(num)|
      decreases tmp
    {
      length := length + 1;
      tmp := tmp / 10;
    }
    if str.Length <= length {
      return true;
    }
    str[length] := NUL;
    var i := length - 1;
    var n: int := num;
    ghost var digits := Digits(num);
    while i >= 0
      invariant -1 <= i < length && 0 <= n && (i >= 0 ==> Digits(n) == digits[..i + 1])
      invariant forall k :: i < k < length ==> str[k] == digits[k]
      invariant str[length] == NUL && str[length + 1..] == old(str[length + 1..])
    {
      str[i] := CharOf(n % 10);
      assert Digits(n)[i] == CharOf(n % 10);
      assert i > 0 ==> Digits(n / 10) == Digits(n)[..i];
      n := n / 10;
      i := i - 1;
    }
    assert str[..length] == digits;
    return false;
  }

  /** The part of `s` from `i` on up to the first character that is not a digit. */
  function DigitsFrom(s: string, i: nat): (d: string)
    requires i <= |s|
    ensures AllDigits(d)
    decreases |s| - i
  {
    if i < |s| && IsDigit(s[i]) then [s[i]] + DigitsFrom(s, i + 1) else []
  }

  function SpacesFrom(s: string, i: nat): (j: nat)
    requires i <= |s|
    ensures i <= j <= |s|
    decreases |s| - i
  {
    if i < |s| && s[i] == ' ' then SpacesFrom(s, i + 1) else i
  }

  /** The digits that count: those after any leading spaces. */
  function Significant(s: string): string {
    DigitsFrom(s, SpacesFrom(s, 0))
  }

  /** No sum on the way leaves the signed range; the character code is added before '0' is taken off. */
  predicate Fits(d: string)
    requires AllDigits(d)
  {
    d == [] || Value(d) + '0' as int <= INT_MAX
  }

  lemma {:induction false} ValueAppend(a: string, b: string)
    requires AllDigits(a) && AllDigits(b)
    ensures AllDigits(a + b) && Value(a + b) >= Value(a)
    decreases |b|
  {
    if b == [] {
      assert a + b == a;
    } else {
      var last := |b| - 1;
      assert (a + b)[..|a| + last] == a + b[..last];
      ValueAppend(a, b[..last]);
    }
  }

  /** Read a number from a NUL-terminated string; None where the accumulation overflows, which C leaves undefined. */
  method Atoui(s: string) returns (r: Option<nat>)
    requires NUL in s
    ensures r.Some? <==> Fits(Significant(s))
    ensures r.Some? ==> r.value == Value(Significant(s))
  {
    var val := 0;
    if s[0] == NUL {
      return Some(0);
    }
    var i := 0;
    while s[i] == ' '
      invariant 0 <= i < |s| && NUL in s[i..] && SpacesFrom(s, i) == SpacesFrom(s, 0)
      decreases |s| - i
    {
      i := i + 1;
    }
    ghost var read: string := [];
    while s[i] != NUL
      invariant 0 <= i < |s| && NUL in s[i..] && AllDigits(read)
      invariant Significant(s) == read + DigitsFrom(s, i)
      invariant val == Value(read) && Fits(read)
      decreases |s| - i
    {
      if !IsDigit(s[i]) {
        assert read + DigitsFrom(s, i) == read;
        return Some(val);
      }
      ghost var more := read + [s[i]];
      assert more[..|read|] == read;
      assert Significant(s) == more + DigitsFrom(s, i + 1);
      if val * 10 + s[i] as int > INT_MAX {
        ValueAppend(more, DigitsFrom(s, i + 1));
        return None;
      }
      val := val * 10 + s[i] as int - '0' as int;
      read := more;
      i := i + 1;
    }
    assert read + DigitsFrom(s, i) == read;
    return Some(val);
  }

  /** Reading back what was printed gives the number exactly up to 48 below the largest integer, after any spaces. */
  lemma PrintedReadsBack(n: nat, spaces: nat)
    ensures var s := seq(spaces, _ => ' ') + Digits(n) + [NUL];
      NUL in s && Value(Significant(s)) == n && (Fits(Significant(s)) <==> n <= 2147483599)
  {
    var blank := seq(spaces, _ => ' ');
    var s := blank + Digits(n) + [NUL];
    assert s[|s| - 1] == NUL;
    SpacesEnd(s, 0, spaces);
    DigitsEnd(s, spaces, Digits(n));
    ValueOfDigits(n);
  }

  lemma {:induction false} SpacesEnd(s: string, i: nat, n: nat)
    requires i <= n < |s| && s[n] != ' ' && forall k :: i <= k < n ==> s[k] == ' '
    ensures SpacesFrom(s, i) == n
    decreases n - i
  {
    if i < n {
      SpacesEnd(s, i + 1, n);
    }
  }

  lemma {:induction false} DigitsEnd(s: string, i: nat, d: string)
    requires AllDigits(d) && i + |d| < |s| && s[i..i + |d|] == d && !IsDigit(s[i + |d|])
    ensures DigitsFrom(s, i) == d
    decreases |d|
  {
    if d != [] {
      assert s[i + 1..i + 1 + |d[1..]|] == d[1..];
      DigitsEnd(s, i + 1, d[1..]);
    }
  }
}
