/** Strings as the services build them: prefixes (the `*` glob of a Redis
    KEYS pattern) and the decimal rendering of a number inside a template
    literal. */
module Text {

  /** `prefix` is a prefix of `s`: the keys a Redis pattern `prefix*` matches. */
  predicate HasPrefix(prefix: string, s: string)
  {
    |prefix| <= |s| && s[..|prefix|] == prefix
  }

  predicate IsDigit(c: char)
  {
    '0' <= c <= '9'
  }

  predicate AllDigits(s: string)
  {
    forall i :: 0 <= i < |s| ==> IsDigit(s[i])
  }

  function DigitChar(d: nat): (c: char)
    requires d < 10
    ensures IsDigit(c) && c as int - '0' as int == d
  {
    ('0' as int + d) as char
  }

  /** The decimal text of a non-negative integer, as `${n}` renders it:
      no sign, no leading zero. */
  function NatToString(n: nat): (s: string)
    ensures |s| >= 1 && AllDigits(s)
    ensures |s| > 1 ==> s[0] != '0'
    ensures ':' !in s
    decreases n
  {
    if n < 10 then [DigitChar(n)] else NatToString(n / 10) + [DigitChar(n % 10)]
  }

  /** The value of a string of decimal digits (the inverse of NatToString). */
  function DigitsValue(s: string): nat
    requires AllDigits(s)
  {
    if s == [] then 0 else DigitsValue(s[..|s| - 1]) * 10 + (s[|s| - 1] as int - '0' as int)
  }

  lemma {:induction false} NatToStringRoundTrip(n: nat)
    ensures DigitsValue(NatToString(n)) == n
  {
    if n >= 10 {
      var s := NatToString(n);
      assert s[..|s| - 1] == NatToString(n / 10);
      NatToStringRoundTrip(n / 10);
    }
  }

  lemma NatToStringInjective(m: nat, n: nat)
    requires NatToString(m) == NatToString(n)
    ensures m == n
  {
    NatToStringRoundTrip(m);
    NatToStringRoundTrip(n);
  }

  /** In `a + [sep] + x` with `sep` not in `a`, the first `sep` is at `|a|`. */
  lemma FirstSeparator(a: string, x: string, sep: char)
    requires sep !in a
    ensures (a + [sep] + x)[|a|] == sep
    ensures forall i :: 0 <= i < |a| ==> (a + [sep] + x)[i] != sep
  {
    forall i | 0 <= i < |a| ensures (a + [sep] + x)[i] != sep {
      assert (a + [sep] + x)[i] == a[i];
    }
  }

  /** Two strings glued to a separator that neither head contains split
      back into the same heads and tails. */
  lemma SplitAtSeparator(a: string, x: string, b: string, y: string, sep: char)
    requires sep !in a && sep !in b
    requires a + [sep] + x == b + [sep] + y
    ensures a == b && x == y
  {
    var s := a + [sep] + x;
    FirstSeparator(a, x, sep);
    FirstSeparator(b, y, sep);
    assert |a| == |b|;
    assert a == s[..|a|];
    assert b == s[..|b|];
    assert x == s[|a| + 1..];
    assert y == s[|b| + 1..];
  }
}
