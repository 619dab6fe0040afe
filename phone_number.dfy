/** The `validate` body of the `IsPhoneNumber` decorator: accepts the Uzbek
    format `+998XXXXXXXXX` through four checks on the string's JS number
    value, its length and its first four characters.

    JS `Number(s)` is modelled by NumberTruthy, a simplified grammar: ASCII
    white space at either end is trimmed, then an optional sign and a
    decimal literal of digits with at most one `.`; exponents, hexadecimal,
    octal and binary literals, `Infinity` and underflow to zero are not part
    of it. */
module PhoneNumber {
  import opened Text

  predicate IsJsSpace(c: char)
  {
    c == ' ' || c == '\t' || c == '\n' || c == '\r' || c == '\U{000B}' || c == '\U{000C}'
  }

  /** `s` without its leading blanks. */
  function TrimStart(s: string): (r: string)
    ensures |r| <= |s|
    ensures r != [] ==> !IsJsSpace(r[0])
  {
    if s != [] && IsJsSpace(s[0]) then TrimStart(s[1..]) else s
  }

  /** `s` without its trailing blanks. */
  function TrimEnd(s: string): (r: string)
    ensures |r| <= |s|
    ensures r != [] ==> !IsJsSpace(r[|r| - 1])
  {
    if s != [] && IsJsSpace(s[|s| - 1]) then TrimEnd(s[..|s| - 1]) else s
  }

  /** TrimStart cuts blanks only: it leaves a suffix of `s`. */
  lemma {:induction false} TrimStartSlice(s: string)
    ensures TrimStart(s) == s[|s| - |TrimStart(s)|..]
    ensures forall i :: 0 <= i < |s| - |TrimStart(s)| ==> IsJsSpace(s[i])
  {
    if s != [] && IsJsSpace(s[0]) {
      TrimStartSlice(s[1..]);
      forall i | 1 <= i < |s| - |TrimStart(s)| ensures IsJsSpace(s[i]) {
        assert s[i] == s[1..][i - 1];
      }
    }
  }

  /** TrimEnd cuts blanks only: it leaves a prefix of `s`. */
  lemma {:induction false} TrimEndSlice(s: string)
    ensures TrimEnd(s) == s[..|TrimEnd(s)|]
    ensures forall i :: |TrimEnd(s)| <= i < |s| ==> IsJsSpace(s[i])
  {
    if s != [] && IsJsSpace(s[|s| - 1]) {
      TrimEndSlice(s[..|s| - 1]);
      forall i | |TrimEnd(s)| <= i < |s| - 1 ensures IsJsSpace(s[i]) {
        assert s[i] == s[..|s| - 1][i];
      }
    }
  }

  /** The trimming `Number` applies first: what remains neither starts nor
      ends with a blank. */
  function Trim(s: string): (r: string)
    ensures r == [] || (!IsJsSpace(r[0]) && !IsJsSpace(r[|r| - 1]))
  {
    TrimEndSlice(TrimStart(s));
    TrimEnd(TrimStart(s))
  }

  /** Trim cuts blanks only: what remains is the slice of `s` after its
      `a` leading blanks, and everything after that slice is blank too. */
  lemma TrimSlice(s: string) returns (a: nat)
    ensures a + |Trim(s)| <= |s| && Trim(s) == s[a..a + |Trim(s)|]
    ensures forall i :: 0 <= i < a ==> IsJsSpace(s[i])
    ensures forall i :: a + |Trim(s)| <= i < |s| ==> IsJsSpace(s[i])
  {
    var t := TrimStart(s);
    TrimStartSlice(s);
    TrimEndSlice(t);
    a := |s| - |t|;
    forall i | a + |Trim(s)| <= i < |s| ensures IsJsSpace(s[i]) {
      assert s[i] == t[i - a];
    }
  }

  /** Digits with at most one decimal point, and at least one digit. */
  predicate IsDecimalLiteral(s: string)
  {
    && (exists i :: 0 <= i < |s| && IsDigit(s[i]))
    && (forall i :: 0 <= i < |s| ==> IsDigit(s[i]) || s[i] == '.')
    && (forall i, j :: 0 <= i < j < |s| && s[i] == '.' ==> s[j] != '.')
  }

  predicate HasNonZeroDigit(s: string)
  {
    exists i :: 0 <= i < |s| && '1' <= s[i] <= '9'
  }

  function Unsigned(t: string): string
  {
    if |t| > 0 && (t[0] == '+' || t[0] == '-') then t[1..] else t
  }

  /** `!!Number(s)`: the string is a number other than 0 (and not NaN). The
      empty and all-blank strings are 0, hence falsy. */
  predicate NumberTruthy(s: string)
    ensures NumberTruthy(s) ==> exists i :: 0 <= i < |s| && '1' <= s[i] <= '9'
    ensures NumberTruthy(s) ==>
      forall i :: 0 <= i < |s| ==> IsDigit(s[i]) || s[i] == '.' || s[i] == '+' || s[i] == '-' || IsJsSpace(s[i])
  {
    NumberCharacters(s);
    var body := Unsigned(Trim(s));
    IsDecimalLiteral(body) && HasNonZeroDigit(body)
  }

  /** Every character of `s` is a blank, the sign, or a character of the
      trimmed, unsigned body, which is a slice of `s`. */
  lemma NumberCharacters(s: string)
    ensures forall i :: 0 <= i < |Unsigned(Trim(s))| ==> Unsigned(Trim(s))[i] in s
    ensures forall i :: 0 <= i < |s| ==>
      IsJsSpace(s[i]) || s[i] == '+' || s[i] == '-' || s[i] in Unsigned(Trim(s))
  {
    var r := Trim(s);
    var body := Unsigned(r);
    var a := TrimSlice(s);
    var k := |r| - |body|;
    assert body == r[k..];
    forall i | 0 <= i < |body| ensures body[i] in s {
      assert body[i] == s[a + k + i];
    }
    forall i | a <= i < a + |r| ensures s[i] == '+' || s[i] == '-' || s[i] in body {
      if i >= a + k {
        assert s[i] == body[i - a - k];
      }
    }
  }

  /** `validate(value)`, for string values (any other JS value has no
      `length` of 13 and is rejected). */
  predicate Validate(value: string)
    ensures Validate(value) ==> |value| == 13 && value[..4] == "+998"
    ensures Validate(value) ==> NumberTruthy(value[4..]) && NumberTruthy(value)
  {
    if !NumberTruthy(value) then false
    else if |value| != 13 then false
    else if value[..4] != "+998" then false
    else if !NumberTruthy(value[4..]) then false
    else true
  }

  /** A string that neither starts nor ends with white space trims to itself. */
  lemma TrimUnchanged(s: string)
    requires s != [] && !IsJsSpace(s[0]) && !IsJsSpace(s[|s| - 1])
    ensures Trim(s) == s
  {
  }

  /** A digit string's number value is truthy exactly when some digit is not 0. */
  lemma DigitsTruthy(s: string)
    requires s != [] && AllDigits(s)
    ensures NumberTruthy(s) <==> HasNonZeroDigit(s)
  {
    TrimUnchanged(s);
    assert IsDigit(s[0]);
    assert Unsigned(s) == s;
  }

  /** Digits put in front of a string of at least two characters keep it a
      decimal literal, or keep it not one. */
  lemma DigitsBeforeLiteral(p: string, d: string)
    requires AllDigits(p) && |d| >= 2
    ensures IsDecimalLiteral(p + d) <==> IsDecimalLiteral(d)
  {
    var s := p + d;
    assert forall i :: 0 <= i < |p| ==> s[i] == p[i];
    assert forall i :: 0 <= i < |d| ==> s[|p| + i] == d[i];
    if IsDecimalLiteral(s) {
      assert forall i, j :: 0 <= i < j < |d| && d[i] == '.' ==> s[|p| + i] == '.' && d[j] == s[|p| + j];
      assert IsDigit(d[0]) || IsDigit(d[1]);
    }
    if IsDecimalLiteral(d) {
      forall i | 0 <= i < |s| ensures IsDigit(s[i]) || s[i] == '.' {
        if i >= |p| {
          assert s[i] == d[i - |p|];
        }
      }
      forall i, j | 0 <= i < j < |s| && s[i] == '.' ensures s[j] != '.' {
        assert i >= |p|;
        assert s[i] == d[i - |p|] && s[j] == d[j - |p|];
      }
      var k :| 0 <= k < |d| && IsDigit(d[k]);
      assert IsDigit(s[|p| + k]);
    }
  }

  /** For a nine-character suffix that starts with a digit or a point and
      does not end in white space, `validate` accepts `+998` and the suffix
      exactly when the suffix is a decimal literal other than 0. */
  lemma SuffixDecides(d: string)
    requires |d| == 9 && (IsDigit(d[0]) || d[0] == '.') && !IsJsSpace(d[8])
    ensures Validate("+998" + d) <==> IsDecimalLiteral(d) && HasNonZeroDigit(d)
  {
    var v := "+998" + d;
    assert v[..4] == "+998";
    assert v[4..] == d;
    assert v[12] == d[8];
    TrimUnchanged(v);
    TrimUnchanged(d);
    assert Unsigned(d) == d;
    assert Unsigned(v) == "998" + d;
    DigitsBeforeLiteral("998", d);
    assert ("998" + d)[0] == '9';
  }

  /** `+998` followed by nine digits is accepted exactly when the nine
      digits are not all 0. */
  lemma NineDigitsAccepted(d: string)
    requires |d| == 9 && AllDigits(d)
    ensures Validate("+998" + d) <==> HasNonZeroDigit(d)
  {
    assert IsDigit(d[0]) && IsDigit(d[8]);
    assert IsDecimalLiteral(d);
    SuffixDecides(d);
  }

  /** Every value of the wrong length is rejected, e.g. `+99890123456`. */
  lemma WrongLengthRejected(v: string)
    requires |v| != 13
    ensures !Validate(v)
  {
  }

  /** Every value not starting with `+998` is rejected, e.g. `+997901234567`. */
  lemma WrongPrefixRejected(v: string)
    requires |v| < 4 || v[..4] != "+998"
    ensures !Validate(v)
  {
  }

  /** `+998000000000`: the suffix is 0, so it is rejected. */
  lemma AllZeroSuffixRejected()
    ensures !Validate("+998000000000")
  {
    var v := "+998000000000";
    var d := v[4..];
    assert forall i :: 0 <= i < |d| ==> d[i] == '0';
    assert v == "+998" + d;
    NineDigitsAccepted(d);
  }

  /** `+99812345678x`: the whole string is NaN, so it is rejected. */
  lemma TrailingLetterRejected()
    ensures !Validate("+99812345678x")
  {
    var v := "+99812345678x";
    TrimUnchanged(v);
    assert Unsigned(v)[11] == 'x';
  }

  /** Digits, a point, digits: a decimal literal. */
  lemma PointLiteral(a: string, b: string)
    requires a != [] && AllDigits(a) && AllDigits(b)
    ensures IsDecimalLiteral(a + "." + b)
  {
    var s := a + "." + b;
    assert forall i :: 0 <= i < |a| ==> s[i] == a[i];
    assert s[|a|] == '.';
    assert forall i :: 0 <= i < |b| ==> s[|a| + 1 + i] == b[i];
    assert IsDigit(s[0]);
    forall i | 0 <= i < |s| ensures IsDigit(s[i]) || s[i] == '.' {
      if i > |a| {
        assert s[i] == s[|a| + 1 + (i - |a| - 1)];
      }
    }
  }

  /** A fractional suffix passes every check: `+9981234.5678` is accepted. */
  lemma FractionAccepted()
    ensures Validate("+9981234.5678")
  {
    var d := "1234" + "." + "5678";
    assert "+9981234.5678" == "+998" + d;
    PointLiteral("1234", "5678");
    assert d[0] == '1';
    SuffixDecides(d);
  }

  /** One trailing blank after a non-blank is trimmed away. */
  lemma TrimOneTrailingSpace(s: string)
    requires |s| >= 2 && s[|s| - 1] == ' ' && !IsJsSpace(s[0]) && !IsJsSpace(s[|s| - 2])
    ensures Trim(s) == s[..|s| - 1]
  {
    TrimUnchanged(s[..|s| - 1]);
  }

  /** White space at the end is trimmed by both number conversions: `+998`,
      eight digits and a blank is accepted when the digits are not all 0. */
  lemma TrailingSpaceAccepted(e: string)
    requires |e| == 8 && AllDigits(e) && HasNonZeroDigit(e)
    ensures Validate("+998" + e + " ")
  {
    var v := "+998" + e + " ";
    assert v[..12] == "+998" + e;
    assert v[12] == ' ' && v[11] == e[7];
    TrimOneTrailingSpace(v);
    var d := v[4..];
    assert d == e + " " by {
      assert |d| == 9;
      forall i | 0 <= i < 9 ensures d[i] == (e + " ")[i] {
        assert d[i] == v[i + 4];
      }
    }
    assert d[..8] == e;
    assert d[0] == e[0] && d[7] == e[7];
    TrimOneTrailingSpace(d);
    assert IsDigit(e[0]) && IsDecimalLiteral(e);
    assert Unsigned(e) == e;
    assert Unsigned("+998" + e) == "998" + e;
    DigitsBeforeLiteral("998", e);
    assert ("998" + e)[0] == '9';
  }

  /** The format the decorator's message asks for: `+998` and nine digits,
      not all 0. */
  predicate IsStrictPhoneNumber(value: string)
    ensures IsStrictPhoneNumber(value) ==>
      |value| == 13 && value[0] == '+' && forall i :: 1 <= i < 13 ==> IsDigit(value[i])
  {
    |value| == 13 && value[..4] == "+998" && AllDigits(value[4..]) && HasNonZeroDigit(value[4..])
  }

  /** The strict check is `validate` restricted to a digit suffix: the two
      agree on every value whose last nine characters are digits, and the
      strict one rejects every other value. */
  lemma StrictIsValidateOnDigits(v: string)
    ensures IsStrictPhoneNumber(v) <==> Validate(v) && |v| == 13 && AllDigits(v[4..])
  {
    if |v| == 13 && v[..4] == "+998" && AllDigits(v[4..]) {
      assert v == "+998" + v[4..];
      NineDigitsAccepted(v[4..]);
    }
  }

  /** The fraction `validate` lets through is rejected by the strict check. */
  lemma StrictRejectsFraction()
    ensures !IsStrictPhoneNumber("+9981234.5678")
  {
    assert "+9981234.5678"[8] == '.';
  }
}
