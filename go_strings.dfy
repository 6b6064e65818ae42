/**
 * The Go standard-library string functions the lint core relies on:
 * strings.Split and strings.Join with a one-character separator,
 * strings.TrimSuffix, and the decimal conversions of strconv and fmt.
 */
module GoStrings {

  // ----- strings.Split / strings.Join --------------------------------------

  /** strings.Split(s, string(sep)): the maximal pieces of s between separators. */
  function Split(s: string, sep: char): (r: seq<string>)
    ensures |r| >= 1
    ensures forall i :: 0 <= i < |r| ==> sep !in r[i]
    decreases |s|
  {
    if |s| == 0 then [""]
    else
      var rest := Split(s[1..], sep);
      if s[0] == sep then [""] + rest
      else [[s[0]] + rest[0]] + rest[1..]
  }

  /** strings.Join(xs, string(sep)). */
  function JoinWith(xs: seq<string>, sep: char): string
  {
    if |xs| == 0 then ""
    else if |xs| == 1 then xs[0]
    else xs[0] + [sep] + JoinWith(xs[1..], sep)
  }

  /** The last n elements of xs (all of them when there are fewer): xs[len(xs)-n:]. */
  function LastN<T>(xs: seq<T>, n: nat): (r: seq<T>)
  {
    if n >= |xs| then xs else xs[|xs| - n..]
  }

  /** r is a suffix of p that starts right after a separator, or is p itself. */
  predicate EndsAtBoundary(p: string, r: string, sep: char)
  {
    |r| <= |p| && p[|p| - |r|..] == r && (|r| == |p| || p[|p| - |r| - 1] == sep)
  }

  lemma {:induction false} SplitNoSep(s: string, sep: char)
    requires sep !in s
    ensures Split(s, sep) == [s]
    decreases |s|
  {
    if |s| > 0 {
      SplitNoSep(s[1..], sep);
      assert [s[0]] + s[1..] == s;
    }
  }

  /** Splitting at a separator splits the two sides independently. */
  lemma {:induction false} SplitConcat(a: string, b: string, sep: char)
    ensures Split(a + [sep] + b, sep) == Split(a, sep) + Split(b, sep)
    decreases |a|
  {
    var s := a + [sep] + b;
    if |a| == 0 {
      assert s[1..] == b;
    } else {
      assert s[1..] == a[1..] + [sep] + b;
      SplitConcat(a[1..], b, sep);
    }
  }

  /** Joining the pieces of a split gives the string back. */
  lemma {:induction false} JoinSplit(s: string, sep: char)
    ensures JoinWith(Split(s, sep), sep) == s
    decreases |s|
  {
    if |s| > 0 {
      JoinSplit(s[1..], sep);
      var rest := Split(s[1..], sep);
      if s[0] == sep {
        assert Split(s, sep) == [""] + rest;
        assert ([""] + rest)[1..] == rest;
      } else {
        var r := Split(s, sep);
        assert r == [[s[0]] + rest[0]] + rest[1..];
        if |rest| == 1 {
          assert r == [[s[0]] + rest[0]];
        } else {
          assert r[1..] == rest[1..];
          assert JoinWith(rest, sep) == rest[0] + [sep] + JoinWith(rest[1..], sep);
        }
      }
    }
  }

  /** Splitting a join of separator-free pieces gives the pieces back. */
  lemma {:induction false} SplitJoin(xs: seq<string>, sep: char)
    requires |xs| >= 1
    requires forall i :: 0 <= i < |xs| ==> sep !in xs[i]
    ensures Split(JoinWith(xs, sep), sep) == xs
    decreases |xs|
  {
    if |xs| == 1 {
      SplitNoSep(xs[0], sep);
    } else {
      SplitJoin(xs[1..], sep);
      SplitNoSep(xs[0], sep);
      SplitConcat(xs[0], JoinWith(xs[1..], sep), sep);
      assert [xs[0]] + xs[1..] == xs;
    }
  }

  lemma {:induction false} JoinConcat(a: seq<string>, b: seq<string>, sep: char)
    requires |a| >= 1 && |b| >= 1
    ensures JoinWith(a + b, sep) == JoinWith(a, sep) + [sep] + JoinWith(b, sep)
    decreases |a|
  {
    if |a| > 1 {
      JoinConcat(a[1..], b, sep);
      assert (a + b)[1..] == a[1..] + b;
    } else {
      assert (a + b)[1..] == b;
    }
  }

  /** The last k pieces of a split, joined back, are a suffix of s starting at a separator. */
  lemma {:induction false} SplitSuffix(s: string, k: nat, sep: char)
    requires 1 <= k <= |Split(s, sep)|
    ensures EndsAtBoundary(s, JoinWith(LastN(Split(s, sep), k), sep), sep)
    ensures k < |Split(s, sep)| ==> |JoinWith(LastN(Split(s, sep), k), sep)| < |s|
    decreases |s|
  {
    var r := Split(s, sep);
    if k == |r| {
      JoinSplit(s, sep);
    } else {
      // k < |r| forces s to be non-empty
      var rest := Split(s[1..], sep);
      assert LastN(r, k) == LastN(rest, k) by {
        if s[0] == sep {
          assert r == [""] + rest;
        } else {
          assert r == [[s[0]] + rest[0]] + rest[1..];
        }
      }
      var t := JoinWith(LastN(rest, k), sep);
      if k == |rest| {
        JoinSplit(s[1..], sep);
        assert t == s[1..];
        assert s[0] == sep;
        SuffixStep(s, t, sep);
      } else {
        SplitSuffix(s[1..], k, sep);
        SuffixStep(s, t, sep);
      }
    }
  }

  lemma SuffixStep(s: string, t: string, sep: char)
    requires |s| >= 1
    requires EndsAtBoundary(s[1..], t, sep)
    requires |t| == |s| - 1 ==> s[0] == sep
    ensures EndsAtBoundary(s, t, sep) && |t| < |s|
  {
    assert s[1..][|s| - 1 - |t|..] == s[|s| - |t|..];
    if |t| < |s| - 1 {
      assert s[|s| - |t| - 1] == s[1..][|s| - 1 - |t| - 1];
    }
  }

  // ----- strings.HasSuffix / strings.TrimSuffix -----------------------------

  predicate HasSuffix(s: string, suffix: string)
  {
    |suffix| <= |s| && s[|s| - |suffix|..] == suffix
  }

  function TrimSuffix(s: string, suffix: string): (r: string)
    ensures HasSuffix(s, suffix) ==> r + suffix == s
    ensures !HasSuffix(s, suffix) ==> r == s
  {
    if HasSuffix(s, suffix) then s[..|s| - |suffix|] else s
  }

  // ----- decimal numbers: strconv.Itoa, strconv.Atoi, fmt %d ----------------

  predicate IsDigit(c: char) { '0' <= c <= '9' }

  /** A non-empty string of decimal digits. */
  predicate IsDecimal(s: string)
  {
    |s| >= 1 && forall i :: 0 <= i < |s| ==> IsDigit(s[i])
  }

  /** A decimal numeral as strconv.Itoa prints it: no leading zero unless it is "0". */
  predicate IsCanonicalDecimal(s: string)
  {
    IsDecimal(s) && (s[0] != '0' || |s| == 1)
  }

  function DigitChar(d: nat): char
    requires d < 10
  {
    ('0' as int + d) as char
  }

  function DigitValue(c: char): nat
    requires IsDigit(c)
  {
    c as int - '0' as int
  }

  /** The value of a string of digits (0 for the empty string). */
  function DecimalValue(s: string): nat
    requires forall i :: 0 <= i < |s| ==> IsDigit(s[i])
  {
    if |s| == 0 then 0 else DecimalValue(s[..|s| - 1]) * 10 + DigitValue(s[|s| - 1])
  }

  /** strconv.Atoi restricted to unsigned numerals; anything else is an error, read as 0. */
  function Atoi(s: string): nat
  {
    if IsDecimal(s) then DecimalValue(s) else 0
  }

  /** strconv.Itoa / fmt "%d" on a non-negative integer. */
  function Itoa(n: nat): (r: string)
    ensures IsCanonicalDecimal(r)
  {
    if n < 10 then [DigitChar(n)] else Itoa(n / 10) + [DigitChar(n % 10)]
  }

  lemma DigitRoundTrip(d: nat)
    requires d < 10
    ensures IsDigit(DigitChar(d)) && DigitValue(DigitChar(d)) == d
  {
    assert DigitChar(d) as int == '0' as int + d;
  }

  /** strings.Split at the first separator of a separator-free head. */
  lemma SplitCons(a: string, rest: string, sep: char)
    requires sep !in a
    ensures Split(a + [sep] + rest, sep) == [a] + Split(rest, sep)
  {
    SplitNoSep(a, sep);
    SplitConcat(a, rest, sep);
  }

  /** Printing then parsing a number gives it back. */
  lemma {:induction false} AtoiItoa(n: nat)
    ensures Atoi(Itoa(n)) == n
  {
    var s := Itoa(n);
    if n >= 10 {
      AtoiItoa(n / 10);
      assert s == Itoa(n / 10) + [DigitChar(n % 10)];
      assert s[..|s| - 1] == Itoa(n / 10);
      DigitRoundTrip(n % 10);
      assert DecimalValue(s) == (n / 10) * 10 + n % 10;
    } else {
      assert s == [DigitChar(n)];
      assert s[..|s| - 1] == [];
      DigitRoundTrip(n);
      assert DecimalValue(s) == DigitValue(s[0]);
    }
  }

  lemma ItoaInjective(m: nat, n: nat)
    ensures Itoa(m) == Itoa(n) <==> m == n
  {
    AtoiItoa(m);
    AtoiItoa(n);
  }

  lemma {:induction false} LeadingNonZeroPositive(s: string)
    requires IsDecimal(s) && s[0] != '0'
    ensures DecimalValue(s) >= 1
    decreases |s|
  {
    if |s| > 1 {
      LeadingNonZeroPositive(s[..|s| - 1]);
    }
  }

  /** Parsing then printing a canonical numeral gives it back. */
  lemma {:induction false} ItoaAtoi(s: string)
    requires IsCanonicalDecimal(s)
    ensures Itoa(DecimalValue(s)) == s
    decreases |s|
  {
    var t := s[..|s| - 1];
    var d := DigitValue(s[|s| - 1]);
    if |s| == 1 {
      assert DecimalValue(s) == d;
      assert [DigitChar(d)] == s;
    } else {
      ItoaAtoi(t);
      LeadingNonZeroPositive(t);
      var n := DecimalValue(s);
      assert n == DecimalValue(t) * 10 + d;
      assert n / 10 == DecimalValue(t) && n % 10 == d;
      assert t + [s[|s| - 1]] == s;
    }
  }

  /** The value of a concatenation of digit strings. */
  lemma {:induction false} DecimalConcat(a: string, b: string)
    requires forall i :: 0 <= i < |a| ==> IsDigit(a[i])
    requires forall i :: 0 <= i < |b| ==> IsDigit(b[i])
    ensures DecimalValue(a + b) == DecimalValue(a) * Pow10(|b|) + DecimalValue(b)
    decreases |b|
  {
    if |b| == 0 {
      assert a + b == a;
    } else {
      var ab := a + b;
      var front := b[..|b| - 1];
      assert ab[..|ab| - 1] == a + front;
      assert ab[|ab| - 1] == b[|b| - 1];
      DecimalConcat(a, front);
      var x, y, d, q := DecimalValue(a), DecimalValue(front), DigitValue(b[|b| - 1]), Pow10(|b| - 1);
      assert DecimalValue(ab) == (x * q + y) * 10 + d;
      assert DecimalValue(b) == y * 10 + d;
      assert Pow10(|b|) == 10 * q;
      ShiftDigit(x, q, y, d);
    }
  }

  /** Appending a digit to the lower part of a number shifts both parts by one place. */
  lemma ShiftDigit(x: int, q: int, y: int, d: int)
    ensures (x * q + y) * 10 + d == x * (10 * q) + (y * 10 + d)
  {
    assert (x * q) * 10 == x * (10 * q);
  }

  function Pow10(k: nat): nat
  {
    if k == 0 then 1 else 10 * Pow10(k - 1)
  }

  /** A string of zeros. */
  function Zeros(k: nat): (r: string)
    ensures |r| == k && forall i :: 0 <= i < k ==> r[i] == '0'
  {
    if k == 0 then "" else "0" + Zeros(k - 1)
  }

  lemma {:induction false} ZerosValue(k: nat)
    ensures DecimalValue(Zeros(k)) == 0
  {
    if k > 0 {
      assert Zeros(k)[..k - 1] == Zeros(k - 1) by {
        assert Zeros(k) == Zeros(k - 1) + "0" by { ZerosSnoc(k); }
      }
      ZerosValue(k - 1);
    }
  }

  lemma {:induction false} ZerosSnoc(k: nat)
    requires k > 0
    ensures Zeros(k) == Zeros(k - 1) + "0"
  {
    if k > 1 {
      ZerosSnoc(k - 1);
    }
  }

  /** A number has at least four digits exactly when it is at least 1000. */
  lemma ItoaLength(n: nat)
    ensures |Itoa(n)| >= 4 <==> n >= 1000
  {
    if n >= 10 {
      assert |Itoa(n)| == |Itoa(n / 10)| + 1;
      if n / 10 >= 10 {
        assert |Itoa(n / 10)| == |Itoa(n / 100)| + 1;
        if n / 100 >= 10 {
          assert |Itoa(n / 100)| == |Itoa(n / 1000)| + 1;
        }
      }
    }
  }

  /** Printing n/1000 gives the printed n without its last three digits. */
  lemma ItoaThousands(n: nat)
    requires n >= 1000
    ensures |Itoa(n)| >= 4
    ensures Itoa(n)[..|Itoa(n)| - 3] == Itoa(n / 1000)
  {
    ItoaLength(n);
    assert n / 10 / 10 == n / 100;
    assert n / 100 / 10 == n / 1000;
    var a := Itoa(n / 1000);
    assert Itoa(n / 100) == a + [DigitChar(n / 100 % 10)];
    assert Itoa(n / 10) == a + [DigitChar(n / 100 % 10)] + [DigitChar(n / 10 % 10)];
    assert Itoa(n) == a + [DigitChar(n / 100 % 10)] + [DigitChar(n / 10 % 10)] + [DigitChar(n % 10)];
  }

  /** Dropping the last three digits of a numeral divides its value by 1000. */
  lemma DropThreeDigits(s: string)
    requires |s| >= 3
    requires forall i :: 0 <= i < |s| ==> IsDigit(s[i])
    ensures DecimalValue(s) / 1000 == DecimalValue(s[..|s| - 3])
  {
    var n := |s|;
    assert s[..n - 1][..n - 2] == s[..n - 2];
    assert s[..n - 2][..n - 3] == s[..n - 3];
    var a := DecimalValue(s[..n - 3]);
    var d1, d2, d3 := DigitValue(s[n - 3]), DigitValue(s[n - 2]), DigitValue(s[n - 1]);
    assert DecimalValue(s[..n - 2]) == a * 10 + d1;
    assert DecimalValue(s[..n - 1]) == (a * 10 + d1) * 10 + d2;
    assert DecimalValue(s) == a * 1000 + (d1 * 100 + d2 * 10 + d3);
  }
}
