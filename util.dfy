/**
 * The slice helpers of util.go: UniqStrings compacts a slice in place,
 * keeping the first occurrence of every value, and SortUniqStrings sorts
 * the slice and then compacts it.  A Go slice is an array together with
 * the length the function returns.
 */
module Util {
  import opened StringOrder

  /** No value occurs twice. */
  predicate NoDuplicates<T(==)>(s: seq<T>)
  {
    forall i, j :: 0 <= i < j < |s| ==> s[i] != s[j]
  }

  /** Index of the first occurrence of x in s. */
  function FirstIndex(s: seq<string>, x: string): (k: nat)
    requires x in s
    ensures k < |s| && s[k] == x && x !in s[..k]
  {
    if s[0] == x then 0 else FirstIndex(s[1..], x) + 1
  }

  /**
   * What UniqStrings leaves in the front of the slice: the input read from
   * left to right, each value kept the first time it is seen.
   */
  function Uniq(s: seq<string>): (r: seq<string>)
    ensures |r| <= |s|
    ensures forall x :: x in r <==> x in s
    ensures NoDuplicates(r)
  {
    if s == [] then []
    else
      var r0 := Uniq(s[..|s| - 1]);
      var v := s[|s| - 1];
      assert forall x :: x in s <==> x in s[..|s| - 1] || x == v by {
        assert s == s[..|s| - 1] + [v];
      }
      if v in r0 then r0 else r0 + [v]
  }

  /** Uniq keeps first occurrences in their original relative order. */
  lemma {:induction false} UniqKeepsFirstOrder(s: seq<string>)
    ensures forall i, j :: 0 <= i < j < |Uniq(s)| ==>
      FirstIndex(s, Uniq(s)[i]) < FirstIndex(s, Uniq(s)[j])
  {
    if s != [] {
      var p := s[..|s| - 1];
      var v := s[|s| - 1];
      UniqKeepsFirstOrder(p);
      var r := Uniq(s);
      forall i, j | 0 <= i < j < |r|
        ensures FirstIndex(s, r[i]) < FirstIndex(s, r[j])
      {
        FirstIndexPrefix(s, r[i]);
        if j < |Uniq(p)| {
          FirstIndexPrefix(s, r[j]);
        } else {
          // r[j] is v, seen for the first time at the last position
          assert r[j] == v && v !in p;
          forall k | 0 <= k < |s| - 1
            ensures s[k] != v
          {
            assert s[k] == p[k];
          }
        }
      }
    }
  }

  /** First occurrences in s of values of its front part are found in the front part. */
  lemma FirstIndexPrefix(s: seq<string>, x: string)
    requires s != [] && x in s[..|s| - 1]
    ensures FirstIndex(s, x) == FirstIndex(s[..|s| - 1], x)
  {
    if s[0] != x {
      assert s[1..][..|s[1..]| - 1] == s[..|s| - 1][1..];
      FirstIndexPrefix(s[1..], x);
    }
  }

  /** A duplicate-free input is left as it is. */
  lemma {:induction false} UniqOfDistinct(s: seq<string>)
    requires NoDuplicates(s)
    ensures Uniq(s) == s
  {
    if s != [] {
      var p := s[..|s| - 1];
      UniqOfDistinct(p);
      assert s[|s| - 1] !in p;
      assert s == p + [s[|s| - 1]];
    }
  }

  /** Compacting a sorted sequence yields a strictly increasing one. */
  lemma {:induction false} UniqOfSorted(s: seq<string>)
    requires Sorted(s)
    ensures StrictlySorted(Uniq(s))
  {
    if s != [] {
      var p := s[..|s| - 1];
      var v := s[|s| - 1];
      assert Sorted(p);
      UniqOfSorted(p);
      var r0 := Uniq(p);
      if v !in r0 {
        forall i | 0 <= i < |r0|
          ensures Less(r0[i], v)
        {
          assert r0[i] in p;
          var k :| 0 <= k < |p| && p[k] == r0[i];
          assert !Less(v, s[k]);
          LessTotal(r0[i], v);
        }
        var r := r0 + [v];
        forall i, j | 0 <= i < j < |r|
          ensures Less(r[i], r[j])
        {
          if j < |r0| {
            assert r[i] == r0[i] && r[j] == r0[j];
          }
        }
      }
    }
  }

  /** Insertion of x in front of the first value that is not below it. */
  function Insert(x: string, t: seq<string>): (r: seq<string>)
    ensures multiset(r) == multiset(t) + multiset{x}
  {
    if t == [] then [x]
    else if !Less(t[0], x) then [x] + t
    else
      assert t == [t[0]] + t[1..];
      [t[0]] + Insert(x, t[1..])
  }

  /** Insertion into a sorted sequence keeps it sorted. */
  lemma {:induction false} InsertSorted(x: string, t: seq<string>)
    requires Sorted(t)
    ensures Sorted(Insert(x, t))
  {
    var r := Insert(x, t);
    if t == [] {
    } else if !Less(t[0], x) {
      forall i, j | 0 <= i < j < |r|
        ensures !Less(r[j], r[i])
      {
        if i == 0 && j > 1 && Less(r[j], x) {
          assert !Less(r[j], t[0]);
          LessTotal(t[0], r[j]);
          if t[0] != r[j] {
            LessTransitive(t[0], r[j], x);
          }
        }
      }
    } else {
      var rest := Insert(x, t[1..]);
      assert Sorted(t[1..]);
      InsertSorted(x, t[1..]);
      assert multiset(rest) == multiset(t[1..]) + multiset{x};
      forall i, j | 0 <= i < j < |r|
        ensures !Less(r[j], r[i])
      {
        if i == 0 {
          assert r[j] in multiset(rest);
          if r[j] == x {
            LessAsymmetric(t[0], x);
          } else {
            assert r[j] in multiset(t[1..]);
            assert r[j] in t[1..];
          }
        } else {
          assert r[i] == rest[i - 1] && r[j] == rest[j - 1];
        }
      }
    }
  }

  /** The order sort.Slice produces with the comparison inSlice[i] < inSlice[j]. */
  function Sort(s: seq<string>): (r: seq<string>)
    ensures multiset(r) == multiset(s)
  {
    if s == [] then []
    else
      assert s == s[..|s| - 1] + [s[|s| - 1]];
      Insert(s[|s| - 1], Sort(s[..|s| - 1]))
  }

  /** Sort yields a sorted sequence. */
  lemma {:induction false} SortSorted(s: seq<string>)
    ensures Sorted(Sort(s))
  {
    if s != [] {
      SortSorted(s[..|s| - 1]);
      InsertSorted(s[|s| - 1], Sort(s[..|s| - 1]));
    }
  }

  /** What SortUniqStrings returns. */
  function SortUniq(s: seq<string>): seq<string>
  {
    if |s| <= 1 then s else Uniq(Sort(s))
  }

  /** The result of SortUniq is strictly increasing and holds exactly the values of the input. */
  lemma SortUniqSpec(s: seq<string>)
    ensures StrictlySorted(SortUniq(s))
    ensures forall x :: x in SortUniq(s) <==> x in s
  {
    if |s| > 1 {
      SortSorted(s);
      UniqOfSorted(Sort(s));
      forall x
        ensures x in Sort(s) <==> x in s
      {
        assert x in Sort(s) <==> x in multiset(Sort(s));
      }
    }
  }

  /** SortUniq is the only strictly increasing sequence with the values of its input. */
  lemma SortUniqUnique(s: seq<string>, t: seq<string>)
    requires StrictlySorted(t)
    requires forall x :: x in t <==> x in s
    ensures t == SortUniq(s)
  {
    SortUniqSpec(s);
    StrictlySortedUnique(t, SortUniq(s));
  }

  /** Applying SortUniq to its own result changes nothing. */
  lemma SortUniqIdempotent(s: seq<string>)
    ensures SortUniq(SortUniq(s)) == SortUniq(s)
  {
    SortUniqSpec(s);
    SortUniqSpec(SortUniq(s));
    StrictlySortedUnique(SortUniq(SortUniq(s)), SortUniq(s));
  }

  /** A value repeated three times and a smaller one collapse to the two, smaller first. */
  lemma SortUniqRepeated(lo: string, hi: string)
    requires Less(lo, hi)
    ensures SortUniq([hi, hi, hi, lo]) == [lo, hi]
  {
    SortUniqUnique([hi, hi, hi, lo], [lo, hi]);
  }

  /** Repeated links collapse to one of each, in increasing order. */
  lemma SortUniqRepeatedLinks()
    ensures SortUniq(["https://github.com", "https://github.com", "https://github.com", "https://exploit-db.com"])
         == ["https://exploit-db.com", "https://github.com"]
  {
    var lo, hi := "https://exploit-db.com", "https://github.com";
    assert lo[..8] == hi[..8];
    LessAt(lo, hi, 8);
    SortUniqRepeated(lo, hi);
  }

  /** sort.Slice: reorders the array into the sorted order of its values. */
  method SortSlice(a: array<string>)
    modifies a
    ensures a[..] == Sort(old(a[..]))
  {
    var sorted := Sort(a[..]);
    assert |sorted| == a.Length by {
      assert |multiset(sorted)| == |multiset(a[..])|;
    }
    forall k | 0 <= k < a.Length {
      a[k] := sorted[k];
    }
  }

  /**
   * UniqStrings: moves the first occurrence of every value to the front,
   * in order, and returns the length j of that front part.  The write
   * cursor j never passes the read index, so positions from j on still hold
   * their original values.
   */
  method UniqStrings(s: array<string>) returns (j: nat)
    modifies s
    ensures j <= s.Length
    ensures s[..j] == Uniq(old(s[..]))
    ensures s[j..] == old(s[j..])
  {
    ghost var orig := s[..];
    var seen: set<string> := {};
    j := 0;
    var i := 0;
    while i < s.Length
      invariant 0 <= j <= i <= s.Length
      invariant s[..j] == Uniq(orig[..i])
      invariant s[j..] == orig[j..]
      invariant forall x :: x in seen <==> x in orig[..i]
    {
      var v := s[i];
      assert v == orig[i];
      assert orig[..i + 1] == orig[..i] + [v];
      assert orig[..i + 1][..i] == orig[..i];
      if v in seen {
        i := i + 1;
        continue;
      }
      seen := seen + {v};
      s[j] := v;
      j := j + 1;
      i := i + 1;
    }
    assert orig[..i] == orig;
  }

  /**
   * SortUniqStrings: a slice of length at most one is returned as it is;
   * otherwise it is sorted in place and compacted.  The returned length n
   * delimits the strictly increasing, duplicate-free front part.
   */
  method SortUniqStrings(s: array<string>) returns (n: nat)
    modifies s
    ensures n <= s.Length
    ensures s[..n] == SortUniq(old(s[..]))
    ensures s.Length <= 1 ==> s[..] == old(s[..])
    ensures s.Length > 1 ==> s[n..] == Sort(old(s[..]))[n..]
  {
    if s.Length <= 1 {
      return s.Length;
    }
    SortSlice(s);
    n := UniqStrings(s);
  }

  /**
   * A record field holding a slice, passed through SortUniqStrings: the
   * slice's values are put in an array, which is sorted and compacted in
   * place, and its front part becomes the field's new value.
   */
  method SortUniqField(s: seq<string>) returns (r: seq<string>)
    ensures r == SortUniq(s)
  {
    var a := new string[|s|](i requires 0 <= i < |s| => s[i]);
    assert a[..] == s;
    var n := SortUniqStrings(a);
    r := a[..n];
  }

  /**
   * The comparison loop of isValidCVESubPath and isValidResearcherSubPath:
   * walks the elements of got and stops at the first one that differs from
   * the element of want at the same index.  Where Go would index past the
   * end of want, the answer is false.
   */
  method ElementsMatch(got: seq<string>, want: seq<string>) returns (ok: bool)
    ensures ok <==> |got| <= |want| && got == want[..|got|]
  {
    var i := 0;
    while i < |got|
      invariant 0 <= i <= |got| && i <= |want|
      invariant got[..i] == want[..i]
    {
      if i >= |want| || got[i] != want[i] {
        return false;
      }
      assert got[..i + 1] == got[..i] + [got[i]];
      assert want[..i + 1] == want[..i] + [want[i]];
      i := i + 1;
    }
    assert got == got[..i];
    return true;
  }
}
