/**
 * The Go standard-library path functions the lint core relies on:
 * path.Clean, path.Join, filepath.Ext and filepath.Match, all on
 * slash-separated paths.
 */
module GoPath {
  import opened GoStrings

  /** A path element that path.Clean keeps as it is. */
  predicate IsPlainElement(e: string)
  {
    e != "" && e != "." && e != ".." && '/' !in e
  }

  predicate AllPlain(xs: seq<string>)
  {
    forall i :: 0 <= i < |xs| ==> IsPlainElement(xs[i])
  }

  /** A relative path whose every element is plain, as git reports changed files. */
  predicate IsPlainPath(p: string)
  {
    AllPlain(Split(p, '/'))
  }

  // ----- path.Clean ---------------------------------------------------------

  /** One element of path.Clean's lexical processing, on the stack of kept elements. */
  function CleanStep(st: seq<string>, rooted: bool, e: string): seq<string>
  {
    if e == "" || e == "." then st
    else if e == ".." then
      if |st| > 0 && st[|st| - 1] != ".." then st[..|st| - 1]
      else if rooted then st
      else st + [".."]
    else st + [e]
  }

  function CleanElements(st: seq<string>, rooted: bool, es: seq<string>): seq<string>
    decreases |es|
  {
    if |es| == 0 then st else CleanElements(CleanStep(st, rooted, es[0]), rooted, es[1..])
  }

  /** path.Clean: the shortest path name lexically equivalent to p. */
  function Clean(p: string): string
  {
    if p == "" then "."
    else
      var rooted := p[0] == '/';
      var body := JoinWith(CleanElements([], rooted, Split(p, '/')), '/');
      if rooted then "/" + body
      else if body == "" then "."
      else body
  }

  function NonEmpty(es: seq<string>): seq<string>
  {
    if |es| == 0 then []
    else if es[0] == "" then NonEmpty(es[1..])
    else [es[0]] + NonEmpty(es[1..])
  }

  /**
   * path.Join: the non-empty elements joined by "/" and cleaned; "" when all
   * elements are empty. (Go also joins the empty elements, which Clean then
   * drops, so filtering them first gives the same result.)
   */
  function Join(es: seq<string>): string
  {
    var ne := NonEmpty(es);
    if ne == [] then "" else Clean(JoinWith(ne, '/'))
  }

  lemma {:induction false} CleanElementsConcat(st: seq<string>, rooted: bool, a: seq<string>, b: seq<string>)
    ensures CleanElements(st, rooted, a + b) == CleanElements(CleanElements(st, rooted, a), rooted, b)
    decreases |a|
  {
    if |a| > 0 {
      assert (a + b)[0] == a[0] && (a + b)[1..] == a[1..] + b;
      CleanElementsConcat(CleanStep(st, rooted, a[0]), rooted, a[1..], b);
    } else {
      assert a + b == b;
    }
  }

  lemma {:induction false} CleanElementsPlain(st: seq<string>, rooted: bool, es: seq<string>)
    requires AllPlain(es)
    ensures CleanElements(st, rooted, es) == st + es
    decreases |es|
  {
    if |es| > 0 {
      CleanElementsPlain(st + [es[0]], rooted, es[1..]);
      assert st + [es[0]] + es[1..] == st + es;
    }
  }

  lemma {:induction false} CleanElementsNoSlash(st: seq<string>, rooted: bool, es: seq<string>)
    requires forall i :: 0 <= i < |st| ==> '/' !in st[i]
    requires forall i :: 0 <= i < |es| ==> '/' !in es[i]
    ensures forall i :: 0 <= i < |CleanElements(st, rooted, es)| ==> '/' !in CleanElements(st, rooted, es)[i]
    decreases |es|
  {
    if |es| > 0 {
      var st' := CleanStep(st, rooted, es[0]);
      assert forall i :: 0 <= i < |st'| ==> '/' !in st'[i];
      CleanElementsNoSlash(st', rooted, es[1..]);
    }
  }

  /** A path made of plain elements is already clean. */
  lemma CleanPlain(p: string)
    requires IsPlainPath(p)
    ensures Clean(p) == p
  {
    var es := Split(p, '/');
    CleanElementsPlain([], false, es);
    assert [] + es == es;
    JoinSplit(p, '/');
    assert es[0] != "";
    assert p != "" && p[0] != '/';
  }

  lemma PlainConcat(a: string, b: string)
    requires IsPlainPath(a) && IsPlainPath(b)
    ensures IsPlainPath(a + "/" + b)
  {
    SplitConcat(a, b, '/');
  }

  lemma PlainElementPath(e: string)
    requires IsPlainElement(e)
    ensures IsPlainPath(e)
  {
    SplitNoSep(e, '/');
  }

  /** A path of two separator-free pieces splits into them. */
  lemma SplitTwo(a: string, b: string)
    requires '/' !in a && '/' !in b
    ensures Split(a + "/" + b, '/') == [a, b]
  {
    SplitNoSep(b, '/');
    SplitCons(a, b, '/');
  }

  lemma SplitThreeNested(a: string, b: string, c: string)
    requires '/' !in a && '/' !in b && '/' !in c
    ensures Split(a + "/" + (b + "/" + c), '/') == [a] + [b, c]
  {
    SplitTwo(b, c);
    SplitCons(a, b + "/" + c, '/');
  }

  /** A path of three separator-free pieces splits into them. */
  lemma SplitThree(a: string, b: string, c: string)
    requires '/' !in a && '/' !in b && '/' !in c
    ensures Split(a + "/" + b + "/" + c, '/') == [a, b, c]
  {
    SplitThreeNested(a, b, c);
    assert a + "/" + b + "/" + c == a + "/" + (b + "/" + c);
  }

  lemma SplitFourNested(a: string, b: string, c: string, d: string)
    requires '/' !in a && '/' !in b && '/' !in c && '/' !in d
    ensures Split(a + "/" + (b + "/" + c + "/" + d), '/') == [a] + [b, c, d]
  {
    SplitThree(b, c, d);
    SplitCons(a, b + "/" + c + "/" + d, '/');
  }

  /** A path of four separator-free pieces splits into them. */
  lemma SplitFour(a: string, b: string, c: string, d: string)
    requires '/' !in a && '/' !in b && '/' !in c && '/' !in d
    ensures Split(a + "/" + b + "/" + c + "/" + d, '/') == [a, b, c, d]
  {
    SplitFourNested(a, b, c, d);
    Regroup(a, b, c, d, "/");
  }

  /** Moves the parentheses of a joined four-element path to the right. */
  lemma Regroup(a: string, b: string, c: string, d: string, sep: string)
    ensures a + sep + b + sep + c + sep + d == a + sep + (b + sep + c + sep + d)
  {
    assert a + sep + b + sep + c + sep + d == a + sep + (b + sep + c) + sep + d;
    assert a + sep + (b + sep + c) + sep + d == a + sep + (b + sep + c + sep + d);
  }

  /** Joining plain paths puts a single "/" between them. */
  lemma JoinPlain2(a: string, b: string)
    requires IsPlainPath(a) && IsPlainPath(b)
    ensures Join([a, b]) == a + "/" + b
  {
    assert Split(a, '/')[0] != "" && Split(b, '/')[0] != "";
    assert a != "" && b != "";
    assert NonEmpty([a, b]) == [a, b] by {
      assert NonEmpty([b]) == [b];
      assert [a, b][1..] == [b];
    }
    assert JoinWith([a, b], '/') == a + "/" + b by {
      assert [a, b][1..] == [b];
    }
    PlainConcat(a, b);
    CleanPlain(a + "/" + b);
  }

  lemma JoinPlain3(a: string, b: string, c: string)
    requires IsPlainPath(a) && IsPlainPath(b) && IsPlainPath(c)
    ensures Join([a, b, c]) == a + "/" + b + "/" + c
  {
    assert Split(a, '/')[0] != "" && Split(b, '/')[0] != "" && Split(c, '/')[0] != "";
    assert a != "" && b != "" && c != "";
    assert NonEmpty([a, b, c]) == [a, b, c] by {
      assert NonEmpty([c]) == [c];
      assert [b, c][1..] == [c];
      assert NonEmpty([b, c]) == [b, c];
      assert [a, b, c][1..] == [b, c];
    }
    assert JoinWith([a, b, c], '/') == a + "/" + b + "/" + c by {
      assert [a, b, c][1..] == [b, c];
      assert [b, c][1..] == [c];
      assert JoinWith([b, c], '/') == b + "/" + c;
      assert a + "/" + (b + "/" + c) == a + "/" + b + "/" + c;
    }
    PlainConcat(a, b);
    PlainConcat(a + "/" + b, c);
    CleanPlain(a + "/" + b + "/" + c);
  }

  /** Cleaning keeps a trailing run of plain elements. */
  lemma CleanKeepsPlainTail(s: string, a: seq<string>, ps: seq<string>)
    requires s != "" && Split(s, '/') == a + ps
    requires |ps| >= 1 && AllPlain(ps)
    ensures |Split(Clean(s), '/')| >= |ps|
    ensures LastN(Split(Clean(s), '/'), |ps|) == ps
  {
    var rooted := s[0] == '/';
    var S := CleanElements([], rooted, a);
    CleanElementsConcat([], rooted, a, ps);
    CleanElementsPlain(S, rooted, ps);
    var st := S + ps;
    assert CleanElements([], rooted, Split(s, '/')) == st;
    CleanElementsNoSlash([], rooted, a + ps);
    var body := JoinWith(st, '/');
    SplitJoin(st, '/');
    assert st[|st| - 1] == ps[|ps| - 1] && ps[|ps| - 1] != "";
    assert Split(body, '/') != [""];
    assert body != "";
    if rooted {
      SplitConcat("", body, '/');
      assert "" + "/" + body == "/" + body;
      assert Split("/" + body, '/') == [""] + st;
      assert LastN([""] + st, |ps|) == ps;
    } else {
      assert LastN(st, |ps|) == ps;
    }
  }

  /**
   * Joining any directory with a plain relative path keeps that path's
   * elements as the last elements of the result.
   */
  lemma JoinKeepsPlainTail(d: string, p: string)
    requires IsPlainPath(p)
    ensures |Split(Join([d, p]), '/')| >= |Split(p, '/')|
    ensures LastN(Split(Join([d, p]), '/'), |Split(p, '/')|) == Split(p, '/')
  {
    var ps := Split(p, '/');
    assert ps[0] != "";
    assert p != "";
    assert NonEmpty([p]) == [p];
    assert [d, p][1..] == [p];
    if d == "" {
      assert NonEmpty([d, p]) == [p];
      CleanPlain(p);
    } else {
      assert NonEmpty([d, p]) == [d, p];
      var s := d + "/" + p;
      assert JoinWith([d, p], '/') == s;
      SplitConcat(d, p, '/');
      CleanKeepsPlainTail(s, Split(d, '/'), ps);
    }
  }

  // ----- filepath.Ext ---------------------------------------------------------

  /** filepath.Ext: the suffix from the final dot of the final element, or "". */
  function Ext(p: string): string
    decreases |p|
  {
    if |p| == 0 then ""
    else
      var c := p[|p| - 1];
      if c == '/' then ""
      else if c == '.' then "."
      else
        var e := Ext(p[..|p| - 1]);
        if e == "" then "" else e + [c]
  }

  lemma ExtOfMd(x: string)
    ensures Ext(x + ".md") == ".md"
  {
    var p := x + ".md";
    assert p[..|p| - 1] == x + ".m";
    assert (x + ".m")[..|p| - 2] == x + ".";
    assert Ext(x + ".") == ".";
    assert Ext(x + ".m") == ".m";
  }

  // ----- filepath.Match -------------------------------------------------------

  /** A pattern built from literal characters and '*' only. */
  predicate IsStarPattern(pat: string)
  {
    forall i :: 0 <= i < |pat| ==> pat[i] != '[' && pat[i] != '\\' && pat[i] != '?'
  }

  /** Matching of one path element: '*' matches any run of characters. */
  function ElementMatch(pat: string, name: string): bool
    decreases |pat| + |name|
  {
    if |pat| == 0 then |name| == 0
    else if pat[0] == '*' then ElementMatch(pat[1..], name) || (|name| > 0 && ElementMatch(pat, name[1..]))
    else |name| > 0 && name[0] == pat[0] && ElementMatch(pat[1..], name[1..])
  }

  /**
   * filepath.Match for a star pattern: '*' never matches '/', so the pattern
   * and the name match element by element.
   */
  function Match(pat: string, name: string): bool
    requires IsStarPattern(pat)
  {
    var ps := Split(pat, '/');
    var ns := Split(name, '/');
    |ps| == |ns| && forall i :: 0 <= i < |ps| ==> ElementMatch(ps[i], ns[i])
  }

  lemma {:induction false} ElementMatchLiteral(lit: string, name: string)
    requires '*' !in lit
    ensures ElementMatch(lit, name) <==> name == lit
    decreases |lit|
  {
    if |lit| > 0 && |name| > 0 {
      ElementMatchLiteral(lit[1..], name[1..]);
      assert name == [name[0]] + name[1..] && lit == [lit[0]] + lit[1..];
    }
  }

  lemma {:induction false} ElementMatchStar(name: string)
    ensures ElementMatch("*", name)
    decreases |name|
  {
    if |name| > 0 {
      ElementMatchStar(name[1..]);
    }
  }

  lemma {:induction false} ElementMatchStarSuffix(suffix: string, name: string)
    requires '*' !in suffix
    ensures ElementMatch("*" + suffix, name) <==> HasSuffix(name, suffix)
    decreases |name|
  {
    var pat := "*" + suffix;
    assert pat[1..] == suffix;
    ElementMatchLiteral(suffix, name);
    if |name| > 0 {
      ElementMatchStarSuffix(suffix, name[1..]);
      assert HasSuffix(name, suffix) <==> name == suffix || HasSuffix(name[1..], suffix) by {
        if |suffix| < |name| {
          assert name[|name| - |suffix|..] == name[1..][|name| - 1 - |suffix|..];
        }
      }
    }
  }
}
