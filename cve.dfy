/**
 * cve.go: the CVE record, its normalisation (dedupeSort) and the checks
 * that place a CVE file in the repository.  cveSubPath and cveSeqDir are the
 * same functions as CVESubPath and cveSeqDir of repo.go and are modelled once,
 * in module Repo.
 */
module Cve {
  import opened GoStrings
  import opened StringOrder
  import opened Util
  import opened Nvd
  import opened Repo

  /** A CVE record: its identifier, three lists of links and the advisory (the markdown body). */
  datatype CVE = CVE(cveID: string, pocs: seq<string>, courses: seq<string>, writeups: seq<string>, advisory: string)

  /** Every list of links is strictly increasing, hence free of duplicates. */
  ghost predicate IsNormal(c: CVE)
  {
    StrictlySorted(c.pocs) && StrictlySorted(c.courses) && StrictlySorted(c.writeups)
  }

  /** The record dedupeSort leaves behind. */
  function DedupeSorted(c: CVE): CVE
  {
    c.(pocs := SortUniq(c.pocs), writeups := SortUniq(c.writeups), courses := SortUniq(c.courses))
  }

  /**
   * dedupeSort makes every list of links strictly increasing, keeps exactly
   * the links the list had, and leaves the identifier and the advisory as
   * they were.
   */
  lemma DedupeSortedSpec(c: CVE)
    ensures IsNormal(DedupeSorted(c))
    ensures forall x :: x in DedupeSorted(c).pocs <==> x in c.pocs
    ensures forall x :: x in DedupeSorted(c).courses <==> x in c.courses
    ensures forall x :: x in DedupeSorted(c).writeups <==> x in c.writeups
    ensures DedupeSorted(c).cveID == c.cveID && DedupeSorted(c).advisory == c.advisory
  {
    SortUniqSpec(c.pocs);
    SortUniqSpec(c.courses);
    SortUniqSpec(c.writeups);
  }

  /** The records dedupeSort leaves unchanged are exactly the normal ones. */
  lemma DedupeSortedFixedPoints(c: CVE)
    ensures DedupeSorted(c) == c <==> IsNormal(c)
  {
    DedupeSortedSpec(c);
    if IsNormal(c) {
      SortUniqUnique(c.pocs, c.pocs);
      SortUniqUnique(c.courses, c.courses);
      SortUniqUnique(c.writeups, c.writeups);
    }
  }

  /** Normalising twice is normalising once. */
  lemma DedupeSortedIdempotent(c: CVE)
    ensures DedupeSorted(DedupeSorted(c)) == DedupeSorted(c)
  {
    SortUniqIdempotent(c.pocs);
    SortUniqIdempotent(c.courses);
    SortUniqIdempotent(c.writeups);
  }

  /** Three copies of one link and another link collapse to the two, in increasing order. */
  lemma DedupeSortedVector(id: string, advisory: string)
    ensures var links := ["https://github.com", "https://github.com", "https://github.com", "https://exploit-db.com"];
            var want := ["https://exploit-db.com", "https://github.com"];
            DedupeSorted(CVE(id, links, links, links, advisory)) == CVE(id, want, want, want, advisory)
  {
    SortUniqRepeatedLinks();
  }

  /** A CVE record held by reference, as the receiver of dedupeSort sees it. */
  class CveRecord {
    var cveID: string
    var pocs: seq<string>
    var courses: seq<string>
    var writeups: seq<string>
    var advisory: string

    constructor (c: CVE)
      ensures Value() == c
    {
      cveID, pocs, courses, writeups, advisory := c.cveID, c.pocs, c.courses, c.writeups, c.advisory;
    }

    /** The record's current field values. */
    function Value(): CVE
      reads this
    {
      CVE(cveID, pocs, courses, writeups, advisory)
    }

    /** dedupeSort: replaces each list of links by its sorted, duplicate-free form. */
    method DedupeSort()
      modifies this
      ensures Value() == DedupeSorted(old(Value()))
    {
      pocs := SortUniqField(pocs);
      writeups := SortUniqField(writeups);
      courses := SortUniqField(courses);
    }
  }

  // ----- placement of a CVE file ---------------------------------------------

  /**
   * What isValidCVESubPath answers: the last three elements of the path
   * equal the first three of the identifier's sub-path.  An identifier
   * without a sub-path is never valid.
   */
  function ValidCveSubPath(cveID: string, path: string): bool
    requires |Split(path, '/')| >= 3
  {
    match CVESubPath(cveID)
    case Err(_) => false
    case Ok(validPath) =>
      var splitValid := Split(validPath, '/');
      |splitValid| >= 3 && LastN(Split(path, '/'), 3) == splitValid[..3]
  }

  /**
   * isValidCVESubPath: compares the last three elements of the path with
   * the elements of the sub-path, one by one, and stops at the first that
   * differs.  The path must have at least three elements.
   */
  method IsValidCVESubPath(cveID: string, path: string) returns (ok: bool)
    requires |Split(path, '/')| >= 3
    ensures ok == ValidCveSubPath(cveID, path)
    ensures |Split(cveID, '-')| < 3 ==> !ok
  {
    var splitPath := Split(path, '/');
    splitPath := splitPath[|splitPath| - 3..];
    assert splitPath == LastN(Split(path, '/'), 3) && |splitPath| == 3;
    var validPath := CVESubPath(cveID);
    if validPath.Err? {
      return false;
    }
    var splitValid := Split(validPath.value, '/');
    ok := ElementsMatch(splitPath, splitValid);
  }

  /**
   * For an identifier the nvd library can split, a path is valid exactly
   * when it ends in the year, the bucket and the file name of the identifier.
   */
  lemma ValidCveSubPathLayout(cveID: string, path: string)
    requires '/' !in cveID && ParseCVEID(cveID).Some?
    requires |Split(path, '/')| >= 3
    ensures ValidCveSubPath(cveID, path) <==>
      LastN(Split(path, '/'), 3) ==
        [Itoa(ParseCVEID(cveID).value.0), Bucket(ParseCVEID(cveID).value.1), cveID + ".md"]
  {
    CVESubPathLayout(cveID);
    SplitLayout(cveID);
  }

  /** The last k elements of a sequence extended by k elements are those k. */
  lemma LastNAppend(xs: seq<string>, ys: seq<string>)
    ensures LastN(xs + ys, |ys|) == ys
  {
    if |ys| < |xs + ys| {
      assert (xs + ys)[|xs|..] == ys;
    }
  }

  /** A CVE file at its layout below any directory is valid. */
  lemma ValidUnderAnyDirectory(cveID: string, dir: string)
    requires '/' !in cveID && ParseCVEID(cveID).Some?
    ensures |Split(dir + "/" + CveLayout(cveID), '/')| >= 3
    ensures ValidCveSubPath(cveID, dir + "/" + CveLayout(cveID))
  {
    SplitConcat(dir, CveLayout(cveID), '/');
    SplitLayout(cveID);
    LastNAppend(Split(dir, '/'), Split(CveLayout(cveID), '/'));
    ValidCveSubPathLayout(cveID, dir + "/" + CveLayout(cveID));
  }

  lemma Vector0974Parts()
    ensures IsCanonicalDecimal("2016") && IsDecimal("0974") && |"0974"| >= 4
    ensures "0974"[..1] == "0" && IsCanonicalDecimal("0")
    ensures '-' !in "CVE" && '/' !in "CVE-2016-0974"
    ensures "CVE" + "-" + "2016" + "-" + "0974" == "CVE-2016-0974"
  {
  }

  lemma Vector0974Path()
    ensures "../../../../cvebase.com/cve" + "/" + ("2016" + "/" + ("0" + "xxx") + "/" + ("CVE-2016-0974" + ".md"))
         == "../../../../cvebase.com/cve/2016/0xxx/CVE-2016-0974.md"
  {
  }

  /** The file of CVE-2016-0974 under a checkout of the repository is in its place. */
  lemma ValidCveSubPathVector()
    ensures |Split("../../../../cvebase.com/cve/2016/0xxx/CVE-2016-0974.md", '/')| >= 3
    ensures ValidCveSubPath("CVE-2016-0974", "../../../../cvebase.com/cve/2016/0xxx/CVE-2016-0974.md")
  {
    Vector0974Parts();
    LayoutOfParts("CVE", "2016", "0974");
    Vector0974Path();
    ValidUnderAnyDirectory("CVE-2016-0974", "../../../../cvebase.com/cve");
  }

  /**
   * cvePathToRelPath: the last three elements of the path, joined again; the
   * result is a tail of the path that starts right after a '/'.
   */
  function CvePathToRelPath(p: string): (r: string)
    requires |Split(p, '/')| >= 3
    ensures Split(r, '/') == LastN(Split(p, '/'), 3)
    ensures EndsAtBoundary(p, r, '/')
  {
    var splitPath := Split(p, '/');
    SplitSuffix(p, 3, '/');
    var last := splitPath[|splitPath| - 3..];
    assert forall i :: 0 <= i < |last| ==> '/' !in last[i] by {
      assert forall i :: 0 <= i < |last| ==> last[i] == splitPath[|splitPath| - 3 + i];
    }
    SplitJoin(last, '/');
    JoinWith(last, '/')
  }

  /** The relative path is determined by the path's last three elements. */
  lemma RelPathOfSplit(p: string, rel: string)
    requires |Split(p, '/')| >= 3 && LastN(Split(p, '/'), 3) == Split(rel, '/')
    ensures CvePathToRelPath(p) == rel
  {
    var r := CvePathToRelPath(p);
    JoinSplit(r, '/');
    JoinSplit(rel, '/');
  }

  /** The relative path of a CVE file at its layout below any directory is that layout. */
  lemma RelPathOfLayout(cveID: string, dir: string)
    requires '/' !in cveID && ParseCVEID(cveID).Some?
    ensures |Split(dir + "/" + CveLayout(cveID), '/')| >= 3
    ensures CvePathToRelPath(dir + "/" + CveLayout(cveID)) == CveLayout(cveID)
  {
    var layout := CveLayout(cveID);
    ValidUnderAnyDirectory(cveID, dir);
    SplitLayout(cveID);
    SplitConcat(dir, layout, '/');
    LastNAppend(Split(dir, '/'), Split(layout, '/'));
    RelPathOfSplit(dir + "/" + layout, layout);
  }
}
