/**
 * The path codec of repo.go (with its earlier copy in cve.go): where a CVE
 * record or a researcher record lives in the repository, which of the two
 * a relative path names, where a misplaced file should go, and the
 * public URL of a CVE.
 */
module Repo {
  import opened Base
  import opened GoStrings
  import opened GoPath
  import opened Nvd

  // ----- the CVE sequence bucket --------------------------------------------

  /**
   * cveSeqDir: the sequence printed with at least four digits, without its
   * last three, followed by "xxx".  The error branch cannot be taken, since
   * the padded sequence always keeps at least one character.
   */
  function CveSeqDir(sequence: nat): (r: Result<string>)
    ensures r.Ok?
    ensures HasSuffix(r.value, "xxx") && |r.value| >= 4
  {
    var seqStr := PadCVESequence(sequence);
    var subDir := seqStr[..|seqStr| - 3];
    if |subDir| < 1 then Err(SequenceInvalid(seqStr, subDir))
    else Ok(subDir + "xxx")
  }

  /** The bucket of a sequence number: its thousands, printed, then "xxx". */
  function Bucket(sequence: nat): string
  {
    Itoa(sequence / 1000) + "xxx"
  }

  /** cveSeqDir yields the thousands of the sequence number followed by "xxx". */
  lemma BucketIsThousands(sequence: nat)
    ensures CveSeqDir(sequence) == Ok(Bucket(sequence))
  {
    var seqStr := PadCVESequence(sequence);
    ItoaLength(sequence);
    if sequence >= 1000 {
      ItoaThousands(sequence);
    } else {
      assert seqStr[..|seqStr| - 3] == "0";
    }
  }

  /** Two sequence numbers share a bucket exactly when they have the same thousands. */
  lemma SameBucket(m: nat, n: nat)
    ensures CveSeqDir(m) == CveSeqDir(n) <==> m / 1000 == n / 1000
  {
    BucketIsThousands(m);
    BucketIsThousands(n);
    ItoaInjective(m / 1000, n / 1000);
    if CveSeqDir(m) == CveSeqDir(n) {
      var a, b := Itoa(m / 1000), Itoa(n / 1000);
      assert a == (a + "xxx")[..|a|] && b == (b + "xxx")[..|b|];
    }
  }

  lemma SmallNumerals()
    ensures 974 / 1000 == 0 && 97 / 1000 == 0 && 14882 / 1000 == 14
    ensures Itoa(0) == "0" && Itoa(14) == "14"
    ensures "0" + "xxx" == "0xxx" && "14" + "xxx" == "14xxx"
  {
  }

  /** The bucket vectors: 974 and 97 go to "0xxx", 14882 to "14xxx". */
  lemma BucketVectors()
    ensures CveSeqDir(974) == Ok("0xxx")
    ensures CveSeqDir(14882) == Ok("14xxx")
    ensures CveSeqDir(97) == Ok("0xxx")
  {
    SmallNumerals();
    BucketIsThousands(974);
    BucketIsThousands(14882);
    BucketIsThousands(97);
  }

  // ----- the CVE sub-path -----------------------------------------------------

  /** CVESubPath: "<year>/<bucket>/<id>.md"; an identifier the nvd library cannot split is an error. */
  function CVESubPath(id: string): (r: Result<string>)
    ensures r.Ok? <==> |Split(id, '-')| >= 3
    ensures r.Err? ==> r.error == UnparsableID(id)
  {
    match ParseCVEID(id)
    case None => Err(UnparsableID(id))
    case Some((year, sequence)) =>
      match CveSeqDir(sequence)
      case Err(e) => Err(SubPathError(id, e))
      case Ok(seqDir) => Ok(Join([Itoa(year), seqDir, id + ".md"]))
  }

  /**
   * The place of a CVE record below the "cve" directory, written out
   * directly: the year, the bucket of the sequence and the file name.
   */
  function CveLayout(id: string): string
    requires ParseCVEID(id).Some?
  {
    var (year, sequence) := ParseCVEID(id).value;
    Itoa(year) + "/" + Bucket(sequence) + "/" + (id + ".md")
  }

  lemma DecimalIsPlain(s: string)
    requires IsDecimal(s)
    ensures IsPlainElement(s)
  {
    assert s[0] != '.';
  }

  lemma BucketIsPlain(sequence: nat)
    ensures IsPlainElement(Bucket(sequence))
  {
    DecimalIsPlain(Itoa(sequence / 1000));
  }

  lemma FileNameIsPlain(id: string)
    requires '/' !in id
    ensures IsPlainElement(id + ".md")
  {
    assert |id + ".md"| >= 3;
  }

  /** The elements of the layout are plain path elements. */
  lemma LayoutElementsPlain(id: string)
    requires '/' !in id && ParseCVEID(id).Some?
    ensures IsPlainElement(Itoa(ParseCVEID(id).value.0))
    ensures IsPlainElement(Bucket(ParseCVEID(id).value.1))
    ensures IsPlainElement(id + ".md")
  {
    DecimalIsPlain(Itoa(ParseCVEID(id).value.0));
    BucketIsPlain(ParseCVEID(id).value.1);
    FileNameIsPlain(id);
  }

  /** The layout splits into its three elements. */
  lemma SplitLayout(id: string)
    requires '/' !in id && ParseCVEID(id).Some?
    ensures Split(CveLayout(id), '/') ==
      [Itoa(ParseCVEID(id).value.0), Bucket(ParseCVEID(id).value.1), id + ".md"]
    ensures IsPlainPath(CveLayout(id))
  {
    LayoutElementsPlain(id);
    SplitThree(Itoa(ParseCVEID(id).value.0), Bucket(ParseCVEID(id).value.1), id + ".md");
  }

  /** CVESubPath succeeds exactly on the identifiers the nvd library can split, with the layout. */
  lemma CVESubPathLayout(id: string)
    requires '/' !in id
    requires ParseCVEID(id).Some?
    ensures CVESubPath(id) == Ok(CveLayout(id))
  {
    var (year, sequence) := ParseCVEID(id).value;
    BucketIsThousands(sequence);
    LayoutElementsPlain(id);
    PlainElementPath(Itoa(year));
    PlainElementPath(Bucket(sequence));
    PlainElementPath(id + ".md");
    JoinPlain3(Itoa(year), Bucket(sequence), id + ".md");
  }

  lemma IdHasNoSlash(prefix: string, year: string, sq: string)
    requires '/' !in prefix && IsDecimal(year) && IsDecimal(sq)
    ensures '/' !in prefix + "-" + year + "-" + sq
  {
    assert forall i :: 0 <= i < |year| ==> year[i] != '/';
    assert forall i :: 0 <= i < |sq| ==> sq[i] != '/';
  }

  /**
   * For "<prefix>-<year>-<sequence>" with canonical numerals, the layout is
   * "<year>/<the sequence without its last three digits>xxx/<id>.md".
   */
  lemma LayoutOfParts(prefix: string, year: string, sq: string)
    requires '-' !in prefix
    requires IsCanonicalDecimal(year)
    requires IsDecimal(sq) && |sq| >= 4 && IsCanonicalDecimal(sq[..|sq| - 3])
    ensures ParseCVEID(prefix + "-" + year + "-" + sq).Some?
    ensures CveLayout(prefix + "-" + year + "-" + sq)
         == year + "/" + (sq[..|sq| - 3] + "xxx") + "/" + (prefix + "-" + year + "-" + sq + ".md")
  {
    ParseCVEIDOfParts(prefix, year, sq);
    ItoaAtoi(year);
    DropThreeDigits(sq);
    ItoaAtoi(sq[..|sq| - 3]);
  }

  /** The sub-path of "<prefix>-<year>-<sequence>" in terms of its parts. */
  lemma CVESubPathOfParts(prefix: string, year: string, sq: string)
    requires '-' !in prefix && '/' !in prefix
    requires IsCanonicalDecimal(year)
    requires IsDecimal(sq) && |sq| >= 4 && IsCanonicalDecimal(sq[..|sq| - 3])
    ensures CVESubPath(prefix + "-" + year + "-" + sq)
         == Ok(year + "/" + (sq[..|sq| - 3] + "xxx") + "/" + (prefix + "-" + year + "-" + sq + ".md"))
  {
    LayoutOfParts(prefix, year, sq);
    IdHasNoSlash(prefix, year, sq);
    CVESubPathLayout(prefix + "-" + year + "-" + sq);
  }

  lemma Vector14882Parts()
    ensures IsCanonicalDecimal("2020") && IsDecimal("14882") && |"14882"| >= 4
    ensures "14882"[..2] == "14" && IsCanonicalDecimal("14")
    ensures '-' !in "CVE" && '/' !in "CVE"
    ensures "CVE" + "-" + "2020" + "-" + "14882" == "CVE-2020-14882"
    ensures "2020" + "/" + ("14" + "xxx") + "/" + ("CVE-2020-14882" + ".md") == "2020/14xxx/CVE-2020-14882.md"
  {
  }

  /** CVESubPath("CVE-2020-14882") is "2020/14xxx/CVE-2020-14882.md". */
  lemma CVESubPathVector()
    ensures CVESubPath("CVE-2020-14882") == Ok("2020/14xxx/CVE-2020-14882.md")
  {
    Vector14882Parts();
    CVESubPathOfParts("CVE", "2020", "14882");
  }

  // ----- file names -------------------------------------------------------------

  /** The last element of a path without its extension (WantPath's pathToFileNameSansExt). */
  function FileStem(p: string): string
  {
    var sp := Split(p, '/');
    var fileName := sp[|sp| - 1];
    TrimSuffix(fileName, Ext(fileName))
  }

  /** The stem of "<x>.md" is x. */
  lemma StemOfMd(x: string)
    ensures TrimSuffix(x + ".md", Ext(x + ".md")) == x
  {
    ExtOfMd(x);
    var r := TrimSuffix(x + ".md", ".md");
    assert r + ".md" == x + ".md";
    assert r == (r + ".md")[..|r|] && x == (x + ".md")[..|x|];
  }

  /** Taking the file name of a CVE sub-path and dropping its extension gives back the identifier. */
  lemma CVESubPathRoundTrip(id: string)
    requires '/' !in id
    requires CVESubPath(id).Ok?
    ensures FileStem(CVESubPath(id).value) == id
  {
    CVESubPathLayout(id);
    SplitLayout(id);
    StemOfMd(id);
  }

  /** ResearcherSubPath: the alias with the ".md" extension. */
  function ResearcherSubPath(alias: string): (r: string)
    ensures TrimSuffix(r, Ext(r)) == alias
  {
    StemOfMd(alias);
    alias + ".md"
  }

  // ----- PathIsType ---------------------------------------------------------------

  datatype DocKind = CveKind | ResearcherKind

  /** A pattern built from literal characters and '*' only. */
  type StarPattern = pat: string | IsStarPattern(pat) witness ""

  const CvePattern: StarPattern := "cve/*/*/*.md"
  const ResearcherPattern: StarPattern := "researcher/*.md"

  /** PathIsType's pattern table, in the order it is scanned. */
  const PatternTypes: seq<(DocKind, StarPattern)> := [(CveKind, CvePattern), (ResearcherKind, ResearcherPattern)]

  /** The kind of the last entry of a table whose pattern matches p, as the scan leaves it. */
  function LastMatch(p: string, table: seq<(DocKind, StarPattern)>): Option<DocKind>
  {
    if table == [] then None
    else if Match(table[|table| - 1].1, p) then Some(table[|table| - 1].0)
    else LastMatch(p, table[..|table| - 1])
  }

  /** What PathIsType returns for a path. */
  function Classify(p: string): Result<DocKind>
  {
    match LastMatch(p, PatternTypes)
    case None => Err(UnmatchedPath(p))
    case Some(k) => Ok(k)
  }

  /** A CVE record path: "cve/<year>/<bucket>/<name>.md". */
  predicate IsCvePath(p: string)
  {
    var es := Split(p, '/');
    |es| == 4 && es[0] == "cve" && HasSuffix(es[3], ".md")
  }

  /** A researcher record path: "researcher/<name>.md". */
  predicate IsResearcherPath(p: string)
  {
    var es := Split(p, '/');
    |es| == 2 && es[0] == "researcher" && HasSuffix(es[1], ".md")
  }

  lemma PatternLiterals()
    ensures CvePattern == "cve" + "/" + "*" + "/" + "*" + "/" + "*.md"
    ensures ResearcherPattern == "researcher" + "/" + "*.md"
    ensures "*.md" == "*" + ".md"
    ensures '/' !in "cve" && '/' !in "*" && '/' !in "*.md" && '/' !in "researcher"
    ensures '*' !in "cve" && '*' !in "researcher" && '*' !in ".md"
  {
  }

  lemma CvePatternElements()
    ensures IsStarPattern(CvePattern) && '*' !in "cve" && '*' !in ".md"
    ensures Split(CvePattern, '/') == ["cve", "*", "*", "*" + ".md"]
  {
    PatternLiterals();
    SplitFour("cve", "*", "*", "*.md");
  }

  lemma ResearcherPatternElements()
    ensures IsStarPattern(ResearcherPattern) && '*' !in "researcher" && '*' !in ".md"
    ensures Split(ResearcherPattern, '/') == ["researcher", "*" + ".md"]
  {
    PatternLiterals();
    SplitTwo("researcher", "*.md");
  }

  /** A pattern of elements lit, star, star and star-suf matches the four-element paths starting with lit and ending in suf. */
  lemma MatchFourElements(pat: string, lit: string, suf: string, p: string)
    requires IsStarPattern(pat) && '*' !in lit && '*' !in suf
    requires Split(pat, '/') == [lit, "*", "*", "*" + suf]
    ensures Match(pat, p) <==>
      var es := Split(p, '/'); |es| == 4 && es[0] == lit && HasSuffix(es[3], suf)
  {
    var es := Split(p, '/');
    if |es| == 4 {
      ElementMatchLiteral(lit, es[0]);
      ElementMatchStar(es[1]);
      ElementMatchStar(es[2]);
      ElementMatchStarSuffix(suf, es[3]);
    }
  }

  /** A pattern of elements lit and star-suf matches the two-element paths starting with lit and ending in suf. */
  lemma MatchTwoElements(pat: string, lit: string, suf: string, p: string)
    requires IsStarPattern(pat) && '*' !in lit && '*' !in suf
    requires Split(pat, '/') == [lit, "*" + suf]
    ensures Match(pat, p) <==>
      var es := Split(p, '/'); |es| == 2 && es[0] == lit && HasSuffix(es[1], suf)
  {
    var es := Split(p, '/');
    if |es| == 2 {
      ElementMatchLiteral(lit, es[0]);
      ElementMatchStarSuffix(suf, es[1]);
    }
  }

  /** The CVE pattern matches exactly the CVE record paths. */
  lemma MatchCvePattern(p: string)
    ensures Match(CvePattern, p) <==> IsCvePath(p)
  {
    CvePatternElements();
    MatchFourElements(CvePattern, "cve", ".md", p);
  }

  /** The researcher pattern matches exactly the researcher record paths. */
  lemma MatchResearcherPattern(p: string)
    ensures Match(ResearcherPattern, p) <==> IsResearcherPath(p)
  {
    ResearcherPatternElements();
    MatchTwoElements(ResearcherPattern, "researcher", ".md", p);
  }

  /** Scanning the table keeps the later entry when both match. */
  lemma ClassifyScan(p: string)
    ensures Classify(p) ==
      if Match(ResearcherPattern, p) then Ok(ResearcherKind)
      else if Match(CvePattern, p) then Ok(CveKind)
      else Err(UnmatchedPath(p))
  {
    LastMatchStep(p, PatternTypes, 0);
    LastMatchStep(p, PatternTypes, 1);
    assert PatternTypes[..2] == PatternTypes;
    assert PatternTypes[..0] == [];
  }

  /**
   * The classification: CVE record paths are "cve", researcher record
   * paths are "researcher" (the two shapes never overlap), and every
   * other path is an error.
   */
  lemma ClassifySpec(p: string)
    ensures Classify(p) == Ok(CveKind) <==> IsCvePath(p)
    ensures Classify(p) == Ok(ResearcherKind) <==> IsResearcherPath(p)
    ensures Classify(p).Err? <==> !IsCvePath(p) && !IsResearcherPath(p)
    ensures Classify(p).Err? ==> Classify(p).error == UnmatchedPath(p)
    ensures !(IsCvePath(p) && IsResearcherPath(p))
  {
    ClassifyScan(p);
    MatchCvePattern(p);
    MatchResearcherPattern(p);
  }

  lemma LastMatchStep(p: string, table: seq<(DocKind, StarPattern)>, i: nat)
    requires i < |table|
    ensures LastMatch(p, table[..i + 1]) ==
      if Match(table[i].1, p) then Some(table[i].0) else LastMatch(p, table[..i])
  {
    assert table[..i + 1][..i] == table[..i];
  }

  /**
   * PathIsType: scans the pattern table and keeps the kind of the last
   * pattern that matches.  filepath.Match cannot fail on the two fixed
   * patterns, so its error branch is left out.
   */
  method PathIsType(p: string) returns (r: Result<DocKind>)
    ensures r == Classify(p)
    ensures r == Ok(CveKind) <==> IsCvePath(p)
    ensures r == Ok(ResearcherKind) <==> IsResearcherPath(p)
    ensures r.Err? ==> r.error == UnmatchedPath(p)
  {
    var matched: Option<DocKind> := None;
    var i := 0;
    while i < |PatternTypes|
      invariant 0 <= i <= |PatternTypes|
      invariant matched == LastMatch(p, PatternTypes[..i])
    {
      LastMatchStep(p, PatternTypes, i);
      if Match(PatternTypes[i].1, p) {
        matched := Some(PatternTypes[i].0);
      }
      i := i + 1;
    }
    assert PatternTypes[..i] == PatternTypes;
    ClassifySpec(p);
    if matched == None {
      return Err(UnmatchedPath(p));
    }
    return Ok(matched.value);
  }

  // ----- WantPath -------------------------------------------------------------------

  /** The identifier WantPath derives from a CVE file name: kept when strict, repaired otherwise. */
  function WantedID(nvd: Oracle, stem: string): string
  {
    if !nvd.isCVEIDStrict(stem) then nvd.fixCVEID(stem) else stem
  }

  /**
   * WantPath: the canonical relative path of the record a path names. A
   * CVE path goes where its file name's identifier, repaired when not
   * strict, belongs; a researcher path goes to its file name under
   * "researcher"; any other path is PathIsType's error.
   */
  function WantPath(nvd: Oracle, p: string): (r: Result<string>)
    ensures !IsCvePath(p) && !IsResearcherPath(p) ==> r == Err(UnmatchedPath(p))
    ensures IsCvePath(p) ==> (r.Ok? <==> CVESubPath(WantedID(nvd, FileStem(p))).Ok?)
    ensures IsCvePath(p) && r.Ok? ==> r.value == Join(["cve", CVESubPath(WantedID(nvd, FileStem(p))).value])
    ensures IsCvePath(p) && r.Err? ==> r.error == CVESubPath(WantedID(nvd, FileStem(p))).error
    ensures IsResearcherPath(p) ==> r == Ok(Join(["researcher", ResearcherSubPath(FileStem(p))]))
  {
    ClassifySpec(p);
    match Classify(p)
    case Err(e) => Err(e)
    case Ok(CveKind) =>
      (match CVESubPath(WantedID(nvd, FileStem(p)))
       case Err(e) => Err(e)
       case Ok(wdp) => Ok(Join(["cve", wdp])))
    case Ok(ResearcherKind) =>
      Ok(Join(["researcher", ResearcherSubPath(FileStem(p))]))
  }

  /** A path of neither shape yields PathIsType's error. */
  lemma WantPathUnmatched(nvd: Oracle, p: string)
    requires !IsCvePath(p) && !IsResearcherPath(p)
    ensures WantPath(nvd, p) == Err(UnmatchedPath(p))
  {
    ClassifySpec(p);
  }

  lemma JoinUnderCve(id: string)
    requires '/' !in id && ParseCVEID(id).Some?
    ensures Join(["cve", CveLayout(id)]) == "cve" + "/" + CveLayout(id)
  {
    SplitLayout(id);
    assert IsPlainElement("cve");
    PlainElementPath("cve");
    JoinPlain2("cve", CveLayout(id));
  }

  /**
   * A CVE record path is sent to the place its file name determines,
   * whatever its year and bucket directories say.
   */
  lemma WantPathCve(nvd: Oracle, p: string)
    requires IsCvePath(p)
    requires '/' !in WantedID(nvd, FileStem(p))
    requires ParseCVEID(WantedID(nvd, FileStem(p))).Some?
    ensures WantPath(nvd, p) == Ok("cve" + "/" + CveLayout(WantedID(nvd, FileStem(p))))
  {
    ClassifySpec(p);
    var id := WantedID(nvd, FileStem(p));
    CVESubPathLayout(id);
    JoinUnderCve(id);
  }

  /** The canonical path of a CVE record is a CVE record path whose stem is the identifier. */
  lemma CanonicalCvePathShape(id: string)
    requires '/' !in id && ParseCVEID(id).Some?
    ensures IsCvePath("cve" + "/" + CveLayout(id))
    ensures FileStem("cve" + "/" + CveLayout(id)) == id
  {
    var w := CveLayout(id);
    SplitLayout(id);
    SplitCons("cve", w, '/');
    StemOfMd(id);
  }

  /** A CVE record already in its canonical place is left there. */
  lemma WantPathCanonicalCve(nvd: Oracle, id: string)
    requires '/' !in id
    requires ParseCVEID(id).Some?
    requires nvd.isCVEIDStrict(id)
    ensures WantPath(nvd, "cve" + "/" + CveLayout(id)) == Ok("cve" + "/" + CveLayout(id))
  {
    CanonicalCvePathShape(id);
    WantPathCve(nvd, "cve" + "/" + CveLayout(id));
  }

  lemma ResearcherPathParts(p: string)
    requires IsResearcherPath(p)
    ensures var f := Split(p, '/')[1];
      |f| >= 3 && f == f[..|f| - 3] + ".md" && p == "researcher" + "/" + f && IsPlainElement(f)
  {
    var es := Split(p, '/');
    var f := es[1];
    assert f == f[..|f| - 3] + ".md";
    JoinSplit(p, '/');
    assert es[1..] == [f];
  }

  /** A researcher record path is always canonical. */
  lemma WantPathResearcher(nvd: Oracle, p: string)
    requires IsResearcherPath(p)
    ensures WantPath(nvd, p) == Ok(p)
  {
    ClassifySpec(p);
    ResearcherPathParts(p);
    var f := Split(p, '/')[1];
    StemOfMd(f[..|f| - 3]);
    assert FileStem(p) == f[..|f| - 3];
    assert IsPlainElement("researcher");
    PlainElementPath("researcher");
    PlainElementPath(f);
    JoinPlain2("researcher", f);
  }

  /** A CVE file under any plain year and bucket directories goes where its identifier belongs. */
  lemma WantPathRepairsDirs(nvd: Oracle, year: string, bucket: string, name: string)
    requires IsPlainElement(year) && IsPlainElement(bucket) && '/' !in name
    requires '/' !in WantedID(nvd, name) && ParseCVEID(WantedID(nvd, name)).Some?
    ensures WantPath(nvd, "cve" + "/" + year + "/" + bucket + "/" + (name + ".md"))
         == Ok("cve" + "/" + CveLayout(WantedID(nvd, name)))
  {
    var p := "cve" + "/" + year + "/" + bucket + "/" + (name + ".md");
    SplitFour("cve", year, bucket, name + ".md");
    StemOfMd(name);
    WantPathCve(nvd, p);
  }

  lemma Vector1000123Parts()
    ensures IsCanonicalDecimal("2016") && IsDecimal("1000123") && |"1000123"| >= 4
    ensures "1000123"[..4] == "1000" && IsCanonicalDecimal("1000")
    ensures '-' !in "CVE"
    ensures "CVE" + "-" + "2016" + "-" + "1000123" == "CVE-2016-1000123"
    ensures '/' !in "CVE-2016-1000123" && '/' !in "CVE-2016-01000123"
    ensures IsPlainElement("2016") && IsPlainElement("1000xxx") && IsPlainElement("000xxx")
  {
  }

  lemma Vector1000123Path()
    ensures "cve" + "/" + ("2016" + "/" + ("1000" + "xxx") + "/" + ("CVE-2016-1000123" + ".md"))
         == "cve/2016/1000xxx/CVE-2016-1000123.md"
  {
  }

  lemma CanonicalPath1000123()
    ensures ParseCVEID("CVE-2016-1000123").Some?
    ensures "cve" + "/" + CveLayout("CVE-2016-1000123") == "cve/2016/1000xxx/CVE-2016-1000123.md"
  {
    Vector1000123Parts();
    LayoutOfParts("CVE", "2016", "1000123");
    Vector1000123Path();
  }

  lemma VectorPathA()
    ensures "cve" + "/" + "2016" + "/" + "1000xxx" + "/" + ("CVE-2016-1000123" + ".md") == "cve/2016/1000xxx/CVE-2016-1000123.md"
  {
  }

  lemma VectorPathB()
    ensures "cve" + "/" + "2016" + "/" + "000xxx" + "/" + ("CVE-2016-1000123" + ".md") == "cve/2016/000xxx/CVE-2016-1000123.md"
  {
  }

  lemma VectorPathC()
    ensures "cve" + "/" + "2016" + "/" + "1000xxx" + "/" + ("CVE-2016-01000123" + ".md") == "cve/2016/1000xxx/CVE-2016-01000123.md"
  {
  }

  lemma VectorPathD()
    ensures "researcher" + "/" + "ma7h1as.md" == "researcher/ma7h1as.md"
    ensures '/' !in "researcher" && '/' !in "ma7h1as.md" && HasSuffix("ma7h1as.md", ".md")
  {
  }

  /** The repaired-path vectors of the repository's tests. */
  lemma WantPathVectors(nvd: Oracle)
    requires nvd.isCVEIDStrict("CVE-2016-1000123")
    requires !nvd.isCVEIDStrict("CVE-2016-01000123")
    requires nvd.fixCVEID("CVE-2016-01000123") == "CVE-2016-1000123"
    ensures WantPath(nvd, "cve/2016/1000xxx/CVE-2016-1000123.md") == Ok("cve/2016/1000xxx/CVE-2016-1000123.md")
    ensures WantPath(nvd, "cve/2016/000xxx/CVE-2016-1000123.md") == Ok("cve/2016/1000xxx/CVE-2016-1000123.md")
    ensures WantPath(nvd, "cve/2016/1000xxx/CVE-2016-01000123.md") == Ok("cve/2016/1000xxx/CVE-2016-1000123.md")
    ensures WantPath(nvd, "researcher/ma7h1as.md") == Ok("researcher/ma7h1as.md")
  {
    Vector1000123Parts();
    CanonicalPath1000123();
    VectorPathA();
    VectorPathB();
    VectorPathC();
    VectorPathD();
    WantPathRepairsDirs(nvd, "2016", "1000xxx", "CVE-2016-1000123");
    WantPathRepairsDirs(nvd, "2016", "000xxx", "CVE-2016-1000123");
    WantPathRepairsDirs(nvd, "2016", "1000xxx", "CVE-2016-01000123");
    SplitTwo("researcher", "ma7h1as.md");
    WantPathResearcher(nvd, "researcher" + "/" + "ma7h1as.md");
  }

  // ----- CvebaseURL -------------------------------------------------------------------

  /** CvebaseURL: the public page of a strictly well-formed identifier, "" for any other. */
  function CvebaseURL(nvd: Oracle, id: string): (r: string)
    ensures !nvd.isCVEIDStrict(id) ==> r == ""
  {
    if !nvd.isCVEIDStrict(id) then ""
    else
      match ParseCVEID(id)
      case None => ""
      case Some((year, sequence)) => "https://www.cvebase.com/cve/" + Itoa(year) + "/" + Itoa(sequence)
  }

  /** The URL of "<prefix>-<year>-<sequence>" holds the year and the sequence without leading zeros. */
  lemma CvebaseURLOfParts(nvd: Oracle, prefix: string, year: string, sq: string)
    requires '-' !in prefix
    requires IsDecimal(year) && IsDecimal(sq)
    requires nvd.isCVEIDStrict(prefix + "-" + year + "-" + sq)
    ensures CvebaseURL(nvd, prefix + "-" + year + "-" + sq)
         == "https://www.cvebase.com/cve/" + Itoa(DecimalValue(year)) + "/" + Itoa(DecimalValue(sq))
  {
    ParseCVEIDOfParts(prefix, year, sq);
  }
}
