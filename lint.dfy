/**
 * lint.go: linting one CVE file or one researcher file in place, and
 * linting the files a commit touched.  A lint opens the file, parses it,
 * checks the record, prints warnings, puts the record's lists in sorted,
 * duplicate-free form and rewrites the file from the record.  The file
 * system is a map from path to content; the warnings Go prints and the
 * errors it logs are returned as sequences.
 */
module Lint {
  import opened Base
  import opened GoStrings
  import opened GoPath
  import opened Nvd
  import opened Repo
  import opened Cve
  import opened Researchers
  import opened File
  import opened StringOrder

  /** The write calls that fail on a file opened at p, counted from its opening. */
  function FaultsAt(faults: map<string, set<nat>>, p: string): set<nat>
  {
    if p in faults then faults[p] else {}
  }

  /**
   * The files lint reads and rewrites.  A path that is not a key cannot be
   * opened.  An open file is written back to its path when it is closed.
   */
  class FileSystem {
    var files: map<string, string>
    const faults: map<string, set<nat>>

    constructor (files: map<string, string>, faults: map<string, set<nat>>)
      ensures this.files == files && this.faults == faults
    {
      this.files := files;
      this.faults := faults;
    }

    /** os.OpenFile for reading and writing: null when the file does not exist. */
    method Open(p: string) returns (f: OpenFile?)
      ensures f == null <==> p !in files
      ensures f != null ==> fresh(f) && f.data == files[p] && f.pos == 0 && f.writes == 0
                            && f.failing == FaultsAt(faults, p)
    {
      if p !in files {
        return null;
      }
      f := new OpenFile(files[p], FaultsAt(faults, p));
    }

    /** Close: the file's content becomes the content at its path. */
    method Close(p: string, f: OpenFile)
      modifies this
      ensures files == old(files)[p := f.data]
    {
      files := files[p := f.data];
    }
  }

  /** What one lint returns, prints and leaves in the file system. */
  datatype Outcome = Outcome(err: Option<Error>, warnings: seq<Warning>, files: map<string, string>)

  /** A failure of CompileToFile, wrapped as lint reports it. */
  function Compiling(e: Option<Error>): (r: Option<Error>)
    ensures r.None? <==> e.None?
    ensures r.Some? ==> r.value == CompileError(e.value)
  {
    match e
    case None => None
    case Some(cause) => Some(CompileError(cause))
  }

  // ----- lintCVE ---------------------------------------------------------------------

  /** The sub-path printed as wanted: the identifier's sub-path, or "" when it has none. */
  function WantedSubPath(cveID: string): string
  {
    match CVESubPath(cveID)
    case Ok(w) => w
    case Err(_) => ""
  }

  /** The warning printed for a CVE file at path p, if it is misplaced. */
  function CvePlacement(cveID: string, p: string): (r: seq<Warning>)
    requires |Split(p, '/')| >= 3
    ensures r == [] <==> ValidCveSubPath(cveID, p)
    ensures r != [] ==> r == [DirMismatch(cveID, CvePathToRelPath(p), WantedSubPath(cveID))]
  {
    if ValidCveSubPath(cveID, p) then [] else [DirMismatch(cveID, CvePathToRelPath(p), WantedSubPath(cveID))]
  }

  /**
   * What lintCVE does to the file at p.  Every branch after the opening
   * takes the last three elements of the path, so a path with fewer
   * elements panics before anything is written.
   */
  function LintCveOutcome(files: map<string, string>, faults: map<string, set<nat>>, p: string,
                          codec: Codec, nvd: Oracle): Outcome
  {
    if p !in files then Outcome(Some(OpenError(p)), [], files)
    else if |Split(p, '/')| < 3 then Outcome(Some(SlicePanic(p)), [], files)
    else
      match ParseCVEMDFile(codec, files[p])
      case Err(e) => Outcome(Some(ParseError(CvePathToRelPath(p), e)), [], files)
      case Ok(cve) =>
        if !nvd.isCVEID(cve.cveID) then Outcome(Some(InvalidCVEID(cve.cveID, CvePathToRelPath(p))), [], files)
        else RewriteCve(files, faults, p, codec, cve)
  }

  /** The part of lintCVE after the record cve was parsed and its identifier accepted. */
  function RewriteCve(files: map<string, string>, faults: map<string, set<nat>>, p: string, codec: Codec, cve: CVE): Outcome
    requires p in files && |Split(p, '/')| >= 3
  {
    var o := Compiled(codec, p, CveDoc(Cve.DedupeSorted(cve)), files[p], FaultsAt(faults, p), 0);
    Outcome(Compiling(o.err), CvePlacement(cve.cveID, p), files[p := o.content])
  }

  /**
   * lintCVE: opens the file, parses it as a CVE, refuses an invalid
   * identifier, warns about a misplaced file, dedupes the lists and
   * rewrites the file.
   */
  method LintCVE(fs: FileSystem, p: string, codec: Codec, nvd: Oracle) returns (err: Option<Error>, warnings: seq<Warning>)
    modifies fs
    ensures Outcome(err, warnings, fs.files) == LintCveOutcome(old(fs.files), fs.faults, p, codec, nvd)
  {
    var f := fs.Open(p);
    if f == null {
      return Some(OpenError(p)), [];
    }
    var text := f.ReadAll();
    if |Split(p, '/')| < 3 {
      fs.Close(p, f);
      return Some(SlicePanic(p)), [];
    }
    var parsed := ParseMDFile(codec, text, CveTarget);
    ParseMDFileAgrees(codec, text);
    if parsed.Err? {
      fs.Close(p, f);
      return Some(ParseError(CvePathToRelPath(p), parsed.error)), [];
    }
    var record := new CveRecord(parsed.value.cve);
    if !nvd.isCVEID(record.cveID) {
      fs.Close(p, f);
      return Some(InvalidCVEID(record.cveID, CvePathToRelPath(p))), [];
    }
    warnings := [];
    var valid := IsValidCVESubPath(record.cveID, p);
    if !valid {
      warnings := [DirMismatch(record.cveID, CvePathToRelPath(p), WantedSubPath(record.cveID))];
    }
    record.DedupeSort();
    var cerr := CompileToFile(f, p, CveDoc(record.Value()), codec);
    fs.Close(p, f);
    err := Compiling(cerr);
  }

  // ----- lintResearcher -----------------------------------------------------------

  /** The "invalid CVE ID" warnings for a list of identifiers, in list order. */
  function InvalidRefs(nvd: Oracle, cves: seq<string>, relPath: string): (r: seq<Warning>)
    ensures |r| <= |cves|
    ensures forall w :: w in r ==> w.InvalidCVERef? && w.relPath == relPath && w.id in cves && !nvd.isCVEID(w.id)
    ensures forall id :: id in cves && !nvd.isCVEID(id) ==> InvalidCVERef(id, relPath) in r
    ensures Util.NoDuplicates(cves) ==> Util.NoDuplicates(r)
  {
    if cves == [] then []
    else
      var front := cves[..|cves| - 1];
      var last := cves[|cves| - 1];
      assert cves == front + [last];
      InvalidRefs(nvd, front, relPath) + if nvd.isCVEID(last) then [] else [InvalidCVERef(last, relPath)]
  }

  /** The warnings lintResearcher prints for a parsed record at path p. */
  function ResearcherWarnings(nvd: Oracle, r: Researcher, p: string): seq<Warning>
  {
    var rel := ResearcherPathToRelPath(p);
    var cves := Researchers.DedupeSorted(r).cves;
    (if LastElement(p) == ResearcherFileName(r.alias) then [] else [DirMismatch(r.alias, rel, ResearcherFileName(r.alias))])
    + (if |cves| == 0 then [NoCVEs(r.alias, rel)] else [])
    + InvalidRefs(nvd, cves, rel)
  }

  /** What lintResearcher does to the file at p. */
  function LintResearcherOutcome(files: map<string, string>, faults: map<string, set<nat>>, p: string,
                                 codec: Codec, nvd: Oracle): Outcome
  {
    if p !in files then Outcome(Some(OpenError(p)), [], files)
    else
      match ParseResearcherMDFile(codec, files[p])
      case Err(e) => Outcome(Some(ResearcherParseError(e)), [], files)
      case Ok(r) => RewriteResearcher(files, faults, p, codec, nvd, r)
  }

  /** The part of lintResearcher after a successful parse of the record r. */
  function RewriteResearcher(files: map<string, string>, faults: map<string, set<nat>>, p: string,
                             codec: Codec, nvd: Oracle, r: Researcher): Outcome
    requires p in files
  {
    var o := Compiled(codec, p, ResearcherDoc(Researchers.DedupeSorted(r)), files[p], FaultsAt(faults, p), 0);
    Outcome(Compiling(o.err), ResearcherWarnings(nvd, r, p), files[p := o.content])
  }

  /**
   * The loop over the deduped CVE list: one warning for every identifier
   * the nvd library does not accept.
   */
  method CheckCVERefs(nvd: Oracle, cves: seq<string>, relPath: string) returns (warnings: seq<Warning>)
    ensures warnings == InvalidRefs(nvd, cves, relPath)
  {
    warnings := [];
    var i := 0;
    while i < |cves|
      invariant 0 <= i <= |cves|
      invariant warnings == InvalidRefs(nvd, cves[..i], relPath)
    {
      assert cves[..i + 1][..i] == cves[..i];
      if !nvd.isCVEID(cves[i]) {
        warnings := warnings + [InvalidCVERef(cves[i], relPath)];
      }
      i := i + 1;
    }
    assert cves[..i] == cves;
  }

  /**
   * The checks lintResearcher makes between parsing and rewriting: the
   * placement warning, the dedupe of the CVE list, the empty-list warning
   * and the invalid-identifier warnings.
   */
  method CheckResearcher(record: ResearcherRecord, p: string, nvd: Oracle) returns (warnings: seq<Warning>)
    modifies record
    ensures record.Value() == Researchers.DedupeSorted(old(record.Value()))
    ensures warnings == ResearcherWarnings(nvd, old(record.Value()), p)
  {
    ghost var r := record.Value();
    var rel := ResearcherPathToRelPath(p);
    var valid := IsValidResearcherSubPath(record.alias, p);
    var placement := if valid then [] else [DirMismatch(record.alias, rel, ResearcherFileName(record.alias))];
    record.DedupeSort();
    ghost var cves := Researchers.DedupeSorted(r).cves;
    assert record.cves == cves && record.alias == r.alias;
    var empty := if |record.cves| == 0 then [NoCVEs(record.alias, rel)] else [];
    var refs := CheckCVERefs(nvd, record.cves, rel);
    warnings := placement + empty + refs;
  }

  /**
   * lintResearcher: opens the file, parses it as a researcher, warns about
   * a misplaced file, dedupes the CVE list, warns about an empty list and
   * about each invalid identifier, and rewrites the file.
   */
  method LintResearcher(fs: FileSystem, p: string, codec: Codec, nvd: Oracle) returns (err: Option<Error>, warnings: seq<Warning>)
    modifies fs
    ensures Outcome(err, warnings, fs.files) == LintResearcherOutcome(old(fs.files), fs.faults, p, codec, nvd)
  {
    var f := fs.Open(p);
    if f == null {
      return Some(OpenError(p)), [];
    }
    var text := f.ReadAll();
    var parsed := ParseMDFile(codec, text, ResearcherTarget);
    ParseMDFileAgrees(codec, text);
    if parsed.Err? {
      fs.Close(p, f);
      return Some(ResearcherParseError(parsed.error)), [];
    }
    var record := new ResearcherRecord(parsed.value.researcher);
    warnings := CheckResearcher(record, p, nvd);
    var cerr := CompileToFile(f, p, ResearcherDoc(record.Value()), codec);
    fs.Close(p, f);
    err := Compiling(cerr);
  }

  // ----- what a lint guarantees ------------------------------------------------------

  /** lintCVE or lintResearcher, as chosen by the kind of the path. */
  function LintFile(kind: DocKind, files: map<string, string>, faults: map<string, set<nat>>, p: string,
                    codec: Codec, nvd: Oracle): Outcome
  {
    match kind
    case CveKind => LintCveOutcome(files, faults, p, codec, nvd)
    case ResearcherKind => LintResearcherOutcome(files, faults, p, codec, nvd)
  }

  /** A lint touches no file but its own, and creates or removes none. */
  lemma LintFileTouchesOnly(kind: DocKind, files: map<string, string>, faults: map<string, set<nat>>, p: string,
                            codec: Codec, nvd: Oracle)
    ensures var o := LintFile(kind, files, faults, p, codec, nvd);
            o.files.Keys == files.Keys && forall q :: q in files && q != p ==> o.files[q] == files[q]
  {
  }

  /**
   * A CVE lint that stops before rewriting, or whose encoding fails,
   * leaves every file as it was; one that stops before rewriting prints
   * no warning.
   */
  lemma LintCveAborts(files: map<string, string>, faults: map<string, set<nat>>, p: string, codec: Codec, nvd: Oracle)
    ensures var o := LintCveOutcome(files, faults, p, codec, nvd);
            (o.err.Some? && !o.err.value.CompileError? ==> o.files == files && o.warnings == [])
            && (o.err.Some? && o.err.value != CompileError(WriteError(p)) ==> o.files == files)
  {
    if p in files && |Split(p, '/')| >= 3 && ParseCVEMDFile(codec, files[p]).Ok? {
      var cve := ParseCVEMDFile(codec, files[p]).value;
      if nvd.isCVEID(cve.cveID) {
        assert LintCveOutcome(files, faults, p, codec, nvd) == RewriteCve(files, faults, p, codec, cve);
        RewriteCveFailure(files, faults, p, codec, cve);
      }
    }
  }

  /** A CVE rewrite fails only in CompileToFile, and leaves the file as it was unless a write failed. */
  lemma RewriteCveFailure(files: map<string, string>, faults: map<string, set<nat>>, p: string, codec: Codec, cve: CVE)
    requires p in files && |Split(p, '/')| >= 3
    ensures var o := RewriteCve(files, faults, p, codec, cve);
            (o.err.Some? ==> o.err.value.CompileError?)
            && (o.err.Some? && o.err.value != CompileError(WriteError(p)) ==> o.files == files)
  {
    var t := CveDoc(Cve.DedupeSorted(cve));
    var failing := FaultsAt(faults, p);
    var c := Compiled(codec, p, t, files[p], failing, 0);
    CompiledEncodeFailure(codec, p, t, files[p], failing, 0);
    if c.err.Some? && c.err.value != WriteError(p) {
      assert codec.encode(t).None?;
      UpdateWithSame(files, p);
    }
  }

  /**
   * A misplaced CVE file is only warned about: once the file parses and its
   * identifier is valid, lint fails only if the rewrite fails, and it warns
   * exactly when the file is not at its identifier's sub-path.
   */
  lemma LintCvePlacementOnlyWarns(files: map<string, string>, faults: map<string, set<nat>>, p: string,
                                  codec: Codec, nvd: Oracle)
    requires p in files && |Split(p, '/')| >= 3
    requires ParseCVEMDFile(codec, files[p]).Ok? && nvd.isCVEID(ParseCVEMDFile(codec, files[p]).value.cveID)
    ensures var o := LintCveOutcome(files, faults, p, codec, nvd);
            var id := ParseCVEMDFile(codec, files[p]).value.cveID;
            (o.warnings == [] <==> ValidCveSubPath(id, p))
            && (o.err.Some? ==> o.err.value.CompileError?)
  {
  }

  /**
   * A CVE lint that succeeds leaves the file holding the delimited YAML
   * header and the advisory of the record with its lists sorted and
   * duplicate-free, each list keeping exactly its values.
   */
  lemma LintCveRewrites(files: map<string, string>, faults: map<string, set<nat>>, p: string, codec: Codec, nvd: Oracle)
    requires LintCveOutcome(files, faults, p, codec, nvd).err == None
    ensures p in files && ParseCVEMDFile(codec, files[p]).Ok?
    ensures var cve := ParseCVEMDFile(codec, files[p]).value;
            var d := Cve.DedupeSorted(cve);
            IsNormal(d) && d.advisory == cve.advisory
            && (forall x :: (x in d.pocs <==> x in cve.pocs) && (x in d.courses <==> x in cve.courses)
                           && (x in d.writeups <==> x in cve.writeups))
            && codec.encode(CveDoc(d)).Some?
            && LintCveOutcome(files, faults, p, codec, nvd).files[p] == Image(CveDoc(d), codec.encode(CveDoc(d)).value)
  {
    var cve := ParseCVEMDFile(codec, files[p]).value;
    var d := Cve.DedupeSorted(cve);
    Cve.DedupeSortedSpec(cve);
    CompiledSuccess(codec, p, CveDoc(d), files[p], FaultsAt(faults, p), 0);
  }

  /**
   * Linting a CVE file a second time changes nothing, provided that the
   * file written by the first lint reads back as the record it was written
   * from.
   */
  lemma LintCveIdempotent(files: map<string, string>, faults: map<string, set<nat>>, p: string, codec: Codec, nvd: Oracle)
    requires p in files && ParseCVEMDFile(codec, files[p]).Ok?
    requires LintCveOutcome(files, faults, p, codec, nvd).err == None
    requires ParseCVEMDFile(codec, LintCveOutcome(files, faults, p, codec, nvd).files[p])
          == Ok(Cve.DedupeSorted(ParseCVEMDFile(codec, files[p]).value))
    ensures var o := LintCveOutcome(files, faults, p, codec, nvd);
            LintCveOutcome(o.files, faults, p, codec, nvd) == o
  {
    var cve := ParseCVEMDFile(codec, files[p]).value;
    var o := RewriteCve(files, faults, p, codec, cve);
    assert LintCveOutcome(files, faults, p, codec, nvd) == o;
    assert Cve.DedupeSorted(cve).cveID == cve.cveID;
    assert LintCveOutcome(o.files, faults, p, codec, nvd) == RewriteCve(o.files, faults, p, codec, Cve.DedupeSorted(cve));
    RewriteCveDeduped(o.files, faults, p, codec, cve);
    RewriteCveOver(files, faults, p, codec, cve);
  }

  /** Rewriting the deduped record does what rewriting the record does. */
  lemma RewriteCveDeduped(files: map<string, string>, faults: map<string, set<nat>>, p: string, codec: Codec, cve: CVE)
    requires p in files && |Split(p, '/')| >= 3
    ensures RewriteCve(files, faults, p, codec, Cve.DedupeSorted(cve)) == RewriteCve(files, faults, p, codec, cve)
  {
    Cve.DedupeSortedIdempotent(cve);
  }

  /** A successful rewrite repeated over its own result changes nothing. */
  lemma RewriteCveOver(files: map<string, string>, faults: map<string, set<nat>>, p: string, codec: Codec, cve: CVE)
    requires p in files && |Split(p, '/')| >= 3
    requires RewriteCve(files, faults, p, codec, cve).err == None
    ensures var o := RewriteCve(files, faults, p, codec, cve);
            RewriteCve(o.files, faults, p, codec, cve) == o
  {
    var t := CveDoc(Cve.DedupeSorted(cve));
    var failing := FaultsAt(faults, p);
    var c := Compiled(codec, p, t, files[p], failing, 0);
    var files' := files[p := c.content];
    assert RewriteCve(files, faults, p, codec, cve).files == files';
    var c' := Compiled(codec, p, t, files'[p], failing, 0);
    CompiledIgnoresOldContent(codec, p, t, files[p], files'[p], failing);
    assert c' == c;
    UpdateWithSame(files', p);
    assert RewriteCve(files', faults, p, codec, cve).files == files';
  }

  /**
   * The warnings about a parsed researcher record: a placement warning
   * exactly when the file name is not the alias's, a "no CVEs" warning
   * exactly when the record lists no CVE, and an "invalid CVE ID" warning
   * for exactly the listed identifiers the nvd library rejects.
   */
  lemma ResearcherWarningsSpec(nvd: Oracle, r: Researcher, p: string)
    ensures var ws := ResearcherWarnings(nvd, r, p);
            var rel := ResearcherPathToRelPath(p);
            (DirMismatch(r.alias, rel, ResearcherFileName(r.alias)) in ws <==> LastElement(p) != ResearcherFileName(r.alias))
            && (NoCVEs(r.alias, rel) in ws <==> r.cves == [])
            && (forall id :: InvalidCVERef(id, rel) in ws <==> id in r.cves && !nvd.isCVEID(id))
  {
    var rel := ResearcherPathToRelPath(p);
    var cves := Researchers.DedupeSorted(r).cves;
    Researchers.DedupeSortedSpec(r);
    var refs := InvalidRefs(nvd, cves, rel);
    assert DirMismatch(r.alias, rel, ResearcherFileName(r.alias)) !in refs;
    assert NoCVEs(r.alias, rel) !in refs;
    if r.cves != [] {
      assert r.cves[0] in cves;
    }
  }

  /**
   * A researcher lint never fails on what the record says: it fails only
   * when the file cannot be opened, parsed or rewritten; when it stops
   * before rewriting it leaves every file as it was and prints nothing.
   */
  lemma LintResearcherFailures(files: map<string, string>, faults: map<string, set<nat>>, p: string,
                               codec: Codec, nvd: Oracle)
    ensures var o := LintResearcherOutcome(files, faults, p, codec, nvd);
            (o.err.Some? ==> o.err.value == OpenError(p) || o.err.value.ResearcherParseError? || o.err.value.CompileError?)
            && (o.err.Some? && !o.err.value.CompileError? ==> o.files == files && o.warnings == [])
            && (p in files && ParseResearcherMDFile(codec, files[p]).Ok? ==>
                  o.warnings == ResearcherWarnings(nvd, ParseResearcherMDFile(codec, files[p]).value, p))
  {
  }

  /**
   * A researcher lint that succeeds leaves the file holding the delimited
   * YAML header and the bio of the record with its CVE list sorted and
   * duplicate-free, keeping exactly its values.
   */
  lemma LintResearcherRewrites(files: map<string, string>, faults: map<string, set<nat>>, p: string,
                               codec: Codec, nvd: Oracle)
    requires LintResearcherOutcome(files, faults, p, codec, nvd).err == None
    ensures p in files && ParseResearcherMDFile(codec, files[p]).Ok?
    ensures var r := ParseResearcherMDFile(codec, files[p]).value;
            var d := Researchers.DedupeSorted(r);
            StrictlySorted(d.cves) && d.(cves := r.cves) == r
            && (forall x :: x in d.cves <==> x in r.cves)
            && codec.encode(ResearcherDoc(d)).Some?
            && LintResearcherOutcome(files, faults, p, codec, nvd).files[p]
               == Image(ResearcherDoc(d), codec.encode(ResearcherDoc(d)).value)
  {
    var r := ParseResearcherMDFile(codec, files[p]).value;
    var d := Researchers.DedupeSorted(r);
    Researchers.DedupeSortedSpec(r);
    CompiledSuccess(codec, p, ResearcherDoc(d), files[p], FaultsAt(faults, p), 0);
  }

  /**
   * Linting a researcher file a second time changes nothing, provided that
   * the file written by the first lint reads back as the record it was
   * written from.
   */
  lemma LintResearcherIdempotent(files: map<string, string>, faults: map<string, set<nat>>, p: string,
                                 codec: Codec, nvd: Oracle)
    requires p in files && ParseResearcherMDFile(codec, files[p]).Ok?
    requires LintResearcherOutcome(files, faults, p, codec, nvd).err == None
    requires ParseResearcherMDFile(codec, LintResearcherOutcome(files, faults, p, codec, nvd).files[p])
          == Ok(Researchers.DedupeSorted(ParseResearcherMDFile(codec, files[p]).value))
    ensures var o := LintResearcherOutcome(files, faults, p, codec, nvd);
            LintResearcherOutcome(o.files, faults, p, codec, nvd) == o
  {
    var r := ParseResearcherMDFile(codec, files[p]).value;
    RewriteResearcherAgain(files, faults, p, codec, nvd, r);
  }

  /** Rewriting the deduped record over the file it was just written to changes nothing. */
  lemma RewriteResearcherAgain(files: map<string, string>, faults: map<string, set<nat>>, p: string,
                               codec: Codec, nvd: Oracle, r: Researcher)
    requires p in files
    requires RewriteResearcher(files, faults, p, codec, nvd, r).err == None
    ensures var o := RewriteResearcher(files, faults, p, codec, nvd, r);
            RewriteResearcher(o.files, faults, p, codec, nvd, Researchers.DedupeSorted(r)) == o
  {
    var o := RewriteResearcher(files, faults, p, codec, nvd, r);
    RewriteResearcherDeduped(o.files, faults, p, codec, nvd, r);
    RewriteResearcherOver(files, faults, p, codec, nvd, r);
  }

  /** Rewriting the deduped record does what rewriting the record does. */
  lemma RewriteResearcherDeduped(files: map<string, string>, faults: map<string, set<nat>>, p: string,
                                 codec: Codec, nvd: Oracle, r: Researcher)
    requires p in files
    ensures RewriteResearcher(files, faults, p, codec, nvd, Researchers.DedupeSorted(r))
         == RewriteResearcher(files, faults, p, codec, nvd, r)
  {
    Researchers.DedupeSortedIdempotent(r);
    ResearcherWarningsOfDeduped(nvd, r, p);
  }

  /** A successful rewrite repeated over its own result changes nothing. */
  lemma RewriteResearcherOver(files: map<string, string>, faults: map<string, set<nat>>, p: string,
                              codec: Codec, nvd: Oracle, r: Researcher)
    requires p in files
    requires RewriteResearcher(files, faults, p, codec, nvd, r).err == None
    ensures var o := RewriteResearcher(files, faults, p, codec, nvd, r);
            RewriteResearcher(o.files, faults, p, codec, nvd, r) == o
  {
    var t := ResearcherDoc(Researchers.DedupeSorted(r));
    var failing := FaultsAt(faults, p);
    var c := Compiled(codec, p, t, files[p], failing, 0);
    var files' := files[p := c.content];
    assert RewriteResearcher(files, faults, p, codec, nvd, r).files == files';
    var c' := Compiled(codec, p, t, files'[p], failing, 0);
    CompiledIgnoresOldContent(codec, p, t, files[p], files'[p], failing);
    assert c' == c;
    UpdateWithSame(files', p);
    assert RewriteResearcher(files', faults, p, codec, nvd, r).files == files';
  }

  /** Writing a path's own content back to it leaves the map as it was. */
  lemma UpdateWithSame<K, V>(m: map<K, V>, k: K)
    requires k in m
    ensures m[k := m[k]] == m
  {
  }

  /** Once the record encodes, what a rewrite leaves does not depend on the old content. */
  lemma CompiledIgnoresOldContent(codec: Codec, path: string, t: Doc, before: string, before': string, failing: set<nat>)
    requires codec.encode(t).Some?
    ensures Compiled(codec, path, t, before', failing, 0) == Compiled(codec, path, t, before, failing, 0)
  {
  }

  /** The warnings about a record and about its deduped form are the same. */
  lemma ResearcherWarningsOfDeduped(nvd: Oracle, r: Researcher, p: string)
    ensures ResearcherWarnings(nvd, Researchers.DedupeSorted(r), p) == ResearcherWarnings(nvd, r, p)
  {
    Researchers.DedupeSortedIdempotent(r);
  }

  // ----- LintCommit -------------------------------------------------------------------

  /**
   * What LintCommit returns, the errors it logs, the warnings printed on
   * the way, and the files it leaves.
   */
  datatype Run = Run(err: Option<Error>, log: seq<Error>, warnings: seq<Warning>, files: map<string, string>)

  /** The failure of one lint as log.Print records it: nothing when it succeeded. */
  function Logged(e: Option<Error>): (r: seq<Error>)
    ensures |r| <= 1 && (r == [] <==> e.None?) && (e.Some? ==> r == [e.value])
  {
    match e
    case None => []
    case Some(x) => [x]
  }

  /** A run that follows what was logged and printed before it. */
  function After(log: seq<Error>, warnings: seq<Warning>, rest: Run): Run
  {
    Run(rest.err, log + rest.log, warnings + rest.warnings, rest.files)
  }

  /**
   * One turn of LintCommit's loop: an unmatched path ends the loop with the
   * classifier's error; otherwise the path is linted below the repository
   * directory and its failure is logged, except the panic of a path too
   * short to slice, which ends the loop.
   */
  function LintPath(files: map<string, string>, faults: map<string, set<nat>>, dir: string, p: string,
                    codec: Codec, nvd: Oracle): Run
  {
    match Classify(p)
    case Err(e) => Run(Some(e), [], [], files)
    case Ok(kind) =>
      var o := LintFile(kind, files, faults, Join([dir, p]), codec, nvd);
      if o.err.Some? && o.err.value.SlicePanic? then Run(o.err, [], o.warnings, o.files)
      else Run(None, Logged(o.err), o.warnings, o.files)
  }

  /** The loop of LintCommit over the changed paths, in order, until a turn ends it. */
  function Sweep(files: map<string, string>, faults: map<string, set<nat>>, dir: string, paths: seq<string>,
                 codec: Codec, nvd: Oracle): Run
    decreases |paths|
  {
    if paths == [] then Run(None, [], [], files)
    else
      var s := LintPath(files, faults, dir, paths[0], codec, nvd);
      if s.err.Some? then s
      else After(s.log, s.warnings, Sweep(s.files, faults, dir, paths[1..], codec, nvd))
  }

  /** LintCommit as a whole: a failure to list the commit's files is returned as it is. */
  function CommitRun(files: map<string, string>, faults: map<string, set<nat>>, dir: string,
                     changed: Result<seq<string>>, codec: Codec, nvd: Oracle): Run
  {
    match changed
    case Err(e) => Run(Some(e), [], [], files)
    case Ok(paths) => Sweep(files, faults, dir, paths, codec, nvd)
  }

  lemma AfterAfter(log: seq<Error>, warnings: seq<Warning>, log': seq<Error>, warnings': seq<Warning>, rest: Run)
    ensures After(log, warnings, After(log', warnings', rest)) == After(log + log', warnings + warnings', rest)
  {
    assert log + (log' + rest.log) == log + log' + rest.log;
    assert warnings + (warnings' + rest.warnings) == warnings + warnings' + rest.warnings;
  }

  /** The body of LintCommit's loop for the path p. */
  method LintChangedPath(fs: FileSystem, dir: string, p: string, codec: Codec, nvd: Oracle)
    returns (err: Option<Error>, logged: seq<Error>, warnings: seq<Warning>)
    modifies fs
    ensures Run(err, logged, warnings, fs.files) == LintPath(old(fs.files), fs.faults, dir, p, codec, nvd)
  {
    var kind := PathIsType(p);
    if kind.Err? {
      return Some(kind.error), [], [];
    }
    var q := Join([dir, p]);
    var e: Option<Error>;
    if kind.value == CveKind {
      e, warnings := LintCVE(fs, q, codec, nvd);
    } else {
      e, warnings := LintResearcher(fs, q, codec, nvd);
    }
    if e.Some? && e.value.SlicePanic? {
      return e, [], warnings;
    }
    return None, Logged(e), warnings;
  }

  /**
   * LintCommit: lists the files the commit changed, classifies each and
   * lints it below the repository directory.  The list of changed files
   * comes from the version-control collaborator.
   */
  method LintCommit(fs: FileSystem, dir: string, changed: Result<seq<string>>, codec: Codec, nvd: Oracle)
    returns (err: Option<Error>, log: seq<Error>, warnings: seq<Warning>)
    modifies fs
    ensures Run(err, log, warnings, fs.files) == CommitRun(old(fs.files), fs.faults, dir, changed, codec, nvd)
  {
    if changed.Err? {
      return Some(changed.error), [], [];
    }
    var paths := changed.value;
    log, warnings := [], [];
    var i := 0;
    while i < |paths|
      invariant 0 <= i <= |paths|
      invariant After(log, warnings, Sweep(fs.files, fs.faults, dir, paths[i..], codec, nvd))
             == Sweep(old(fs.files), fs.faults, dir, paths, codec, nvd)
    {
      ghost var before := fs.files;
      SliceHead(paths, i);
      SweepCons(before, fs.faults, dir, paths[i], paths[i + 1..], codec, nvd);
      var e, logged, ws := LintChangedPath(fs, dir, paths[i], codec, nvd);
      ghost var s := Run(e, logged, ws, fs.files);
      assert s == LintPath(before, fs.faults, dir, paths[i], codec, nvd);
      if e.Some? {
        assert Sweep(before, fs.faults, dir, paths[i..], codec, nvd) == s;
        return e, log + logged, warnings + ws;
      }
      ghost var tail := Sweep(fs.files, fs.faults, dir, paths[i + 1..], codec, nvd);
      assert Sweep(before, fs.faults, dir, paths[i..], codec, nvd) == After(logged, ws, tail);
      AfterAfter(log, warnings, logged, ws, tail);
      log := log + logged;
      warnings := warnings + ws;
      i := i + 1;
    }
    assert log + [] == log && warnings + [] == warnings;
    return None, log, warnings;
  }

  // ----- what LintCommit guarantees -------------------------------------------------

  /**
   * A lint never reports an unmatched path, and panics only on a CVE path
   * with fewer than three elements.
   */
  lemma LintFileErrors(kind: DocKind, files: map<string, string>, faults: map<string, set<nat>>, p: string,
                       codec: Codec, nvd: Oracle)
    ensures var o := LintFile(kind, files, faults, p, codec, nvd);
            (o.err.Some? ==> !o.err.value.UnmatchedPath?)
            && (o.err.Some? && o.err.value.SlicePanic? <==> kind == CveKind && p in files && |Split(p, '/')| < 3)
            && (o.err.Some? && o.err.value.SlicePanic? ==> o.err.value == SlicePanic(p))
  {
    if kind == CveKind {
      if p in files && |Split(p, '/')| >= 3 && ParseCVEMDFile(codec, files[p]).Ok? {
        var cve := ParseCVEMDFile(codec, files[p]).value;
        if nvd.isCVEID(cve.cveID) {
          assert LintFile(kind, files, faults, p, codec, nvd) == RewriteCve(files, faults, p, codec, cve);
          RewriteCveFailure(files, faults, p, codec, cve);
        }
      }
    } else {
      LintResearcherFailures(files, faults, p, codec, nvd);
    }
  }

  /** One turn of the loop changes at most the file of its own path. */
  lemma LintPathTouches(files: map<string, string>, faults: map<string, set<nat>>, dir: string, p: string,
                        codec: Codec, nvd: Oracle)
    ensures var s := LintPath(files, faults, dir, p, codec, nvd);
            s.files.Keys == files.Keys
            && forall q :: q in files && q != Join([dir, p]) ==> s.files[q] == files[q]
  {
    if Classify(p).Ok? {
      LintFileTouchesOnly(Classify(p).value, files, faults, Join([dir, p]), codec, nvd);
    }
  }

  /** One turn of the loop ends it only on an unmatched path or a panic, and logs at most one lint failure. */
  lemma LintPathErrors(files: map<string, string>, faults: map<string, set<nat>>, dir: string, p: string,
                       codec: Codec, nvd: Oracle)
    ensures var s := LintPath(files, faults, dir, p, codec, nvd);
            (s.err.Some? ==> s.err.value == UnmatchedPath(p) || s.err.value == SlicePanic(Join([dir, p])))
            && (Classify(p).Err? <==> s.err.Some? && s.err.value.UnmatchedPath?)
            && |s.log| <= 1
            && (forall e :: e in s.log ==> !e.UnmatchedPath? && !e.SlicePanic?)
  {
    ClassifySpec(p);
    if Classify(p).Ok? {
      LintFileErrors(Classify(p).value, files, faults, Join([dir, p]), codec, nvd);
    }
  }

  /** A record path with no empty, "." or ".." element never ends the loop. */
  lemma LintPathPlain(files: map<string, string>, faults: map<string, set<nat>>, dir: string, p: string,
                      codec: Codec, nvd: Oracle)
    requires Classify(p).Ok? && IsPlainPath(p)
    ensures LintPath(files, faults, dir, p, codec, nvd).err == None
  {
    var q := Join([dir, p]);
    ClassifySpec(p);
    JoinKeepsPlainTail(dir, p);
    LintFileErrors(Classify(p).value, files, faults, q, codec, nvd);
  }

  /** LintCommit creates and removes no file. */
  lemma {:induction false} SweepKeepsPaths(files: map<string, string>, faults: map<string, set<nat>>, dir: string,
                                           paths: seq<string>, q: string, codec: Codec, nvd: Oracle)
    ensures q in Sweep(files, faults, dir, paths, codec, nvd).files <==> q in files
    decreases |paths|
  {
    if paths != [] {
      var s := LintPath(files, faults, dir, paths[0], codec, nvd);
      LintPathTouches(files, faults, dir, paths[0], codec, nvd);
      var r := Sweep(files, faults, dir, paths, codec, nvd);
      if s.err.None? {
        var rest := Sweep(s.files, faults, dir, paths[1..], codec, nvd);
        assert r.files == rest.files;
        SweepKeepsPaths(s.files, faults, dir, paths[1..], q, codec, nvd);
      } else {
        assert r == s;
      }
    }
  }

  /**
   * LintCommit leaves alone every file that is not below the repository
   * directory at one of the commit's paths.
   */
  lemma {:induction false} SweepTouchesOnlyChanged(files: map<string, string>, faults: map<string, set<nat>>, dir: string,
                                                   paths: seq<string>, q: string, codec: Codec, nvd: Oracle)
    requires q in files && forall k :: 0 <= k < |paths| ==> q != Join([dir, paths[k]])
    ensures var r := Sweep(files, faults, dir, paths, codec, nvd);
            q in r.files && r.files[q] == files[q]
    decreases |paths|
  {
    if paths != [] {
      var s := LintPath(files, faults, dir, paths[0], codec, nvd);
      LintPathTouches(files, faults, dir, paths[0], codec, nvd);
      assert q != Join([dir, paths[0]]);
      if s.err.None? {
        forall k | 0 <= k < |paths[1..]|
          ensures q != Join([dir, paths[1..][k]])
        {
          assert paths[1..][k] == paths[k + 1];
        }
        SweepTouchesOnlyChanged(s.files, faults, dir, paths[1..], q, codec, nvd);
      }
    }
  }

  /**
   * LintCommit fails only on a path it cannot classify or on the panic of
   * a path too short to slice: the failure of a lint is only logged, at
   * most once per path.
   */
  lemma {:induction false} SweepFailures(files: map<string, string>, faults: map<string, set<nat>>, dir: string,
                                         paths: seq<string>, codec: Codec, nvd: Oracle)
    ensures var r := Sweep(files, faults, dir, paths, codec, nvd);
            (r.err.Some? ==>
               exists k :: 0 <= k < |paths| && (r.err.value == UnmatchedPath(paths[k]) || r.err.value == SlicePanic(Join([dir, paths[k]]))))
            && (forall e :: e in r.log ==> !e.UnmatchedPath? && !e.SlicePanic?)
            && |r.log| <= |paths|
    decreases |paths|
  {
    if paths != [] {
      var s := LintPath(files, faults, dir, paths[0], codec, nvd);
      LintPathErrors(files, faults, dir, paths[0], codec, nvd);
      SliceHead(paths, 0);
      SweepCons(files, faults, dir, paths[0], paths[1..], codec, nvd);
      if s.err.None? {
        var rest := Sweep(s.files, faults, dir, paths[1..], codec, nvd);
        SweepFailures(s.files, faults, dir, paths[1..], codec, nvd);
        assert Sweep(files, faults, dir, paths, codec, nvd) == After(s.log, s.warnings, rest);
        if rest.err.Some? {
          var k :| 0 <= k < |paths[1..]| &&
            (rest.err.value == UnmatchedPath(paths[1..][k]) || rest.err.value == SlicePanic(Join([dir, paths[1..][k]])));
          assert paths[1..][k] == paths[k + 1];
        }
      }
    }
  }

  /** A path LintCommit cannot classify makes it fail, at that path or at an earlier one. */
  lemma {:induction false} SweepUnmatched(files: map<string, string>, faults: map<string, set<nat>>, dir: string,
                                          paths: seq<string>, k: nat, codec: Codec, nvd: Oracle)
    requires k < |paths| && Classify(paths[k]).Err?
    ensures Sweep(files, faults, dir, paths, codec, nvd).err.Some?
    decreases |paths|
  {
    var s := LintPath(files, faults, dir, paths[0], codec, nvd);
    LintPathErrors(files, faults, dir, paths[0], codec, nvd);
    if s.err.None? {
      assert k != 0;
      assert paths[1..][k - 1] == paths[k];
      SweepUnmatched(s.files, faults, dir, paths[1..], k - 1, codec, nvd);
    }
  }

  /**
   * When the paths before it are record paths with no empty, "." or ".."
   * element, LintCommit returns exactly PathIsType's error for the first
   * path it cannot classify.
   */
  lemma {:induction false} SweepFirstUnmatched(files: map<string, string>, faults: map<string, set<nat>>, dir: string,
                                               paths: seq<string>, k: nat, codec: Codec, nvd: Oracle)
    requires k < |paths| && Classify(paths[k]).Err?
    requires forall j :: 0 <= j < k ==> Classify(paths[j]).Ok? && IsPlainPath(paths[j])
    ensures Sweep(files, faults, dir, paths, codec, nvd).err == Some(Classify(paths[k]).error)
    decreases |paths|
  {
    var s := LintPath(files, faults, dir, paths[0], codec, nvd);
    SliceHead(paths, 0);
    SweepCons(files, faults, dir, paths[0], paths[1..], codec, nvd);
    if k == 0 {
      LintPathUnmatched(files, faults, dir, paths[0], codec, nvd);
    } else {
      PlainBeforeTail(paths, k);
      LintPathPlain(files, faults, dir, paths[0], codec, nvd);
      SweepFirstUnmatched(s.files, faults, dir, paths[1..], k - 1, codec, nvd);
    }
  }

  /** Dropping the first of the plain record paths before paths[k] keeps the others before it. */
  lemma PlainBeforeTail(paths: seq<string>, k: nat)
    requires 0 < k < |paths|
    requires forall j :: 0 <= j < k ==> Classify(paths[j]).Ok? && IsPlainPath(paths[j])
    ensures Classify(paths[0]).Ok? && IsPlainPath(paths[0]) && paths[1..][k - 1] == paths[k]
    ensures forall j :: 0 <= j < k - 1 ==> Classify(paths[1..][j]).Ok? && IsPlainPath(paths[1..][j])
  {
    forall j | 0 <= j < k - 1
      ensures Classify(paths[1..][j]).Ok? && IsPlainPath(paths[1..][j])
    {
      assert paths[1..][j] == paths[j + 1];
    }
  }

  /**
   * Nothing after a path LintCommit cannot classify is linted: paths
   * appended after it change neither the result nor the files.
   */
  lemma {:induction false} SweepIgnoresRest(files: map<string, string>, faults: map<string, set<nat>>, dir: string,
                                            paths: seq<string>, rest: seq<string>, k: nat, codec: Codec, nvd: Oracle)
    requires k < |paths| && Classify(paths[k]).Err?
    ensures Sweep(files, faults, dir, paths + rest, codec, nvd) == Sweep(files, faults, dir, paths, codec, nvd)
    decreases |paths|
  {
    var p, tail := paths[0], paths[1..];
    var s := LintPath(files, faults, dir, p, codec, nvd);
    SplitHead(paths, rest);
    SweepCons(files, faults, dir, p, tail, codec, nvd);
    SweepCons(files, faults, dir, p, tail + rest, codec, nvd);
    if s.err.None? {
      assert k != 0 by { LintPathUnmatched(files, faults, dir, p, codec, nvd); }
      assert tail[k - 1] == paths[k];
      SweepIgnoresRest(s.files, faults, dir, tail, rest, k - 1, codec, nvd);
    }
  }

  /** A non-empty list of paths, and the same list followed by others, both start with its first path. */
  lemma SplitHead(paths: seq<string>, rest: seq<string>)
    requires paths != []
    ensures paths == [paths[0]] + paths[1..] && paths + rest == [paths[0]] + (paths[1..] + rest)
  {
  }

  /** A non-empty suffix of a list is its first element followed by the rest. */
  lemma SliceHead<T>(s: seq<T>, i: nat)
    requires i < |s|
    ensures s[i..] == [s[i]] + s[i + 1..]
  {
  }

  /** One turn of LintCommit's loop, seen from the outside: the first path, then the others. */
  lemma SweepCons(files: map<string, string>, faults: map<string, set<nat>>, dir: string, p: string, tail: seq<string>,
                  codec: Codec, nvd: Oracle)
    ensures var s := LintPath(files, faults, dir, p, codec, nvd);
            Sweep(files, faults, dir, [p] + tail, codec, nvd)
            == if s.err.Some? then s else After(s.log, s.warnings, Sweep(s.files, faults, dir, tail, codec, nvd))
  {
    assert ([p] + tail)[0] == p;
    assert ([p] + tail)[1..] == tail;
  }

  /** A path that cannot be classified ends the loop. */
  lemma LintPathUnmatched(files: map<string, string>, faults: map<string, set<nat>>, dir: string, p: string,
                          codec: Codec, nvd: Oracle)
    ensures Classify(p).Err? ==> LintPath(files, faults, dir, p, codec, nvd).err == Some(Classify(p).error)
  {
  }

  /**
   * When every changed path is a record path with no empty, "." or ".."
   * element, LintCommit succeeds, whatever the lints of the files report.
   */
  lemma {:induction false} SweepCompletes(files: map<string, string>, faults: map<string, set<nat>>, dir: string,
                                          paths: seq<string>, codec: Codec, nvd: Oracle)
    requires forall k :: 0 <= k < |paths| ==> Classify(paths[k]).Ok? && IsPlainPath(paths[k])
    ensures Sweep(files, faults, dir, paths, codec, nvd).err == None
    decreases |paths|
  {
    if paths != [] {
      var s := LintPath(files, faults, dir, paths[0], codec, nvd);
      LintPathPlain(files, faults, dir, paths[0], codec, nvd);
      forall k | 0 <= k < |paths[1..]|
        ensures Classify(paths[1..][k]).Ok? && IsPlainPath(paths[1..][k])
      {
        assert paths[1..][k] == paths[k + 1];
      }
      SweepCompletes(s.files, faults, dir, paths[1..], codec, nvd);
    }
  }

  /** A failure to list the commit's files is returned as it is, before any file is touched. */
  lemma CommitListingFails(files: map<string, string>, faults: map<string, set<nat>>, dir: string, e: Error,
                           codec: Codec, nvd: Oracle)
    ensures CommitRun(files, faults, dir, Err(e), codec, nvd) == Run(Some(e), [], [], files)
  {
  }
}
