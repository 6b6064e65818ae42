/**
 * researcher.go: the researcher record, its normalisation (dedupeSort) and
 * the checks that place a researcher file in the repository.
 */
module Researchers {
  import opened GoStrings
  import opened StringOrder
  import opened GoPath
  import opened Util

  /** A researcher record: profile fields, the CVEs credited to the researcher and the bio (the markdown body). */
  datatype Researcher = Researcher(
    name: string, alias: string, nationality: string, website: string, twitter: string,
    github: string, linkedin: string, hackerone: string, bugcrowd: string,
    cves: seq<string>, bio: string)

  /** The record dedupeSort leaves behind. */
  function DedupeSorted(r: Researcher): Researcher
  {
    r.(cves := SortUniq(r.cves))
  }

  /**
   * dedupeSort makes the list of CVEs strictly increasing, keeps exactly the
   * identifiers it had, and changes no other field.
   */
  lemma DedupeSortedSpec(r: Researcher)
    ensures StrictlySorted(DedupeSorted(r).cves)
    ensures forall x :: x in DedupeSorted(r).cves <==> x in r.cves
    ensures DedupeSorted(r).(cves := r.cves) == r
  {
    SortUniqSpec(r.cves);
  }

  /** The records dedupeSort leaves unchanged are those whose CVE list is strictly increasing. */
  lemma DedupeSortedFixedPoints(r: Researcher)
    ensures DedupeSorted(r) == r <==> StrictlySorted(r.cves)
  {
    SortUniqSpec(r.cves);
    if StrictlySorted(r.cves) {
      SortUniqUnique(r.cves, r.cves);
    }
  }

  /** Normalising twice is normalising once. */
  lemma DedupeSortedIdempotent(r: Researcher)
    ensures DedupeSorted(DedupeSorted(r)) == DedupeSorted(r)
  {
    SortUniqIdempotent(r.cves);
  }

  /** A researcher record held by reference, as the receiver of dedupeSort sees it. */
  class ResearcherRecord {
    var name: string
    var alias: string
    var nationality: string
    var website: string
    var twitter: string
    var github: string
    var linkedin: string
    var hackerone: string
    var bugcrowd: string
    var cves: seq<string>
    var bio: string

    constructor (r: Researcher)
      ensures Value() == r
    {
      name, alias, nationality, website, twitter := r.name, r.alias, r.nationality, r.website, r.twitter;
      github, linkedin, hackerone, bugcrowd := r.github, r.linkedin, r.hackerone, r.bugcrowd;
      cves, bio := r.cves, r.bio;
    }

    /** The record's current field values. */
    function Value(): Researcher
      reads this
    {
      Researcher(name, alias, nationality, website, twitter, github, linkedin, hackerone, bugcrowd, cves, bio)
    }

    /** dedupeSort: replaces the list of CVEs by its sorted, duplicate-free form. */
    method DedupeSort()
      modifies this
      ensures Value() == DedupeSorted(old(Value()))
    {
      cves := SortUniqField(cves);
    }
  }

  // ----- placement of a researcher file ----------------------------------------

  /** researcherFileName: the alias with the ".md" extension; dropping the extension gives the alias back. */
  function ResearcherFileName(alias: string): (r: string)
    ensures HasSuffix(r, ".md") && TrimSuffix(r, ".md") == alias
  {
    var r := alias + ".md";
    assert r[..|alias|] == alias;
    r
  }

  /** The last element of a path. */
  function LastElement(path: string): string
  {
    var sp := Split(path, '/');
    sp[|sp| - 1]
  }

  /**
   * isValidResearcherSubPath: compares the last element of the path with
   * the researcher's file name.
   */
  method IsValidResearcherSubPath(alias: string, path: string) returns (ok: bool)
    ensures ok <==> LastElement(path) == ResearcherFileName(alias)
  {
    var splitPath := Split(path, '/');
    splitPath := splitPath[|splitPath| - 1..];
    var splitValid := [ResearcherFileName(alias)];
    ok := ElementsMatch(splitPath, splitValid);
  }

  /** The file of a researcher whose alias has no '/' is in its place below any directory. */
  lemma ValidUnderAnyDirectory(alias: string, dir: string)
    requires '/' !in alias
    ensures LastElement(dir + "/" + ResearcherFileName(alias)) == ResearcherFileName(alias)
  {
    var f := ResearcherFileName(alias);
    assert '/' !in f by {
      assert f == alias + ".md";
    }
    SplitConcat(dir, f, '/');
    SplitNoSep(f, '/');
  }

  /** An alias holding a '/' is never in its place, whatever the path. */
  lemma SlashAliasNeverValid(alias: string, path: string)
    requires '/' in alias
    ensures LastElement(path) != ResearcherFileName(alias)
  {
    var f := ResearcherFileName(alias);
    assert f == alias + ".md";
    var k :| 0 <= k < |alias| && alias[k] == '/';
    assert f[k] == '/';
  }

  /**
   * researcherPathToRelPath: the part of the path after its last '/', or the
   * whole path when it has none.
   */
  function ResearcherPathToRelPath(p: string): (r: string)
    ensures '/' !in r && EndsAtBoundary(p, r, '/')
    ensures '/' !in p ==> r == p
    ensures r == LastElement(p)
  {
    var splitPath := Split(p, '/');
    SplitSuffix(p, 1, '/');
    if '/' in p then JoinWith(splitPath[|splitPath| - 1..], '/')
    else SplitNoSep(p, '/'); JoinWith(splitPath[|splitPath| - 1..], '/')
  }
}
