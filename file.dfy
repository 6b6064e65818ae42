/**
 * file.go: reading a markdown record (YAML front matter, then the markdown
 * body) into a CVE or researcher record, and rewriting an open file from a
 * record.  The front-matter splitter of pageparser and the YAML encoder and
 * decoder are not part of this model; they are the fields of a Codec.
 */
module File {
  import opened Base
  import opened Cve
  import opened Researchers

  /** A YAML value, as the front-matter splitter hands it over. */
  datatype Yaml = Scalar(text: string) | Sequence(items: seq<Yaml>) | Mapping(entries: seq<(string, Yaml)>)

  /** The value CompileToFile is given: a CVE record, a researcher record, or anything else. */
  datatype Doc = CveDoc(cve: CVE) | ResearcherDoc(researcher: Researcher) | OtherDoc

  /** The record type ParseMDFile is asked to fill. */
  datatype Target = CveTarget | ResearcherTarget | OtherTarget

  /**
   * The libraries the file functions call, as partial functions (None is an
   * error): pageparser.ParseFrontMatterAndContent, yaml.Marshal,
   * yaml.Unmarshal into each record type (the body field is not decoded),
   * and the YAML encoder with a two-space indent.
   */
  datatype Codec = Codec(
    splitFrontMatter: string -> Option<(Yaml, string)>,
    marshal: Yaml -> Option<string>,
    unmarshalCve: string -> Option<CVE>,
    unmarshalResearcher: string -> Option<Researcher>,
    unmarshalOther: string -> bool,
    encode: Doc -> Option<string>)

  // ----- parsing --------------------------------------------------------------

  /** The first two steps every parse function takes: split off the front matter and marshal it again. */
  function FrontMatter(codec: Codec, text: string): (r: Result<(string, string)>)
    ensures r.Ok? <==> codec.splitFrontMatter(text).Some? && codec.marshal(codec.splitFrontMatter(text).value.0).Some?
    ensures r.Ok? ==> r.value.1 == codec.splitFrontMatter(text).value.1
    ensures codec.splitFrontMatter(text).None? ==> r == Err(FrontMatterError)
    ensures r.Err? && codec.splitFrontMatter(text).Some? ==> r == Err(MarshalError)
  {
    match codec.splitFrontMatter(text)
    case None => Err(FrontMatterError)
    case Some((fm, content)) =>
      match codec.marshal(fm)
      case None => Err(MarshalError)
      case Some(y) => Ok((y, content))
  }

  /** ParseCVEMDFile: the decoded record, with the markdown body as its advisory. */
  function ParseCVEMDFile(codec: Codec, text: string): (r: Result<CVE>)
    ensures r.Ok? <==> FrontMatter(codec, text).Ok? && codec.unmarshalCve(FrontMatter(codec, text).value.0).Some?
    ensures r.Ok? ==> r.value.advisory == codec.splitFrontMatter(text).value.1
    ensures r.Ok? ==> r.value.(advisory := "") == codec.unmarshalCve(FrontMatter(codec, text).value.0).value.(advisory := "")
    ensures r.Err? && FrontMatter(codec, text).Ok? ==> r == Err(UnmarshalError)
  {
    match FrontMatter(codec, text)
    case Err(e) => Err(e)
    case Ok((y, content)) =>
      match codec.unmarshalCve(y)
      case None => Err(UnmarshalError)
      case Some(cve) => Ok(cve.(advisory := content))
  }

  /** ParseResearcherMDFile: the decoded record, with the markdown body as its bio. */
  function ParseResearcherMDFile(codec: Codec, text: string): (r: Result<Researcher>)
    ensures r.Ok? <==> FrontMatter(codec, text).Ok? && codec.unmarshalResearcher(FrontMatter(codec, text).value.0).Some?
    ensures r.Ok? ==> r.value.bio == codec.splitFrontMatter(text).value.1
    ensures r.Ok? ==> r.value.(bio := "") == codec.unmarshalResearcher(FrontMatter(codec, text).value.0).value.(bio := "")
    ensures r.Err? && FrontMatter(codec, text).Ok? ==> r == Err(UnmarshalError)
  {
    match FrontMatter(codec, text)
    case Err(e) => Err(e)
    case Ok((y, content)) =>
      match codec.unmarshalResearcher(y)
      case None => Err(UnmarshalError)
      case Some(researcher) => Ok(researcher.(bio := content))
  }

  /**
   * ParseMDFile: decodes into the record type asked for and sets its body
   * field; any other type is decoded and then refused.
   */
  function ParseMDFile(codec: Codec, text: string, target: Target): (r: Result<Doc>)
    ensures r.Ok? && target == CveTarget ==> r.value.CveDoc?
    ensures r.Ok? && target == ResearcherTarget ==> r.value.ResearcherDoc?
    ensures FrontMatter(codec, text).Err? ==> r == Err(FrontMatter(codec, text).error)
    ensures target == OtherTarget && FrontMatter(codec, text).Ok? ==>
              r == Err(if codec.unmarshalOther(FrontMatter(codec, text).value.0) then UnknownType else UnmarshalError)
  {
    match FrontMatter(codec, text)
    case Err(e) => Err(e)
    case Ok((y, content)) =>
      match target
      case CveTarget =>
        (match codec.unmarshalCve(y)
         case None => Err(UnmarshalError)
         case Some(cve) => Ok(CveDoc(cve.(advisory := content))))
      case ResearcherTarget =>
        (match codec.unmarshalResearcher(y)
         case None => Err(UnmarshalError)
         case Some(researcher) => Ok(ResearcherDoc(researcher.(bio := content))))
      case OtherTarget =>
        if !codec.unmarshalOther(y) then Err(UnmarshalError) else Err(UnknownType)
  }

  /** ParseMDFile into a CVE or a researcher agrees with the dedicated parse function. */
  lemma ParseMDFileAgrees(codec: Codec, text: string)
    ensures ParseMDFile(codec, text, CveTarget) ==
      match ParseCVEMDFile(codec, text)
      case Ok(cve) => Ok(CveDoc(cve))
      case Err(e) => Err(e)
    ensures ParseMDFile(codec, text, ResearcherTarget) ==
      match ParseResearcherMDFile(codec, text)
      case Ok(researcher) => Ok(ResearcherDoc(researcher))
      case Err(e) => Err(e)
  {
    match FrontMatter(codec, text)
    case Err(e) =>
    case Ok((y, content)) =>
      assert ParseCVEMDFile(codec, text) == match codec.unmarshalCve(y)
        case None => Err(UnmarshalError)
        case Some(cve) => Ok(cve.(advisory := content));
  }

  // ----- the open file ----------------------------------------------------------

  /** n NUL characters, as a file grows when it is extended past its end. */
  function Nul(n: nat): (r: string)
    ensures |r| == n && forall i :: 0 <= i < n ==> r[i] == '\0'
  {
    if n == 0 then [] else Nul(n - 1) + ['\0']
  }

  /** The content after writing s at offset pos: s replaces what was there, and a gap is filled with NULs. */
  function Overwrite(d: string, pos: nat, s: string): (r: string)
    ensures |r| == if pos + |s| < |d| then |d| else pos + |s|
    ensures r[pos..pos + |s|] == s
    ensures forall i :: 0 <= i < |d| && (i < pos || pos + |s| <= i) ==> r[i] == d[i]
    ensures forall i :: |d| <= i < pos ==> r[i] == '\0'
  {
    var front := if pos <= |d| then d[..pos] else d + Nul(pos - |d|);
    var back := if pos + |s| < |d| then d[pos + |s|..] else [];
    front + s + back
  }

  /**
   * An open *os.File: its content, its offset, and how many write calls it
   * has served.  Which write calls fail is fixed when the file is opened.
   */
  class OpenFile {
    var data: string
    var pos: nat
    var writes: nat
    const failing: set<nat>

    constructor (content: string, failing: set<nat>)
      ensures data == content && pos == 0 && writes == 0 && this.failing == failing
    {
      data, pos, writes := content, 0, 0;
      this.failing := failing;
    }

    /** Reads from the offset to the end of the file. */
    method ReadAll() returns (s: string)
      modifies this
      ensures s == if old(pos) <= |data| then data[old(pos)..] else []
      ensures pos == if old(pos) <= |data| then |data| else old(pos)
      ensures data == old(data) && writes == old(writes)
    {
      if pos <= |data| {
        s := data[pos..];
        pos := |data|;
      } else {
        s := [];
      }
    }

    /** Truncate: cuts the file to the size, or extends it with NULs; the offset stays. */
    method Truncate(size: nat)
      modifies this
      ensures data == if size <= |old(data)| then old(data)[..size] else old(data) + Nul(size - |old(data)|)
      ensures pos == old(pos) && writes == old(writes)
    {
      if size <= |data| {
        data := data[..size];
      } else {
        data := data + Nul(size - |data|);
      }
    }

    /** Seek from the start of the file. */
    method Seek(offset: nat)
      modifies this
      ensures pos == offset && data == old(data) && writes == old(writes)
    {
      pos := offset;
    }

    /** WriteString: writes s at the offset and moves past it, unless this write call fails. */
    method WriteString(s: string) returns (ok: bool)
      modifies this
      ensures writes == old(writes) + 1
      ensures ok <==> old(writes) !in failing
      ensures ok ==> data == Overwrite(old(data), old(pos), s) && pos == old(pos) + |s|
      ensures !ok ==> data == old(data) && pos == old(pos)
    {
      ok := writes !in failing;
      if ok {
        data := Overwrite(data, pos, s);
        pos := pos + |s|;
      }
      writes := writes + 1;
    }
  }

  // ----- CompileToFile --------------------------------------------------------------

  const YamlDelim: string := "---\n"

  /** The body field written back verbatim: the advisory of a CVE, the bio of a researcher. */
  function Body(t: Doc): seq<string>
  {
    match t
    case CveDoc(cve) => [cve.advisory]
    case ResearcherDoc(researcher) => [researcher.bio]
    case OtherDoc => []
  }

  /** The strings CompileToFile writes, one write call each, in order. */
  function Parts(t: Doc, header: string): seq<string>
  {
    [YamlDelim, header, YamlDelim] + Body(t)
  }

  function Concat(parts: seq<string>): string
  {
    if parts == [] then "" else Concat(parts[..|parts| - 1]) + parts[|parts| - 1]
  }

  /** The content of a file rewritten without a failure. */
  function Image(t: Doc, header: string): (r: string)
    ensures t.CveDoc? ==> r == "---\n" + header + "---\n" + t.cve.advisory
    ensures t.ResearcherDoc? ==> r == "---\n" + header + "---\n" + t.researcher.bio
    ensures t.OtherDoc? ==> r == "---\n" + header + "---\n"
  {
    ImageParts(t, header);
    Concat(Parts(t, header))
  }

  lemma ImageParts(t: Doc, header: string)
    ensures Concat(Parts(t, header)) == "---\n" + header + "---\n" + Concat(Body(t))
  {
    var parts := Parts(t, header);
    PartPrefixes(t, header);
    if |parts| == 4 {
      assert parts[..4] == parts;
      assert Body(t)[..0] == [];
    } else {
      assert parts[..3] == parts;
    }
  }

  /** How many of n write calls, numbered from start, succeed before the first that fails. */
  function FirstFailure(failing: set<nat>, start: nat, n: nat): (k: nat)
    ensures k <= n
    ensures forall i :: start <= i < start + k ==> i !in failing
    ensures k < n ==> start + k in failing
    decreases n
  {
    if n == 0 || start in failing then 0 else 1 + FirstFailure(failing, start + 1, n - 1)
  }

  /** FirstFailure is determined by its contract. */
  lemma FirstFailureUnique(failing: set<nat>, start: nat, n: nat, k: nat)
    requires k <= n
    requires forall i :: start <= i < start + k ==> i !in failing
    requires k < n ==> start + k in failing
    ensures FirstFailure(failing, start, n) == k
  {
  }

  /** What a rewrite returns, what it leaves in the file, and how many write calls it made. */
  datatype Rewrite = Rewrite(err: Option<Error>, content: string, calls: nat)

  /**
   * What CompileToFile returns and leaves, given the file's content and how
   * many write calls it had served: on an encoding error the file is
   * untouched; otherwise the writing phase decides.
   */
  function Compiled(codec: Codec, path: string, t: Doc, before: string, failing: set<nat>, writes0: nat): Rewrite
  {
    match codec.encode(t)
    case None => Rewrite(Some(EncodeError(path)), before, 0)
    case Some(header) => WriteOutcome(path, t, header, failing, writes0)
  }

  /** The writing phase on an emptied file, one write call after the other, each of which may fail. */
  function WriteOutcome(path: string, t: Doc, header: string, failing: set<nat>, writes0: nat): Rewrite
  {
    var w := writes0;
    if w in failing then Rewrite(Some(WriteError(path)), "", 1)
    else if w + 1 in failing then Rewrite(Some(WriteError(path)), YamlDelim, 2)
    else if w + 2 in failing then Rewrite(Some(WriteError(path)), YamlDelim + header, 3)
    else
      var written := YamlDelim + header + YamlDelim;
      match t
      case OtherDoc => Rewrite(Some(UnknownType), written, 3)
      case CveDoc(cve) =>
        if w + 3 in failing then Rewrite(Some(WriteError(path)), written, 4) else Rewrite(None, written + cve.advisory, 4)
      case ResearcherDoc(researcher) =>
        if w + 3 in failing then Rewrite(Some(WriteError(path)), written, 4) else Rewrite(None, written + researcher.bio, 4)
  }

  lemma OverwriteAtEnd(d: string, s: string)
    ensures Overwrite(d, |d|, s) == d + s
  {
    var r := Overwrite(d, |d|, s);
    assert r[..|d|] == d;
    assert r == r[..|d|] + r[|d|..];
  }

  lemma ConcatSnoc(parts: seq<string>, k: nat)
    requires k < |parts|
    ensures Concat(parts[..k + 1]) == Concat(parts[..k]) + parts[k]
  {
    assert parts[..k + 1][..k] == parts[..k];
  }

  /**
   * The writing phase as a whole: the parts before the first failing write
   * call are in the file; a failing write call is the last one made and
   * yields a write error; a value that is neither record is refused after
   * its parts.
   */
  lemma WriteOutcomeByParts(path: string, t: Doc, header: string, failing: set<nat>, writes0: nat)
    ensures var parts := Parts(t, header);
            var k := FirstFailure(failing, writes0, |parts|);
            WriteOutcome(path, t, header, failing, writes0) == Rewrite(
              if k < |parts| then Some(WriteError(path)) else if t.OtherDoc? then Some(UnknownType) else None,
              Concat(parts[..k]),
              if k < |parts| then k + 1 else |parts|)
  {
    var parts := Parts(t, header);
    var n := |parts|;
    PartPrefixes(t, header);
    var w := writes0;
    if w in failing {
      FirstFailureUnique(failing, w, n, 0);
    } else if w + 1 in failing {
      FirstFailureUnique(failing, w, n, 1);
    } else if w + 2 in failing {
      FirstFailureUnique(failing, w, n, 2);
    } else if n == 3 {
      FirstFailureUnique(failing, w, n, 3);
    } else if w + 3 in failing {
      FirstFailureUnique(failing, w, n, 3);
    } else {
      FirstFailureUnique(failing, w, n, 4);
    }
  }

  /** The content after each of the write calls, one prefix of the parts at a time. */
  lemma PartPrefixes(t: Doc, header: string)
    ensures var parts := Parts(t, header);
            Concat(parts[..0]) == "" && Concat(parts[..1]) == YamlDelim
            && Concat(parts[..2]) == YamlDelim + header
            && Concat(parts[..3]) == YamlDelim + header + YamlDelim
            && (|parts| == 4 ==> Concat(parts[..4]) == YamlDelim + header + YamlDelim + parts[3])
  {
    var parts := Parts(t, header);
    assert parts[..0] == [];
    ConcatSnoc(parts, 0);
    ConcatSnoc(parts, 1);
    ConcatSnoc(parts, 2);
    if |parts| == 4 {
      ConcatSnoc(parts, 3);
    }
  }

  /**
   * CompileToFile: encodes the record first and gives up on an encoding
   * error before touching the file; then truncates the file and seeks to
   * its start before writing.
   */
  method CompileToFile(f: OpenFile, path: string, t: Doc, codec: Codec) returns (err: Option<Error>)
    modifies f
    ensures err == Compiled(codec, path, t, old(f.data), f.failing, old(f.writes)).err
    ensures f.data == Compiled(codec, path, t, old(f.data), f.failing, old(f.writes)).content
    ensures f.writes == old(f.writes) + Compiled(codec, path, t, old(f.data), f.failing, old(f.writes)).calls
    ensures codec.encode(t).Some? ==> f.pos == |f.data|
    ensures codec.encode(t).None? ==> unchanged(f)
  {
    var d := codec.encode(t);
    if d.None? {
      return Some(EncodeError(path));
    }
    f.Truncate(0);
    f.Seek(0);
    err := WriteDocument(f, path, t, d.value);
  }

  /**
   * The writing half of CompileToFile: the delimiter, the header, the
   * delimiter and the body, one write call each, stopping at the first
   * write that fails.  A value that is neither record is refused after the
   * header.
   */
  method WriteDocument(f: OpenFile, path: string, t: Doc, header: string) returns (err: Option<Error>)
    requires f.data == [] && f.pos == 0
    modifies f
    ensures err == WriteOutcome(path, t, header, f.failing, old(f.writes)).err
    ensures f.data == WriteOutcome(path, t, header, f.failing, old(f.writes)).content
    ensures f.writes == old(f.writes) + WriteOutcome(path, t, header, f.failing, old(f.writes)).calls
    ensures f.pos == |f.data|
  {
    var ok := f.WriteString(YamlDelim);
    if !ok {
      return Some(WriteError(path));
    }
    OverwriteAtEnd([], YamlDelim);
    ok := f.WriteString(header);
    if !ok {
      return Some(WriteError(path));
    }
    OverwriteAtEnd(YamlDelim, header);
    ok := f.WriteString(YamlDelim);
    if !ok {
      return Some(WriteError(path));
    }
    OverwriteAtEnd(YamlDelim + header, YamlDelim);
    ghost var written := f.data;
    match t {
      case CveDoc(cve) =>
        ok := f.WriteString(cve.advisory);
      case ResearcherDoc(researcher) =>
        ok := f.WriteString(researcher.bio);
      case OtherDoc =>
        return Some(UnknownType);
    }
    if !ok {
      return Some(WriteError(path));
    }
    OverwriteAtEnd(written, Body(t)[0]);
    return None;
  }

  // ----- what the rewrite guarantees ---------------------------------------------------

  /** A successful rewrite leaves exactly delimiter, header, delimiter and body; nothing of the old content survives. */
  lemma CompiledSuccess(codec: Codec, path: string, t: Doc, before: string, failing: set<nat>, writes0: nat)
    requires Compiled(codec, path, t, before, failing, writes0).err == None
    ensures codec.encode(t).Some? && !t.OtherDoc?
    ensures Compiled(codec, path, t, before, failing, writes0).content == Image(t, codec.encode(t).value)
  {
    var header := codec.encode(t).value;
    var parts := Parts(t, header);
    WriteOutcomeByParts(path, t, header, failing, writes0);
    assert parts[..|parts|] == parts;
  }

  /**
   * An encoding error is reported exactly when the encoder fails; the file
   * is then left as it was, with no write call made.
   */
  lemma CompiledEncodeFailure(codec: Codec, path: string, t: Doc, before: string, failing: set<nat>, writes0: nat)
    ensures Compiled(codec, path, t, before, failing, writes0).err == Some(EncodeError(path)) <==> codec.encode(t).None?
    ensures codec.encode(t).None? ==> Compiled(codec, path, t, before, failing, writes0).content == before
                                      && Compiled(codec, path, t, before, failing, writes0).calls == 0
  {
  }

  /** The parts written are a prefix of the whole sequence of parts. */
  lemma {:induction false} ConcatPrefix(parts: seq<string>, k: nat)
    requires k <= |parts|
    ensures |Concat(parts[..k])| <= |Concat(parts)|
    ensures Concat(parts[..k]) == Concat(parts)[..|Concat(parts[..k])|]
    decreases |parts| - k
  {
    if k < |parts| {
      ConcatPrefix(parts, k + 1);
      ConcatSnoc(parts, k);
      assert parts[..|parts|] == parts;
    } else {
      assert parts[..k] == parts;
    }
  }

  /**
   * A write error is returned at once: the file holds what was written
   * before the failing write call, a prefix of the full image, and the
   * failing call was the last one made. The prefix is strict unless the
   * failing call was the fourth, writing an empty body.
   */
  lemma CompiledWriteFailure(codec: Codec, path: string, t: Doc, before: string, failing: set<nat>, writes0: nat)
    requires Compiled(codec, path, t, before, failing, writes0).err == Some(WriteError(path))
    ensures codec.encode(t).Some?
    ensures var o := Compiled(codec, path, t, before, failing, writes0);
            var image := Image(t, codec.encode(t).value);
            |o.content| <= |image| && o.content == image[..|o.content|] && writes0 + o.calls - 1 in failing
  ensures var o := Compiled(codec, path, t, before, failing, writes0);
          |o.content| < |Image(t, codec.encode(t).value)| || (o.calls == 4 && Concat(Body(t)) == "")
  {
    var header := codec.encode(t).value;
    var parts := Parts(t, header);
    var k := FirstFailure(failing, writes0, |parts|);
    WriteOutcomeByParts(path, t, header, failing, writes0);
    ConcatPrefix(parts, k);
    PartPrefixes(t, header);
    ImageParts(t, header);
    if k == 3 {
      assert Body(t) == [parts[3]];
      assert Concat(Body(t)) == Concat([]) + parts[3];
    }
  }

  /** A value that is neither record is refused only after the delimiters and the header were written. */
  lemma CompiledOther(codec: Codec, path: string, before: string, failing: set<nat>, writes0: nat)
    requires codec.encode(OtherDoc).Some?
    requires Compiled(codec, path, OtherDoc, before, failing, writes0).err != Some(WriteError(path))
    ensures Compiled(codec, path, OtherDoc, before, failing, writes0)
         == Rewrite(Some(UnknownType), Image(OtherDoc, codec.encode(OtherDoc).value), 3)
  {
  }
}
