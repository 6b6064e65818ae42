# cvebaser lint core in Dafny

This project models the lint and normalise logic of cvebaser, the tool that keeps the
cvebase.com content repository tidy. That repository holds two kinds of markdown records:

- CVE records, at `cve/<year>/<bucket>/<CVE-ID>.md`;
- researcher profiles, at `researcher/<alias>.md`.

Each record file starts with a YAML header between two `---` lines, followed by free prose
(the CVE's advisory or the researcher's bio).

To lint a file, cvebaser:

1. opens the file;
2. parses the header into a record and takes the prose verbatim;
3. refuses a CVE whose identifier the nvd library rejects;
4. prints a warning when the file is not where its identifier or alias says it should be;
5. sorts every list of the record and removes its duplicates;
6. rewrites the file from the record.

`LintCommit` does this for every file a commit touched, in the order the version-control
collaborator lists them. A path that is neither a CVE path nor a researcher path ends the
run. The failure of a single lint is only logged.

The model follows the Go files one module each:

| module | Go file | what it holds |
|---|---|---|
| `Util` | util.go | `UniqStrings` and `SortUniqStrings` as in-place array methods, proved against `Uniq`, `Sort` and `SortUniq` |
| `Cve`, `Researchers` | cve.go, researcher.go | the records; `dedupeSort` as a method of a record class; the placement checks and relative paths |
| `Repo` | repo.go | the identifier-to-path codec (`cveSeqDir`, `CVESubPath`), the path classifier `PathIsType`, `WantPath`, `ResearcherSubPath` and `CvebaseURL` |
| `File` | file.go | parsing over an abstract front-matter splitter and YAML codec; `CompileToFile` as a method that truncates, seeks and writes an open file |
| `Lint` | lint.go | `lintCVE`, `lintResearcher` and `LintCommit` as methods over a file system class, each proved equal to a specification function |

The modules `GoStrings`, `GoPath`, `StringOrder` and `Nvd` give the Go library calls that
the core makes the behaviour it relies on:

- `strings.Split` and `strings.Join`;
- `strconv.Itoa` and `strconv.Atoi`;
- the string order `<`;
- `path.Join` and `path.Clean`;
- `filepath.Match` for patterns made of literals and `*`;
- `filepath.Ext`.

Several things that Go keeps outside the core become values or parameters:

- **The file system** is a `map<string, string>` from path to content, held by a
  `FileSystem` object.
- **Write failures** come from a fault oracle: a fixed map from path to the indices of the
  write calls that fail on that file.
- **Printed warnings and logged errors** are returned as sequences of `Warning` and `Error`
  values.
- **The nvd library's predicates** `IsCVEID` and `IsCVEIDStrict`, and its repair function
  `FixCVEID`, are fields of an `Oracle` value.
- **The YAML encoder, marshaller and decoders, and the front-matter splitter**, are partial
  functions in a `Codec` value.

`cve.go` and `repo.go` both define `cveSubPath`/`cveSeqDir`. They are modelled once, as
`Repo.CVESubPath` and `Repo.CveSeqDir`.

Details of the code that the model follows as written:

- `lintCVE` checks the identifier with `nvd.IsCVEID`, not with the strict check.
- A researcher file that does not parse is reported without its path.
- The "sequence invalid" error of `cveSeqDir` is unreachable. `Repo.CveSeqDir` proves it.
- A CVE path whose joined form has fewer than three elements makes `lintCVE` panic in Go
  once the file has opened. The model returns this panic as the error `SlicePanic`, and
  `LintCommit` stops on it the way a panic stops the Go loop. A missing file at such a path
  gives the open error instead, as in Go.

## Model

| member | source | states |
|---|---|---|
| Util.Uniq | util.go:22-33 | the compacted slice has no duplicates, holds exactly the input's values and is no longer than the input |
| Util.UniqKeepsFirstOrder | util.go:25-32 | the kept values appear in the order of their first occurrences in the input |
| Util.UniqOfDistinct | util.go:25-32 | a slice without duplicates comes back unchanged |
| Util.UniqOfSorted | util.go:13-17 | compacting a sorted slice gives a strictly increasing one |
| Util.UniqStrings | util.go:22-33 | the array's front part of the returned length j becomes the first occurrences of the old values in order; j never exceeds the length and the cells from j on keep their old values |
| Util.Sort | util.go:13-16 | the sorted sequence is a permutation of the input |
| Util.SortSorted | util.go:13-16 | the sorted sequence is in non-decreasing order under Go's string order |
| Util.InsertSorted | util.go:13-16 | inserting into a sorted sequence keeps it sorted |
| Util.SortSlice | util.go:16 | the array is reordered in place into the sorted permutation of its old values |
| Util.SortUniqStrings | util.go:9-18 | a slice of length at most one is returned unchanged; otherwise the front part of the returned length is the sorted, duplicate-free form of the old values and the rest is the sorted array's tail |
| Util.SortUniqSpec | util.go:9-18 | the result is strictly increasing and holds exactly the input's values |
| Util.SortUniqUnique | util.go:9-18 | any strictly increasing sequence with the input's values equals the result |
| Util.SortUniqIdempotent | util.go:9-18 | sorting and compacting the result again changes nothing |
| Util.SortUniqRepeated | util.go:13-17 | three copies of a larger value and one smaller value collapse to the two values in increasing order |
| Util.SortUniqRepeatedLinks | cve_test.go:17-26 | the repeated github link and the exploit-db link collapse to exploit-db then github |
| Util.SortUniqField | cve.go:21-23 | a record field passed through SortUniqStrings on a fresh array becomes its sorted, duplicate-free form |
| Util.ElementsMatch | cve.go:41-45 | the comparison loop answers true exactly when every element of the first list equals the element of the second at the same index |
| StringOrder.LessIrreflexive | util.go:14 | no string is less than itself |
| StringOrder.LessAsymmetric | util.go:14 | a < b excludes b < a |
| StringOrder.LessTransitive | util.go:14 | Go's string order is transitive |
| StringOrder.LessTotal | util.go:14 | any two distinct strings are ordered one way or the other |
| StringOrder.LessAt | util.go:14 | strings with a common prefix are ordered by their first differing character |
| StringOrder.StrictlySortedUnique | util.go:9-18 | two strictly increasing sequences with the same values are equal |
| GoStrings.Split | cve.go:29 | strings.Split yields at least one element and no element holds the separator |
| GoStrings.SplitNoSep | cve.go:29 | a string without the separator splits into itself |
| GoStrings.SplitConcat | cve.go:29 | splitting a + sep + b gives the elements of a followed by those of b |
| GoStrings.SplitCons | cve.go:29 | a first element without the separator stays the first element |
| GoStrings.JoinSplit | cve.go:55 | joining the elements of a split gives the string back |
| GoStrings.SplitJoin | cve.go:55 | splitting a join of separator-free elements gives the elements back |
| GoStrings.JoinConcat | cve.go:55 | joining two lists end to end puts one separator between their joins |
| GoStrings.SplitSuffix | cve.go:55 | the join of the last k elements is a suffix of the string that starts at an element boundary |
| GoStrings.TrimSuffix | repo.go:124 | strings.TrimSuffix removes the suffix when present and otherwise returns the string unchanged |
| GoStrings.Itoa | repo.go:194 | strconv.Itoa prints a canonical decimal numeral |
| GoStrings.AtoiItoa | repo.go:194 | reading back a printed number gives the number |
| GoStrings.ItoaAtoi | repo.go:194 | printing the value of a canonical numeral gives the numeral |
| GoStrings.ItoaInjective | repo.go:194 | two numbers print alike exactly when they are equal |
| GoStrings.DecimalConcat | repo.go:199 | the value of two numerals end to end is the first shifted by the length of the second plus the second |
| GoStrings.ZerosValue | repo.go:199 | a string of zeros reads as 0 |
| GoStrings.ItoaLength | repo.go:200 | a number prints with four or more digits exactly when it is at least 1000 |
| GoStrings.ItoaThousands | repo.go:200 | dropping the last three digits of a number of at least 1000 prints its thousands |
| GoStrings.DropThreeDigits | repo.go:200 | dropping the last three digits of a numeral divides its value by 1000 |
| GoPath.CleanElementsConcat | repo.go:194 | path.Clean processes the elements of a path left to right |
| GoPath.CleanElementsPlain | repo.go:194 | elements that are neither empty, "." nor ".." pass through path.Clean unchanged |
| GoPath.CleanElementsNoSlash | repo.go:194 | cleaning never produces an element holding '/' |
| GoPath.CleanPlain | repo.go:194 | a path of plain elements is already clean |
| GoPath.PlainConcat | repo.go:194 | two plain paths joined with '/' form a plain path |
| GoPath.SplitFour | repo.go:165 | a four-element path splits into its four elements |
| GoPath.JoinPlain2 | repo.go:142 | path.Join of two plain paths puts one '/' between them |
| GoPath.JoinPlain3 | repo.go:194 | path.Join of three plain paths puts one '/' between each pair |
| GoPath.CleanKeepsPlainTail | lint.go:27 | cleaning a path keeps its trailing plain elements as its last elements |
| GoPath.JoinKeepsPlainTail | lint.go:27 | joining a plain relative path below any directory keeps all its elements as the last elements of the result |
| GoPath.ExtOfMd | repo.go:124 | filepath.Ext of a name ending in ".md" is ".md" |
| GoPath.ElementMatchLiteral | repo.go:171 | a pattern element without '*' matches exactly itself |
| GoPath.ElementMatchStar | repo.go:171 | the pattern element "*" matches any element |
| GoPath.ElementMatchStarSuffix | repo.go:171 | the pattern element "*" + suffix matches exactly the elements that end in the suffix |
| Nvd.ParseCVEID | repo.go:189 | the identifier parses exactly when it has at least three '-'-separated parts |
| Nvd.PadCVESequence | repo.go:199 | the padded sequence has at least four digits, reads back as the sequence, and is the plain numeral when that already has four digits |
| Nvd.ParseCVEIDOfParts | repo.go:189 | "prefix-year-sequence" parses to the values of its two numerals |
| Repo.CveSeqDir | repo.go:198-205 | cveSeqDir always succeeds, so its "sequence invalid" branch is unreachable, and the bucket ends in "xxx" |
| Repo.BucketIsThousands | repo.go:198-205 | the bucket is the thousands of the sequence, printed, followed by "xxx" |
| Repo.SameBucket | repo.go:198-205 | two sequences share a bucket exactly when they have the same thousands |
| Repo.BucketVectors | repo_test.go:161-176 | the sequences 974, 14882 and 97 fall in the buckets 0xxx, 14xxx and 0xxx |
| Repo.CVESubPath | repo.go:188-195 | the sub-path exists exactly when the identifier has three '-'-separated parts; otherwise the error names the identifier |
| Repo.SplitLayout | repo.go:194 | the sub-path splits into the year, the bucket and the file name, all plain elements |
| Repo.CVESubPathLayout | repo.go:188-195 | a parsable identifier without '/' maps to year/bucket/identifier.md |
| Repo.CVESubPathOfParts | repo.go:188-195 | an identifier "prefix-year-sequence" maps to year/(sequence without its last three digits)xxx/identifier.md |
| Repo.CVESubPathVector | repo_test.go:154-159 | CVE-2020-14882 maps to 2020/14xxx/CVE-2020-14882.md |
| Repo.CVESubPathRoundTrip | repo.go:121-125 | the file name of the sub-path, without its extension, gives the identifier back |
| Repo.ResearcherSubPath | repo.go:207-209 | the researcher sub-path, without its extension, gives the alias back |
| Repo.MatchFourElements | repo.go:171 | a lit/*/*/*suffix pattern matches exactly the four-element paths with that first element and last suffix |
| Repo.MatchTwoElements | repo.go:171 | a lit/*suffix pattern matches exactly the two-element paths with that first element and suffix |
| Repo.MatchCvePattern | repo.go:165 | "cve/*/*/*.md" matches exactly the CVE record paths |
| Repo.MatchResearcherPattern | repo.go:166 | "researcher/*.md" matches exactly the researcher record paths |
| Repo.LastMatchStep | repo.go:170-178 | scanning one more table entry keeps the last kind whose pattern matched |
| Repo.ClassifyScan | repo.go:168-183 | the scan of the pattern table answers researcher, else CVE, else the "unable to match path" error |
| Repo.ClassifySpec | repo.go:160-185 | PathIsType answers "cve" exactly for CVE paths and "researcher" exactly for researcher paths; the shapes are disjoint and every other path is an unmatched-path error |
| Repo.PathIsType | repo.go:160-185 | the loop over the pattern table returns the classification, with "cve" and "researcher" each exactly for their shape and an unmatched-path error otherwise |
| Repo.WantPath | repo.go:119-156 | a path of neither shape gives PathIsType's error; a CVE path gives path.Join of "cve" and the sub-path of its file name's identifier, repaired with FixCVEID when not strict, or that sub-path's error; a researcher path gives path.Join of "researcher" and its file-name stem with ".md" |
| Repo.WantPathUnmatched | repo.go:127-130 | a path of neither shape yields PathIsType's error |
| Repo.WantPathCve | repo.go:132-142 | a CVE path is mapped to cve/ followed by the sub-path of its file name's identifier, repaired when not strict |
| Repo.CanonicalCvePathShape | repo.go:132-142 | a canonical CVE path is a CVE path whose file name gives back the identifier |
| Repo.WantPathCanonicalCve | repo.go:119-156 | a canonical CVE path with a strict identifier is returned unchanged |
| Repo.ResearcherPathParts | repo.go:143-146 | a researcher path is researcher/ followed by a plain file name ending in ".md" |
| Repo.WantPathResearcher | repo.go:143-146 | a researcher path is returned unchanged |
| Repo.WantPathRepairsDirs | repo.go:132-142 | whatever year and bucket directories a CVE file sits in, the wanted path is the identifier's canonical one |
| Repo.WantPathVectors | repo_test.go:101-120 | the four WantPath vectors: canonical paths unchanged, a wrong bucket and a zero-padded sequence repaired |
| Repo.CvebaseURL | repo.go:211-217 | the URL is "" when the strict check fails |
| Repo.CvebaseURLOfParts | repo.go:211-217 | for a strict identifier the URL is https://www.cvebase.com/cve/ then the year and the sequence without leading zeros |
| Cve.DedupeSortedSpec | cve.go:20-24 | each link list becomes strictly sorted and duplicate-free with exactly its old values; the identifier and the advisory are unchanged |
| Cve.DedupeSortedFixedPoints | cve.go:20-24 | dedupeSort leaves a record unchanged exactly when its lists are already strictly sorted |
| Cve.DedupeSortedIdempotent | cve.go:20-24 | dedupeSort applied twice gives what it gives once |
| Cve.DedupeSortedVector | cve_test.go:9-38 | three repeated github links and an exploit-db link become exploit-db then github in all three lists |
| Cve.CveRecord.constructor | cve.go:12-18 | the record object holds the parsed CVE's fields |
| Cve.CveRecord.DedupeSort | cve.go:20-24 | the method replaces the three link fields in place by their sorted, duplicate-free forms and changes nothing else |
| Cve.IsValidCVESubPath | cve.go:27-48 | the last three path elements are compared one by one with the sub-path; the answer is false whenever the identifier has no sub-path |
| Cve.ValidCveSubPathLayout | cve.go:27-48 | for a parsable identifier the path is valid exactly when it ends in the year, the bucket and identifier.md |
| Cve.ValidUnderAnyDirectory | cve.go:27-48 | a file at its identifier's sub-path is valid below any directory |
| Cve.ValidCveSubPathVector | cve_test.go:47-50 | CVE-2016-0974 is valid at ../../../../cvebase.com/cve/2016/0xxx/CVE-2016-0974.md |
| Cve.LastNAppend | cve.go:32 | the last n elements of a list ending in n given elements are those elements |
| Cve.CvePathToRelPath | cve.go:51-56 | the relative path splits into exactly the last three elements of the path and is a suffix of it |
| Cve.RelPathOfSplit | cve.go:51-56 | a path whose last three elements are those of rel has rel as its relative path |
| Cve.RelPathOfLayout | cve.go:51-56 | a file at its sub-path below any directory has the sub-path as its relative path |
| Researchers.DedupeSortedSpec | researcher.go:22-24 | the CVE list becomes strictly sorted and duplicate-free with exactly its old values; every other field is unchanged |
| Researchers.DedupeSortedFixedPoints | researcher.go:22-24 | dedupeSort leaves a profile unchanged exactly when its CVE list is already strictly sorted |
| Researchers.DedupeSortedIdempotent | researcher.go:22-24 | dedupeSort applied twice gives what it gives once |
| Researchers.ResearcherRecord.constructor | researcher.go:8-20 | the record object holds the parsed profile's eleven fields |
| Researchers.ResearcherRecord.DedupeSort | researcher.go:22-24 | the method replaces the CVE list in place by its sorted, duplicate-free form and changes nothing else |
| Researchers.ResearcherFileName | researcher.go:45-47 | the file name ends in ".md" and trimming ".md" gives the alias back |
| Researchers.IsValidResearcherSubPath | researcher.go:27-43 | the answer is true exactly when the last path element is the alias's file name |
| Researchers.ValidUnderAnyDirectory | researcher.go:27-47 | the file of an alias without '/' is valid below any directory |
| Researchers.SlashAliasNeverValid | researcher.go:27-47 | an alias holding '/' is never valid, since no path element holds '/' |
| Researchers.ResearcherPathToRelPath | researcher.go:50-53 | the relative path is the text after the last '/', the whole path when it has none |
| File.FrontMatter | file.go:54-61 | front matter is available exactly when the splitter and the marshaller succeed; each failure has its own error |
| File.ParseCVEMDFile | file.go:15-30 | parsing succeeds exactly when splitting, marshalling and decoding succeed; the advisory is the prose part verbatim and the other fields are the decoder's |
| File.ParseResearcherMDFile | file.go:34-49 | parsing succeeds exactly when splitting, marshalling and decoding succeed; the bio is the prose part verbatim and the other fields are the decoder's |
| File.ParseMDFile | file.go:53-78 | a front-matter failure is returned as it is for every target; a CVE target yields a CVE and a researcher target a researcher; any other target gives the unmarshal error when its decoding fails and the "unknown type" error when it succeeds |
| File.ParseMDFileAgrees | file.go:53-78 | the generic parser gives for each kind exactly what that kind's own parser gives |
| File.Overwrite | file.go:108 | a write at a position replaces the bytes there, keeps the others, and pads a gap with NUL bytes |
| File.OpenFile.constructor | lint.go:98 | an opened file holds the content at position 0 with no write made yet |
| File.OpenFile.ReadAll | file.go:16 | reading returns the content from the current position and leaves the position at the end |
| File.OpenFile.Truncate | file.go:105 | truncation keeps the first size bytes, or pads with NUL bytes, and keeps the position |
| File.OpenFile.Seek | file.go:106 | seeking sets the position and changes nothing else |
| File.OpenFile.WriteString | file.go:108-111 | a write either fails, changing nothing but the count of write calls, or overwrites at the position and advances it |
| File.ImageParts | file.go:108-128 | the parts written, end to end, are the delimiter, the header, the delimiter and the prose |
| File.FirstFailureUnique | file.go:108-131 | the first failing write among n calls is the k before which no call fails and at which one fails |
| File.WriteOutcomeByParts | file.go:108-135 | the writes stop at the first failing one with a write error, leaving the parts before it; after all writes an unknown type is an error |
| File.PartPrefixes | file.go:108-128 | the file after each write holds the parts written so far |
| File.CompileToFile | file.go:82-138 | a failed encoding leaves the file untouched; otherwise the file is emptied and the parts are written in order, stopping at the first failing write |
| File.WriteDocument | file.go:108-135 | the four writes on an emptied file, each with its own error, then the type switch for the prose |
| File.CompiledSuccess | file.go:82-138 | on success the file holds exactly ---, the encoded header, --- and the CVE's advisory or the researcher's bio, and nothing of the old content |
| File.CompiledEncodeFailure | file.go:92-95 | the encoding error is returned exactly when encoding fails, and then the file keeps its old content and no write is made |
| File.ConcatPrefix | file.go:108-131 | what the first k writes leave is a prefix of the full image |
| File.CompiledWriteFailure | file.go:108-132 | after a write error the file holds a prefix of the image and the last write call was a failing one; the prefix is strict unless the failing call was the fourth, writing an empty body |
| File.CompiledOther | file.go:133-134 | a value of neither kind is refused only after the delimiters and the header were written |
| Lint.FileSystem.constructor | lint.go:98 | the file system holds the given files and faults |
| Lint.FileSystem.Open | lint.go:98-101 | opening fails exactly when no file is at the path; otherwise the open file holds its content at position 0 |
| Lint.FileSystem.Close | lint.go:102 | closing stores the open file's content at its path |
| Lint.Compiling | lint.go:126-129 | a CompileToFile failure is returned wrapped as a compile error, and success as success |
| Lint.CvePlacement | lint.go:115-119 | a directory warning is printed exactly when the file is not at its identifier's sub-path, naming the identifier, the relative path and the wanted sub-path |
| Lint.LintCVE | lint.go:97-131 | the method's error, warnings and files equal those of the lintCVE specification |
| Lint.LintCveAborts | lint.go:98-113 | a CVE lint that fails before rewriting leaves the files unchanged and prints nothing; only a failed write changes the file |
| Lint.RewriteCveFailure | lint.go:126-129 | the rewrite step fails only as a compile error and leaves the files unchanged unless a write failed |
| Lint.LintCvePlacementOnlyWarns | lint.go:115-126 | a parsed CVE with an accepted identifier is warned about exactly when misplaced, and fails only if its rewrite fails |
| Lint.LintCveRewrites | lint.go:121-130 | a successful CVE lint leaves the header and the advisory of the record with its lists sorted, duplicate-free and keeping exactly their values |
| Lint.LintCveIdempotent | lint.go:97-131 | linting a CVE file again changes nothing when the file written reads back as its record |
| Lint.RewriteCveDeduped | lint.go:122-126 | rewriting the deduped record does the same as rewriting the record |
| Lint.RewriteCveOver | lint.go:122-126 | a successful rewrite repeated over its own result changes nothing |
| Lint.InvalidRefs | lint.go:160-165 | one "invalid CVE ID" warning is printed for each listed identifier the nvd library rejects, and for nothing else; a list without duplicates gives warnings without duplicates, so one warning per rejected entry |
| Lint.CheckCVERefs | lint.go:160-165 | the loop prints the invalid-identifier warnings in list order |
| Lint.CheckResearcher | lint.go:146-165 | the record is deduped in place and the warnings are the researcher warnings of the parsed record |
| Lint.LintResearcher | lint.go:133-173 | the method's error, warnings and files equal those of the lintResearcher specification |
| Lint.ResearcherWarningsSpec | lint.go:146-165 | a placement warning exactly when misplaced, a "no CVEs" warning exactly when the list is empty, and an invalid-identifier warning exactly for each rejected listed identifier |
| Lint.LintResearcherFailures | lint.go:133-173 | a researcher lint fails only to open, parse or rewrite; before rewriting it changes nothing and prints nothing; the warnings never make it fail |
| Lint.LintResearcherRewrites | lint.go:152-172 | a successful researcher lint leaves the header and the bio of the profile with its CVE list sorted, duplicate-free and keeping exactly its values |
| Lint.LintResearcherIdempotent | lint.go:133-173 | linting a researcher file again changes nothing when the file written reads back as its profile |
| Lint.RewriteResearcherAgain | lint.go:152-170 | rewriting the deduped profile over the file just written changes nothing |
| Lint.RewriteResearcherDeduped | lint.go:152-170 | rewriting the deduped profile does the same as rewriting the profile |
| Lint.RewriteResearcherOver | lint.go:167-170 | a successful rewrite repeated over its own result changes nothing |
| Lint.CompiledIgnoresOldContent | file.go:105-106 | once the record encodes, what the rewrite leaves does not depend on the old content |
| Lint.ResearcherWarningsOfDeduped | lint.go:146-165 | a profile and its deduped form get the same warnings |
| Lint.LintFileTouchesOnly | lint.go:97-173 | a lint creates and removes no file and changes no file but its own |
| Lint.Logged | lint.go:28-35 | a lint failure is logged once, and a success logs nothing |
| Lint.LintChangedPath | lint.go:20-38 | one turn of the loop classifies the path and lints it below the repository directory, as the specification of a turn says |
| Lint.LintCommit | lint.go:13-42 | the method's result, log, warnings and files equal those of the sequential sweep over the listed paths in order |
| Lint.LintFileErrors | lint.go:97-173 | a lint never reports an unmatched path, and panics only on a CVE path with fewer than three elements |
| Lint.LintPathTouches | lint.go:19-38 | one turn changes at most the file at its own joined path |
| Lint.LintPathErrors | lint.go:19-38 | one turn ends the loop only on an unmatched path or a panic, and logs at most one failure |
| Lint.LintPathUnmatched | lint.go:20-23 | a path that cannot be classified ends the loop with PathIsType's error |
| Lint.LintPathPlain | lint.go:25-35 | a classifiable path without empty, "." or ".." elements never ends the loop |
| Lint.SweepCons | lint.go:19-38 | the sweep lints the first path, then stops on its failure or continues with the rest |
| Lint.SweepKeepsPaths | lint.go:13-42 | LintCommit creates and removes no file |
| Lint.SweepTouchesOnlyChanged | lint.go:19-38 | a file not at one of the commit's joined paths is left as it was |
| Lint.SweepFailures | lint.go:13-42 | LintCommit fails only on an unmatched path or a panic of one of its paths; lint failures are only logged, at most one per path |
| Lint.SweepUnmatched | lint.go:19-23 | a path that cannot be classified makes LintCommit fail |
| Lint.SweepFirstUnmatched | lint.go:19-23 | when the paths before it are plain record paths, LintCommit returns exactly PathIsType's error for the first path it cannot classify |
| Lint.SweepIgnoresRest | lint.go:19-23 | paths listed after one that cannot be classified change neither the result nor any file |
| Lint.SweepCompletes | lint.go:26-41 | when every path classifies and has no empty, "." or ".." element, LintCommit returns nil whatever the lints report |
| Lint.CommitListingFails | lint.go:14-17 | a failure to list the commit's files is returned as it is, before any file is touched |

## Left out

- `ScanTree`, `ScanCVE`, `LintAll` and `lintConcurrent` (repo.go:52-114, lint.go:45-95) are left out. They are goroutines, channels and a directory walk; their concurrency is not modelled.
- git.go, `NewRepo` and `GetFullPath` wrap go-git and are left out. `LintCommit` takes the collaborator's list of changed files, or its error, as a parameter.
- `DirExists` and `Exists` (util.go:37-58) are left out; they are `os.Stat` wrappers.
- export/export.go, cmd/cvebaser/main.go, lint/stats.go and types.go are not part of this model.
- The nvd library is not part of this model. `IsCVEID`, `IsCVEIDStrict` and `FixCVEID` are uninterpreted fields of `Nvd.Oracle`.
- Nvd.ParseCVEID: reads the second and third '-'-separated parts as numerals (a non-numeral reads as 0). It answers None for fewer than three parts, where the library's behaviour is unknown.
- Repo.CVESubPath: its error `UnparsableID` stands for the library's unknown behaviour on an identifier with fewer than three parts. The Go function has no such error; its only error comes from `cveSeqDir`, which cannot fail.
- Nvd.PadCVESequence: is "%04d". The bucket vectors for 97 and 974 need exactly this padding.
- The YAML encoder and decoders, the marshaller and the front-matter splitter are not part of this model. They are partial functions in `File.Codec`, and their formats (indentation, field order) are not modelled.
- File.OpenFile.Truncate: the errors of `Truncate` and `Seek` are not modelled; `CompileToFile` ignores them.
- File.OpenFile.WriteString: a failing write writes nothing; a partial write is not modelled. Which writes fail is fixed in advance by a fault oracle, instead of coming from the operating system.
- Content is modelled as strings of characters rather than bytes.
- The record that the Go parsers return alongside an error is not modelled; every caller discards it.
- Lint.LintCVE: the Go runtime panic of slicing the last three elements of a shorter path is the error `SlicePanic`. It ends `LintCommit` the way the panic ends the Go loop, but it does not unwind the rest of the program.
- Cve.IsValidCVESubPath: it answers false where Go would index past the end of the sub-path's elements. This can only happen when `path.Clean` shortens a sub-path built from an identifier that holds "/" or "..".
- The messages that Go prints and logs are the `Warning` and `Error` values; their text is not modelled. The researcher invalid-identifier message at lint.go:163 lacks a trailing newline, which is a formatting detail.
- The default branch "unknown path type" of `LintCommit` (lint.go:36-37) cannot be reached, because `PathIsType` answers only "cve" or "researcher". The model's `DocKind` has those two cases only.
- The error branch of `filepath.Match` (repo.go:172-174) cannot be reached with the two fixed patterns. `GoPath.Match` is defined only for patterns made of literal characters and `*`.
- Util.SortUniqField: `dedupeSort` in Go stores into the field a re-slice of the same backing array that it sorted in place. The model copies the field's values into a fresh array, so the sharing of that array with the old slice is not modelled.
- Lint.FileSystem.Close: the deferred `Close` is modelled as an explicit write-back of the open file's content at every return.
