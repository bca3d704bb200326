# IGV session builder — a Dafny model

`resolwe_bio/tools/make_igv_session_archive.py` turns a manifest of file paths
into an IGV session file. The manifest's own name is `<sample>_<build>_temp_igv.txt`.
The tool:

- resolves the genome build from the second `_`-separated field of the
  manifest's name (`get_build_info`). The field is matched against a table of
  UCSC builds and the prefixes of other naming schemes: GRC, the GATK/Broad bundle
  (`b37`), MGSC and RGSC.
- builds a `Global` element that names the genome, with version `3`. It holds
  one `Resources` element.
- adds one `Resource` to `Resources` for every manifest line, in manifest
  order (`make_xml_tree`). The line's trailing whitespace is removed. When the
  path's grandparent directory is literally `None` (species and build
  unknown), every `None` is rewritten to `other_data`. The resource is named
  after the file and points to the path below `..`.
- writes the session to `IGV/<name with temp_igv.txt replaced by igv.xml>`
  (`write_xml_file`).

The project has four modules:

- `PyString` (`py_string.dfy`) models the Python string operations the tool
  relies on, with their exact semantics:
  - `str.split` and `str.join`;
  - `str.replace`, proved equal to joining the split pieces;
  - `str.rstrip()`, over the `str.isspace` character set.
- `PosixPath` (`posix_path.dfy`) models `os.path.basename`, `os.path.dirname`
  and two-argument `os.path.join` on POSIX. This includes repeated, leading
  and trailing slashes, and an absolute second argument.
- `BuildInfo` (`build_info.dfy`) models `get_build_info`. It holds the build
  table in the dict's insertion order. `ResolveBuild` is the list
  comprehension over that table, taking its first hit. `GetBuildInfo` is the
  whole function. Unpacking a name that does not have exactly four fields is
  the `ValueError` path, modelled as `Err(WrongFieldCount(n))`.
- `IgvSession` (`igv_session.dfy`) models `make_xml_tree` and the output name
  of `write_xml_file`:
  - `NormalizedLine` is the loop body up to the `None` rewrite, and
    `LineResource` is the name and path it computes;
  - `MakeResource` builds one `Resource` element, and `MakeXmlTree` is the
    loop, proved against the `SessionTree` predicate;
  - `OutputName` is the path that `write_xml_file` writes to.

The XML is an abstract element tree: tag, ordered attributes, children.

Two behaviours of the code are easy to misread:

- A resource's name is taken from the line after the `None` rewrite, not from
  the original line. For example, a file called `None` under `None/<dir>/` is
  shown as `other_data` (`IgvSession.NameTakenAfterRewrite`).
- A blank manifest line is not skipped. It still yields a resource with an
  empty name and path `../` (`IgvSession.BlankLine`).

The table's `rn6` alias `Rnor_6.0` contains a `_`. Every field produced by
`split('_')` is free of `_`, so the alias can never match, and `rn6` is
reported only for a field that is exactly `rn6` (`BuildInfo.Rn6OnlyExact`,
`BuildInfo.GetBuildInfoRn6`). Any other field with that prefix gives `''`.

## Model

All source paths are in `resolwe_bio/tools/make_igv_session_archive.py`.

| member | source | states |
|---|---|---|
| BuildInfo.MatchingKeys | resolwe_bio/tools/make_igv_session_archive.py:26 | the comprehension yields at most one key per table row, and every key it yields belongs to a row whose key equals the token or one of whose aliases prefixes it |
| BuildInfo.MatchingKeysNone | resolwe_bio/tools/make_igv_session_archive.py:26 | when no row matches, the comprehension is empty |
| BuildInfo.MatchingKeysSingle | resolwe_bio/tools/make_igv_session_archive.py:26 | when exactly one row matches, the comprehension is that row's key alone |
| BuildInfo.SeparatedAtMostOne | resolwe_bio/tools/make_igv_session_archive.py:26 | in a table whose keys differ and whose aliases neither prefix another row's key nor each other, no token matches two rows |
| BuildInfo.BuildTableKeysDistinct | resolwe_bio/tools/make_igv_session_archive.py:18-23 | the five build keys are pairwise different |
| BuildInfo.BuildTableAliasesApart | resolwe_bio/tools/make_igv_session_archive.py:18-23 | no alias of one build is a prefix of an alias of another |
| BuildInfo.BuildTableAliasNotKey | resolwe_bio/tools/make_igv_session_archive.py:18-23 | no alias of one build is a prefix of another build's key |
| BuildInfo.BuildTableSeparated | resolwe_bio/tools/make_igv_session_archive.py:18-23 | the build table has these three separation properties |
| BuildInfo.AtMostOneMatch | resolwe_bio/tools/make_igv_session_archive.py:18-28 | for every token at most one key matches, so taking `new_build[0]` never depends on dict order |
| BuildInfo.ResolveBuildMatches | resolwe_bio/tools/make_igv_session_archive.py:18-28 | the build resolves to a row's key if and only if the token equals that key or starts with one of its aliases |
| BuildInfo.ResolveBuildUnknown | resolwe_bio/tools/make_igv_session_archive.py:26-29 | the build is `''` if and only if no row matches the token |
| BuildInfo.ResolveBuildRange | resolwe_bio/tools/make_igv_session_archive.py:18-29 | the result is one of `hg38`, `hg19`, `mm10`, `mm9`, `rn6` or `''` |
| BuildInfo.AliasResolves | resolwe_bio/tools/make_igv_session_archive.py:26-28 | any token that starts with an alias resolves to that alias's build |
| BuildInfo.AliasPrefixes | resolwe_bio/tools/make_igv_session_archive.py:19-28 | tokens starting with `GRCh38`, `GRCh37`, `b37`, `GRCm38` or `MGSCv37`, whatever follows, resolve to `hg38`, `hg19`, `hg19`, `mm10` and `mm9` respectively |
| BuildInfo.ResolveBuildForeignInitial | resolwe_bio/tools/make_igv_session_archive.py:26-29 | a token whose first character begins no key and no alias resolves to `''` |
| BuildInfo.Rn6OnlyExact | resolwe_bio/tools/make_igv_session_archive.py:23-26 | a `_`-free token resolves to `rn6` if and only if it is exactly `rn6`; the alias `Rnor_6.0` is unreachable |
| BuildInfo.GetBuildInfoFails | resolwe_bio/tools/make_igv_session_archive.py:25 | unpacking fails if and only if the name does not hold exactly three `_`; the error reports that count plus one fields |
| BuildInfo.GetBuildInfoOfJoin | resolwe_bio/tools/make_igv_session_archive.py:25-29 | a name joined from `_`-free fields resolves its second field when there are four, and otherwise fails with the field count |
| BuildInfo.GetBuildInfoOfFields | resolwe_bio/tools/make_igv_session_archive.py:25-29 | `a_token_b_c` with `_`-free parts resolves `token` |
| BuildInfo.GetBuildInfoRn6 | resolwe_bio/tools/make_igv_session_archive.py:23-28 | a name is reported as `rn6` only when its second field is exactly `rn6` |
| BuildInfo.SessionNameBuild | resolwe_bio/tools/make_igv_session_archive.py:25-29 | `<sample>_<token>_temp_igv.txt` resolves `token` |
| BuildInfo.SessionNameExact | resolwe_bio/tools/make_igv_session_archive.py:20-28 | `<sample>_hg19_temp_igv.txt` gives `hg19` |
| BuildInfo.SessionNameAlias | resolwe_bio/tools/make_igv_session_archive.py:20-28 | `<sample>_b37_temp_igv.txt` gives `hg19` through the alias |
| BuildInfo.SessionNameUnknown | resolwe_bio/tools/make_igv_session_archive.py:26-29 | `<sample>_dm6_temp_igv.txt` gives `''` |
| BuildInfo.SessionNameMalformed | resolwe_bio/tools/make_igv_session_archive.py:25 | `<sample>_hg19_igv.xml` has three fields and fails to unpack |
| PyString.SplitOn | resolwe_bio/tools/make_igv_session_archive.py:25 | `split` always yields at least one field |
| PyString.SplitOnChar | resolwe_bio/tools/make_igv_session_archive.py:25 | splitting on `_` yields one field more than there are `_`, none containing `_` |
| PyString.SplitOnCharAbsent | resolwe_bio/tools/make_igv_session_archive.py:25 | a string without the separator splits into itself |
| PyString.SplitOnCharAppend | resolwe_bio/tools/make_igv_session_archive.py:25 | a separator-free first field followed by the separator is split off as is |
| PyString.SplitThenJoin | resolwe_bio/tools/make_igv_session_archive.py:25 | round trip: joining the split pieces with the separator gives the original string |
| PyString.JoinThenSplit | resolwe_bio/tools/make_igv_session_archive.py:25 | round trip: separator-free fields come back from splitting their join |
| PyString.JoinWithConsFirst | resolwe_bio/tools/make_igv_session_archive.py:25 | extending the first field by a character extends the join by that character |
| PyString.RStrip | resolwe_bio/tools/make_igv_session_archive.py:44 | stripping never lengthens the line |
| PyString.RStripSpec | resolwe_bio/tools/make_igv_session_archive.py:44 | the stripped line is a prefix of the line, does not end in whitespace, and only whitespace was removed |
| PyString.RStripUnique | resolwe_bio/tools/make_igv_session_archive.py:44 | those three properties determine the result |
| PyString.RStripAllStripped | resolwe_bio/tools/make_igv_session_archive.py:44 | a line of whitespace only strips to `''` |
| PyString.RStripTrailing | resolwe_bio/tools/make_igv_session_archive.py:44 | appending whitespace does not change the stripped line |
| PyString.ReplaceIsJoinOfSplit | resolwe_bio/tools/make_igv_session_archive.py:47 | `s.replace(a, b)` equals `b.join(s.split(a))` |
| PyString.ReplaceBySelf | resolwe_bio/tools/make_igv_session_archive.py:47 | replacing a needle by itself changes nothing |
| PyString.ReplaceAbsent | resolwe_bio/tools/make_igv_session_archive.py:47 | without an occurrence of the needle, `replace` is the identity |
| PyString.ReplaceWhole | resolwe_bio/tools/make_igv_session_archive.py:47 | a string equal to the needle becomes the replacement |
| PyString.StartsWithExtended | resolwe_bio/tools/make_igv_session_archive.py:47 | a prefix match survives extending the string |
| PyString.MatchBeforeChar | resolwe_bio/tools/make_igv_session_archive.py:47 | a needle without character `c` that matches at the start of `a + c + b` lies within `a` |
| PyString.ReplaceAroundChar | resolwe_bio/tools/make_igv_session_archive.py:47 | replacement never spans a character the needle lacks, so it works on each side of `/` independently |
| PyString.ReplaceKeepsAbsent | resolwe_bio/tools/make_igv_session_archive.py:47 | a character absent from the string and from the replacement, such as `/` for `other_data`, stays absent |
| PyString.UnmatchedPrefixShift | resolwe_bio/tools/make_igv_session_archive.py:67 | when no match of the needle starts inside `a`, none starts at the front of `a + rest`, nor inside `a` less its first character |
| PyString.ReplaceUnmatchedPrefix | resolwe_bio/tools/make_igv_session_archive.py:67 | a prefix inside which no match of the needle starts is copied unchanged, and only the rest is replaced |
| PosixPath.LastSlashEnd | resolwe_bio/tools/make_igv_session_archive.py:51 | the split point lies within the path |
| PosixPath.LastSlashEndSpec | resolwe_bio/tools/make_igv_session_archive.py:51 | the split point is just after a `/`, or 0, and no `/` follows it |
| PosixPath.Basename | resolwe_bio/tools/make_igv_session_archive.py:51 | the basename is no longer than the path |
| PosixPath.BasenameSpec | resolwe_bio/tools/make_igv_session_archive.py:51 | the basename has no `/`, ends the path, and is preceded by `/` or nothing |
| PosixPath.BasenameUnique | resolwe_bio/tools/make_igv_session_archive.py:51 | any split into a head ending in `/` (or empty) and a `/`-free tail has that tail as basename |
| PosixPath.BasenameOfChild | resolwe_bio/tools/make_igv_session_archive.py:51 | the basename of `dir/name` is `name` |
| PosixPath.Dirname | resolwe_bio/tools/make_igv_session_archive.py:46 | the dirname is no longer than the path |
| PosixPath.DirnameSpec | resolwe_bio/tools/make_igv_session_archive.py:46 | the dirname is a prefix of the path, is empty without a `/`, and is followed by `/` when it ends in a name |
| PosixPath.DirnameUnique | resolwe_bio/tools/make_igv_session_archive.py:46 | the dirname is determined by a split of the path into a directory, the slashes that end it and a `/`-free final component: a directory ending in a name followed by at least one `/`, or a directory of slashes only followed directly by the final component |
| PosixPath.DirnameOfChild | resolwe_bio/tools/make_igv_session_archive.py:46 | the dirname of `a/b` is `a` for a plain name `b` |
| PosixPath.GrandparentPrefix | resolwe_bio/tools/make_igv_session_archive.py:46 | a path whose grandparent directory is a plain name `n` starts with `n/` |
| PosixPath.BasenameOfJoin | resolwe_bio/tools/make_igv_session_archive.py:51-52 | `join` never changes the final component |
| IgvSession.MapAt | resolwe_bio/tools/make_igv_session_archive.py:43-53 | mapping keeps order: position `k` of the result holds `f` of item `k` |
| IgvSession.MapStep | resolwe_bio/tools/make_igv_session_archive.py:43-53 | appending one line's element per iteration yields the elements of the lines seen so far |
| IgvSession.SessionTreeOfElements | resolwe_bio/tools/make_igv_session_archive.py:32-53 | the `Global`/`Resources` tree over the elements of all manifest lines is the session tree: one resource per line, in manifest order |
| IgvSession.MakeResource | resolwe_bio/tools/make_igv_session_archive.py:43-53 | the loop body builds a `Resource` element with the line's name and path and no children |
| IgvSession.MakeXmlTree | resolwe_bio/tools/make_igv_session_archive.py:32-53 | the tree exists if and only if the name unpacks, and otherwise carries the same error. The tree is a `Global` root with `genome` set to the resolved build and `version` 3. It holds a single `Resources` element with exactly one resource per manifest line, in manifest order |
| IgvSession.NameIsBasenameOfPath | resolwe_bio/tools/make_igv_session_archive.py:51-52 | every resource's name is the basename of its path |
| IgvSession.TrailingWhitespaceIgnored | resolwe_bio/tools/make_igv_session_archive.py:43-44 | trailing whitespace on a manifest line, the newline included, does not change its resource |
| IgvSession.BlankLine | resolwe_bio/tools/make_igv_session_archive.py:43-53 | a blank line still yields a resource: name `''`, path `../` |
| IgvSession.ResourceOfRelative | resolwe_bio/tools/make_igv_session_archive.py:51-52 | a line normalised to a relative path `f` has path `../f` and is named after the basename of `f` |
| IgvSession.LineKeptVerbatim | resolwe_bio/tools/make_igv_session_archive.py:44-52 | a relative line outside `None/*/` has path `../` plus the stripped line, and is named after the stripped line's basename |
| IgvSession.LineAbsolute | resolwe_bio/tools/make_igv_session_archive.py:44-52 | an absolute line outside `None/*/` keeps its stripped path as the path |
| IgvSession.RewriteUnderNone | resolwe_bio/tools/make_igv_session_archive.py:47-52 | a path starting with `None/` is rewritten and joined to `../other_data/` plus its rewritten rest |
| IgvSession.LineUnderNone | resolwe_bio/tools/make_igv_session_archive.py:44-52 | a line whose grandparent directory is `None` starts with `None/`; its path is `../other_data/` plus the rest of the line, rewritten too |
| IgvSession.GrandparentOfChild | resolwe_bio/tools/make_igv_session_archive.py:46 | `None/<dir>/<file>` has grandparent directory `None` |
| IgvSession.RewriteChild | resolwe_bio/tools/make_igv_session_archive.py:47 | `None/<dir>/<file>` is rewritten component by component |
| IgvSession.NormalizedUnderNone | resolwe_bio/tools/make_igv_session_archive.py:44-47 | `None/<dir>/<file>`, followed by any trailing whitespace, normalises to `other_data/<dir'>/<file'>`, where `'` marks the rewritten component |
| IgvSession.ResourceUnderOtherData | resolwe_bio/tools/make_igv_session_archive.py:51-52 | a line normalised to `other_data/<d>/<f>` gives name `f` and path `../other_data/<d>/<f>` |
| IgvSession.LineInUnknownSpecies | resolwe_bio/tools/make_igv_session_archive.py:44-53 | `None/<dir>/<file>`, followed by any trailing whitespace, becomes the resource named `<file'>` with path `../other_data/<dir'>/<file'>`, where `'` marks the rewritten component |
| IgvSession.NameTakenAfterRewrite | resolwe_bio/tools/make_igv_session_archive.py:46-51 | a file called `None` under `None/<dir>/`, with any trailing whitespace, has basename `None` but is named `other_data` |
| IgvSession.OutputNameShape | resolwe_bio/tools/make_igv_session_archive.py:67 | a relative input name is written as `IGV/` plus the name with `temp_igv.txt` replaced by `igv.xml`; an absolute one without `IGV/` |
| IgvSession.OutputNameOfSessionFile | resolwe_bio/tools/make_igv_session_archive.py:67 | a relative `<prefix>temp_igv.txt` in which no other match of `temp_igv.txt` starts inside the prefix is written as `IGV/<prefix>igv.xml` |

## Left out

- Command-line parsing and `main` (lines 9-13 and 72-79). The manifest's name and
  its lines are the parameters of `MakeXmlTree`.
- File I/O. This covers opening and reading the manifest (line 42) and creating
  the `IGV` directory (line 66). It also covers writing the document (lines
  68-69) and the `OSError` any of these can raise. The manifest is given as the
  sequence of lines that iterating the file yields, newline characters included.
  Python's newline translation while reading is not modelled.
- XML serialisation (lines 55-61): pretty-printing, the XML declaration, UTF-8
  encoding, attribute escaping, and lxml's refusal of attribute values holding
  characters that XML forbids. The session is an abstract element tree.
- In-place growth of the lxml tree. The `Resource` elements are collected in a
  sequence in manifest order, and the `Global`/`Resources` tree is assembled
  from it at the end. Element identity and parent links are not modelled.
- `PyString.Whitespace` is the `str.isspace` set of the Unicode database Python 3
  uses. A later Unicode version could change it.
- `IgvSession.OutputNameOfSessionFile`: stated only for a name in which
  `temp_igv.txt` matches only at the end. `IgvSession.OutputNameShape` covers
  every name through `split`/`join`.
- `IgvSession.LineInUnknownSpecies`: stated for a line with exactly one directory
  between `None` and the file. `IgvSession.LineUnderNone` covers every line whose
  grandparent directory is `None`.
