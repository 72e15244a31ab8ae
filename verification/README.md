# Sidecar JSON resolver for Google Takeout media files

A Dafny model of `getCompanionJsonPathForMediaFile`, the function that finds
the JSON metadata file ("sidecar" or "companion file") that Google Takeout
writes next to an exported photo or video. Takeout names these sidecars
inconsistently, so the function works in two steps:

1. **Candidate generation** (`SidecarNames.Candidates`). This is a pure function of the
   media file's name without extension (`stem`) and its extension (`ext`). It first
   drops a trailing `-edited` (any casing). It then lists sidecar names in priority
   order:
   - the four base names;
   - the counter rule (`foo(1).jpg` -> `foo.jpg(1).json`, plus four still-image
     variants for `.mp4`/`.MP4`);
   - the stray-last-character rule (`_n-`, `_n`, `_`);
   - the video-thumbnail rule;
   - the 46-character length cap;
   - the two `.j.json` / `.jp.json` fallbacks.
   Duplicates are kept.
2. **Probing** (`Resolver.Probe`). This walks that list and returns the first name
   whose resolved path exists, or `None`.

Modules, one per concern:

- `Wrappers` (wrappers.dfy): `Option`.
- `Strings` (strings.dfy): character predicates that replace the regular expressions:
  ASCII digits, JavaScript line terminators, ASCII-case-insensitive comparison, `endsWith`.
- `Counter` (counter.dfy): the counter match `(?<name>.*)(?<counter>\(\d+\))$`, written as
  explicit backward scans. It comes with a proof that the split it finds is the only one.
- `SidecarNames` (sidecar_names.dfy): `-edited` stripping, one function per rule's
  sub-list, `Candidates`, and one lemma per rule stating where its names land.
- `Resolver` (resolver.dfy): first-hit `Probe` and the whole `CompanionJsonPath`.
- `Examples` (examples.dfy): worked cases of the rules, on concrete file names.

What the code does at the points where its comments or a quick reading could
suggest otherwise:

- The video test at lines 33 and 58 compares the extension with the exact strings
  `.mp4` and `.MP4`. So `.Mp4` gets no video names (`Examples.MixedCaseVideoExtension`).
- The comment at lines 24-25 says Takeout does not produce `foo(1).json` or
  `foo(1).jpg.json` for `foo(1).jpg`. The code still tries both, as base names at
  lines 18-19, before the counter name `foo.jpg(1).json` (`Examples.CounterPhoto`).
- The stray-character rule (lines 43-55) is one push guarded by a disjunction. All three
  endings give the same name: the stem without its last character
  (`Examples.StrayCharacter`).
- The counter rule and the stray-character rule never fire together: a counter ends in
  `)`, the stray endings in `-`, `n` or `_` (`SidecarNames.CounterExcludesTrailing`).
  So the longest list has 16 names, not the 17 that adding up every rule suggests
  (`SidecarNames.LongestCandidates`).

Behaviour of the regular expression that the model keeps:

- JavaScript's `.` does not match a line terminator (`\n`, `\r`, U+2028, U+2029).
  So when the stem contains one before a counter, the `name` group holds only the text
  after the last line terminator (`Examples.CounterAfterLineBreak`).
- The `i` flag in a non-unicode regular expression never folds a non-ASCII character
  onto an ASCII one. So for the all-ASCII pattern `-edited`, ASCII case-insensitive
  comparison is exact.

## Model

| member | source | states |
|---|---|---|
| SidecarNames.StripEditedSuffix | src/helpers/get-companion-json-path-for-media-file.ts:12 | A stem ending in `-edited` (any ASCII casing) loses exactly those 7 characters and keeps the rest as a prefix; any other stem is unchanged |
| SidecarNames.StripEditedAppended | src/helpers/get-companion-json-path-for-media-file.ts:12 | Appending any casing of `-edited` and then stripping gives back the original text |
| Counter.MatchCounter | src/helpers/get-companion-json-path-for-media-file.ts:27 | The counter regex matches iff some suffix is `(digits)`. On a match: the counter is `(digits)`; the name has no line terminator; name+counter is a suffix of the stem; and the name starts at the beginning or right after a line terminator |
| Counter.MatchCounterSplit | src/helpers/get-companion-json-path-for-media-file.ts:27 | Whenever the stem is `p + n + c`, with `c` a counter, `n` free of line terminators and `p` empty or ending in one, the match yields exactly `n` and `c` (the split is unique) |
| Counter.MatchCounterNoLineBreak | src/helpers/get-companion-json-path-for-media-file.ts:27 | For a stem without line breaks, `name + (digits)` splits into exactly that name and counter |
| Counter.CounterSuffixUnique | src/helpers/get-companion-json-path-for-media-file.ts:27 | At most one suffix of a string has the `(digits)` shape |
| Counter.CounterStartComplete | src/helpers/get-companion-json-path-for-media-file.ts:27 | The backward scan finds a counter exactly when the string ends in one |
| SidecarNames.Candidates | src/helpers/get-companion-json-path-for-media-file.ts:12-73 | Between 6 and 16 names, all ending in `.json`. The first four are `s.json`, `s+ext.json`, `s.jpg.json`, `s.HEIC.json` and the last two are `s.j.json`, `s.jp.json`, for `s` the stem after `-edited` stripping |
| SidecarNames.CandidatesLength | src/helpers/get-companion-json-path-for-media-file.ts:17-73 | The length is 6 plus 5 or 1 for a counter, 1 for a stray last character, 4 for `.mp4`/`.MP4`, 1 for a stem over 46 characters, each only when its trigger holds |
| SidecarNames.CounterExcludesTrailing | src/helpers/get-companion-json-path-for-media-file.ts:27-52 | A stem that ends in a counter never ends in `_n-`, `_n` or `_`, and the other way round, so the counter and stray-character rules never both fire |
| SidecarNames.LongestCandidates | src/helpers/get-companion-json-path-for-media-file.ts:17-73 | A video stem over 46 characters ending in a counter gets 16 names, so the bound of 16 is reached |
| SidecarNames.CounterRule | src/helpers/get-companion-json-path-for-media-file.ts:27-32 | When the stem is `p + n + c` with `c` a counter `(digits)`, `n` free of line terminators and `p` empty or ending in one, the fifth name is `n' + ext + c + ".json"`, where `n'` is `n` with `-edited` removed |
| SidecarNames.CounterRuleVideo | src/helpers/get-companion-json-path-for-media-file.ts:33-38 | For `.mp4`/`.MP4` with a stem split as in `CounterRule`, names 6-9 are the `.JPG`, `.jpg`, `.jpeg`, `.heic` counter variants, in that order |
| SidecarNames.TrailingRule | src/helpers/get-companion-json-path-for-media-file.ts:43-55 | A stem ending in `_n-`, `_n` or `_` gets exactly one extra name, the stem without its last character, right after the counter names |
| SidecarNames.ThumbnailRule | src/helpers/get-companion-json-path-for-media-file.ts:57-63 | For `.mp4`/`.MP4` the four names `s.JPG.json`, `s.jpg.json`, `s.jpeg.json`, `s.heic.json` follow the stray-character name |
| SidecarNames.TruncationRule | src/helpers/get-companion-json-path-for-media-file.ts:65-68 | A stem longer than 46 characters also gets its first 46 characters plus `.json`, right after the thumbnail names |
| SidecarNames.PlainStemCandidates | src/helpers/get-companion-json-path-for-media-file.ts:17-73 | With no counter, no stray character, no `.mp4`/`.MP4` and at most 46 characters, the list is exactly the four base names and the two fallbacks |
| SidecarNames.EditedSuffixIgnored | src/helpers/get-companion-json-path-for-media-file.ts:9-12 | For a stem `x` not already ending in `-edited`, `x` plus any casing of `-edited` yields the same candidate list as `x` |
| Resolver.Probe | src/helpers/get-companion-json-path-for-media-file.ts:77-86 | A result is the resolved path of some candidate that exists, with no earlier candidate existing. The result is `None` iff no candidate's path exists |
| Resolver.ProbeReturnsEarliest | src/helpers/get-companion-json-path-for-media-file.ts:77-82 | If candidate `i` exists and no earlier one does, the probe returns candidate `i`'s path, whatever later candidates exist |
| Resolver.ProbeDependsOnlyOnCandidates | src/helpers/get-companion-json-path-for-media-file.ts:77-82 | Two existence tests that agree on the candidates' paths give the same answer: only those paths are consulted |
| Resolver.CompanionJsonPath | src/helpers/get-companion-json-path-for-media-file.ts:4-86 | The resolver returns the path of the first existing candidate (a `.json` name), or `None` exactly when no candidate exists; "not found" is a value, not an error |
| Resolver.EditedMediaSharesCompanion | src/helpers/get-companion-json-path-for-media-file.ts:9-12 | An `-edited` media file resolves to the same sidecar as its original |
| Examples.PlainPhoto | src/helpers/get-companion-json-path-for-media-file.ts:17-73 | `IMG.jpg` gets exactly `IMG.json`, `IMG.jpg.json` (twice), `IMG.HEIC.json`, `IMG.j.json`, `IMG.jp.json` |
| Examples.EditedPhoto | src/helpers/get-companion-json-path-for-media-file.ts:9-12 | `IMG-edited.jpg` and `IMG-EDITED.jpg` get the same list as `IMG.jpg` |
| Examples.CounterPhoto | src/helpers/get-companion-json-path-for-media-file.ts:17-32 | `foo(1).jpg` gets exactly `foo(1).json`, `foo(1).jpg.json` (twice), `foo(1).HEIC.json`, `foo.jpg(1).json`, `foo(1).j.json`, `foo(1).jp.json`, in that order: the counter name comes after the base names, which the code tries although the comment at lines 24-25 says Takeout does not produce them |
| Examples.CounterVideo | src/helpers/get-companion-json-path-for-media-file.ts:33-38 | `foo(1).mp4` gets `foo.JPG(1).json`, `foo.jpg(1).json`, `foo.jpeg(1).json`, `foo.heic(1).json` as names 6-9 |
| Examples.StrayCharacter | src/helpers/get-companion-json-path-for-media-file.ts:43-55 | `clip_n.mp4` gets `clip_.json` and `clip_n-.mp4` gets `clip_n.json` as fifth name, the pairs the comments at lines 43-50 give |
| Examples.MixedCaseVideoExtension | src/helpers/get-companion-json-path-for-media-file.ts:58 | `clip.Mp4` gets 6 names, `clip.MP4` 10 |
| Examples.LongStem | src/helpers/get-companion-json-path-for-media-file.ts:65-68 | A 50-character stem is also tried cut to 46 characters |
| Examples.CounterAfterLineBreak | src/helpers/get-companion-json-path-for-media-file.ts:27-32 | For the stem `a\nb(2)` the counter name is `b.jpg(2).json` |
| Examples.EarlierCandidateWins | src/helpers/get-companion-json-path-for-media-file.ts:77-82 | With `foo.jpg(1).json` and `foo(1).jp.json` both present, `foo(1).jpg` resolves to the former |
| Examples.NothingOnDisk | src/helpers/get-companion-json-path-for-media-file.ts:84-86 | With nothing on disk the resolver returns `None` |

## Left out

- Splitting the media path with Node's `dirname`, `extname` and `basename` (lines 5-7).
  These are library path semantics; `dir`, `stem` and `ext` are inputs instead.
- `resolve(directoryPath, name)` (line 78). It is an uninterpreted `join` parameter.
- `existsSync` (line 79). It is a pure predicate parameter `fileExists`. Filesystem
  errors, permissions and changes between probes are not modelled.
- The JavaScript regular-expression engine. It is replaced by explicit predicates with
  the same matches: an ASCII-case-insensitive suffix test, a backward digit scan, and
  checks for `(`, `)` and line terminators.
- UTF-16 code units. The source's `.length`, `.slice` (lines 66-67) and regular
  expressions count UTF-16 code units; the model counts one Dafny `char` per Unicode
  scalar value. Three consequences:
  - a lone surrogate, which a JavaScript string can hold, cannot be represented;
  - a character outside the Basic Multilingual Plane is one `char` here but two code
    units in the source, so the `length > 46` test at line 66 can fire differently;
  - `slice(0, 46)` at line 67 can split such a character's surrogate pair in the
    source, which the model's cut never does.
- The commented-out candidate at line 40. It is not live behaviour.
