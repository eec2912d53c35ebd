# Nyaa release provider: title normaliser and release pipeline

This project is a Dafny model of the core of the Nyaa provider of a release
tracker (`src/providers/Nyaa.ts`). It covers two pieces:

- `formatTitle` turns a free-text fansub release title such as
  `[Erai-raws] Some Show S2 (1080p) [BD FLAC x265 Hi10 Dual-Audio]` into one
  canonical string ending in `SZNJD-<release group>`.
- `get` picks a recommendation entry's best links, or its alternative links
  when there are no best links. It keeps the links that point at a Nyaa view
  page and reads their numeric IDs. Each ID whose rebuilt view link has a
  manual override becomes a release record.

Modules:

- `Wrappers`: `Option` and `Result`. A `Result` failure is a rejected promise.
- `Text`: the JavaScript string operations the source uses.
  - `trim` and its whitespace set.
  - `split(' ')`, with `Join` as its inverse.
  - `includes`, ASCII `toUpperCase`/`toLowerCase`.
  - `+digits` and `${n}` between digit strings and numbers.
- `Patterns`: the provider's regular expressions, as leftmost-first searches.
  - Alternatives are tried in the order they are written.
  - Greedy quantifiers are tried longest first.
  - A `\b` that fails sends the search to the next alternative.
  - The `/i` flag is ASCII upper-case comparison.
- `Title`: field extraction, the output template and `formatTitle`.
- `Candidates`: link selection, link filtering, ID extraction and the override loop of `get`.

Some behaviour of the code is easy to misread. The model follows the code:

- IDs are not de-duplicated. Every retained link yields an ID, repeats included.
- The best links are chosen when the string is non-empty. It is not trimmed first.
- The chosen string is split on single spaces, not on runs of whitespace.
- A retained link that has no `nyaa.si/view/<digits>` makes the whole call
  reject: reading `[1]` of a failed match throws. The link is not skipped.
- The override table is keyed by the rebuilt view link `<nyaaUrl>/view/<id>`, not by the ID.
- The Hi10 branch adds ` 10bit` only after `x264`. After any other codec it adds
  ` x264 10bit`, so `x265` with Hi10 reads `x265 x264 10bit`.
  `Title.ExampleAssembly` pins this output for the fields of the example
  release `[Erai-raws] Some Show S2 (1080p) [BD FLAC x265 Hi10 Dual-Audio]`.
- The show-name pattern does not stop before the season when a `(` follows it.
  For the example release it captures `Some Show S2 `: the greedy class gives
  back the space before `(`, so the lookbehind `(?<!Season|[Ss]\d+|Arc)` sees a
  space, not `S2`. The output then reads
  `Some Show S2  S2 1080p BluRay FLAC  x265 x264 10bit Dual-Audio SZNJD-Erai-raws`.
- The dual-audio pattern also finds `Dual Audio` and `DualAudio`. Only
  `Dual-Audio` and `EN+JA` (any case) add ` Dual-Audio` to the output.
- The output has one form only, joined by spaces. No version field is read.

One fact about the resolution pattern is worth knowing.
`Patterns.ResolutionLookbehindIsRedundant` proves that its lookbehind
`(?<!264|265)` never rejects. The leading `\b` already forces a non-word
character before the first digit.

## Model

| member | source | states |
|---|---|---|
| Title.ReleaseGroup | src/providers/Nyaa.ts:92-94 | for a title opening with `[` and containing a later `]`, the group is the text up to the first `]`, so `[` + group + `]` is a prefix of the title and the group holds no `]`; any other title gives the empty group |
| Title.ReleaseGroupOfBracketed | src/providers/Nyaa.ts:92-94 | inverse: writing a `]`-free group in brackets before any text reads that group back; `[]` gives the empty group |
| Patterns.Search | src/providers/Nyaa.ts:105-112 | `match` finds the smallest offset at which the pattern matches, with the end that matching produces there; no match means no offset matches |
| Patterns.LeftmostMatch | src/providers/Nyaa.ts:105-112 | an offset that matches while every earlier one fails is exactly what the search returns |
| Patterns.FoundEmptyIff | src/providers/Nyaa.ts:105-112 | `?.[0] || ''` gives the empty string exactly when the pattern matches at no offset; no pattern matches the empty string, so `|| ''` only replaces a missing match |
| Patterns.FoundIsLeftmost | src/providers/Nyaa.ts:105-112 | a non-empty field is the text of a match at some offset of the title, and the pattern matches at no earlier offset |
| Patterns.FirstFit | src/providers/Nyaa.ts:99-103 | an alternation picks the first alternative, in written order, that fits and is followed by a word boundary |
| Patterns.TokenAt | src/providers/Nyaa.ts:99-103 | a word-bounded token matches at an offset exactly when the offset is a word boundary and some alternative fits there followed by a boundary; it then spans the first such alternative in written order |
| Patterns.SpellsLit | src/providers/Nyaa.ts:99-103 | under `/i` a literal alternative accepts exactly the strings equal to it after ASCII upper-casing |
| Patterns.SeasonAt | src/providers/Nyaa.ts:97 | a season match at an offset is non-empty and ends inside the title (its shape is what `Patterns.SeasonMatchShape` states) |
| Patterns.ResolutionAt | src/providers/Nyaa.ts:98 | a resolution match at an offset is non-empty and ends inside the title (its shape is what `Patterns.ResolutionMatchShape` states) |
| Patterns.ViewIdAt | src/providers/Nyaa.ts:159 | an ID match at an offset ends inside the link, after the 13-character prefix and at least one more character |
| Patterns.ViewIdMatchShape | src/providers/Nyaa.ts:159 | an ID match at an offset is `nyaa`, any character but a line terminator, `si/view/`, then the longest run of digits, which is non-empty; with that prefix and a digit after it, the pattern matches |
| Patterns.FoundSpellsWord | src/providers/Nyaa.ts:99-112 | a source, audio, video, Hi10 or dual-audio field is empty exactly when nothing matches; otherwise it is spelled by one of the pattern's alternatives |
| Patterns.WordFoundIff | src/providers/Nyaa.ts:99-112 | converse: a source, audio, video, Hi10 or dual-audio field is non-empty exactly when some alternative fits at some word boundary of the title and is followed by a boundary |
| Patterns.SeasonMatchShape | src/providers/Nyaa.ts:97 | a season match is `Season`, `S` or `Arc`, then whitespace, then a digit run or `Arc`, all case-insensitive |
| Patterns.FoundSeason | src/providers/Nyaa.ts:97-106 | the season field is empty exactly when nothing matches, and otherwise has the season shape |
| Patterns.SeasonFoundIff | src/providers/Nyaa.ts:97-106 | converse: the season field is non-empty exactly when some slice of the title has the season shape |
| Patterns.ResolutionMatchShape | src/providers/Nyaa.ts:98 | a resolution match is `WxH` with three or four digits on each side, or a non-zero digit, two or three digits and `p`; it has word boundaries on both sides |
| Patterns.FoundResolution | src/providers/Nyaa.ts:98-107 | the resolution field is empty exactly when nothing matches, and otherwise has the resolution shape |
| Patterns.ResolutionFoundIff | src/providers/Nyaa.ts:98-107 | converse: the resolution field is non-empty exactly when some slice of the title with word boundaries on both sides has the resolution shape |
| Patterns.ResolutionLookbehindIsRedundant | src/providers/Nyaa.ts:98 | the resolution pattern with its lookbehind against `264` and `265` matches exactly where the pattern without it matches |
| Title.NormaliseSource | src/providers/Nyaa.ts:108 | a source token that upper-cases to `BD` becomes `BluRay`; any other token, and the empty string, is kept as it is |
| Title.Extract | src/providers/Nyaa.ts:105-112 | each field is empty or has the shape its pattern accepts: the season and resolution shapes, a spelling of one of the word alternatives, or `BluRay` for the source |
| Title.SourceField | src/providers/Nyaa.ts:99-108 | the source field is `BluRay` exactly when the first source token is `BD` in any case or literally `BluRay`; otherwise it is that token verbatim, taken from the title; it is empty exactly when there is no token |
| Title.SourceKeptVerbatim | src/providers/Nyaa.ts:99-108 | `bd-RIP` is kept as written: the longer `BD-rip` alternative is tried before `BD` |
| Title.ShortSourceBecomesBluRay | src/providers/Nyaa.ts:99-108 | `bd` is reported as `BluRay` |
| Title.BacktrackingSourceBecomesBluRay | src/providers/Nyaa.ts:99-108 | in `BD-ripX` the `\b` after `BD-rip` fails, the alternation falls back to `BD`, and the field becomes `BluRay` |
| Title.RemapVideo | src/providers/Nyaa.ts:115-124 | after the switch the codec is never `HEVC` or `AVC` in any case: `HEVC` becomes `x265`, `AVC` becomes `x264` (any case), and nothing else is changed |
| Title.AudioIsCanonical | src/providers/Nyaa.ts:100-126 | the audio codec enters the output as `FLAC`, `OPUS`, `AAC`, `AC3`, `EAC3` or nothing |
| Title.VideoIsCanonical | src/providers/Nyaa.ts:101-126 | the video codec enters the output as `x265` exactly for `HEVC`/`x265`, as `x264` exactly for `AVC`/`x264` (any case), and as nothing exactly when none was found |
| Title.Hi10Suffix | src/providers/Nyaa.ts:129-135 | the Hi10 suffix is empty exactly when the Hi10 test fails; when it passes the suffix is ` 10bit` after an `x264` codec (any case) and ` x264 10bit` after any other |
| Title.Hi10GateIsPresence | src/providers/Nyaa.ts:102-129 | the Hi10 test passes exactly when the Hi10 pattern found something |
| Title.Hi10PTriesShortAlternativeFirst | src/providers/Nyaa.ts:102 | in `Hi10P` the `Hi10` alternative fails at the word boundary and `Hi10P` is found |
| Title.TenBitFollowsX264 | src/providers/Nyaa.ts:128-135 | with the Hi10 flag the codec text plus the suffix always ends in `x264 10bit`; without it no suffix is added |
| Title.DualSuffix | src/providers/Nyaa.ts:138-140 | the dual-audio suffix is ` Dual-Audio` exactly when the dual-audio test passes, and empty otherwise |
| Title.DualGateIsHyphenOrEnJa | src/providers/Nyaa.ts:103-140 | the dual-audio test passes exactly when the match spells `Dual-Audio` or `EN+JA`; a non-empty match that fails it spells `DualAudio` or `Dual`, a space character, `Audio` |
| Title.SpacedDualAudioAddsNothing | src/providers/Nyaa.ts:103-140 | `Dual Audio` is found but adds no ` Dual-Audio` |
| Title.Descriptor | src/providers/Nyaa.ts:126-142 | the text before the tag starts with the show name, is longer than it, and ends in a space |
| Text.Trim | src/providers/Nyaa.ts:144 | `trim` removes exactly the leading and trailing JavaScript whitespace: the result has none at either end and is a slice of the input |
| Text.TrimAroundSolid | src/providers/Nyaa.ts:142-144 | trimming text around a core that starts and ends with non-whitespace trims only the outer parts |
| Title.Assemble | src/providers/Nyaa.ts:126-144 | the assembled title is at least as long as `SZNJD-`, has no surrounding whitespace, and ends with `SZNJD-` and the release group without its trailing whitespace |
| Title.FormatTitle | src/providers/Nyaa.ts:91-145 | a normalised title is never empty, has no surrounding whitespace, and ends with `SZNJD-` and the title's release group less its trailing whitespace |
| Title.AssembleLayout | src/providers/Nyaa.ts:126-144 | trimming only touches whitespace before the first field and after the group; the tag and everything between survive |
| Title.AssembleExactSpacing | src/providers/Nyaa.ts:126-144 | with a show name that starts with a non-space and a group that does not end in one, the template's spacing, including the double space before the codec, is returned exactly |
| Title.AssembleAllEmpty | src/providers/Nyaa.ts:126-144 | with every field empty the output is `SZNJD-` |
| Title.ExampleDescriptor | src/providers/Nyaa.ts:126-140 | the fields of the example release `[Erai-raws] Some Show S2 (1080p) [BD FLAC x265 Hi10 Dual-Audio]` give `Some Show S2  S2 1080p BluRay FLAC  x265 x264 10bit Dual-Audio ` before the tag, the show name `Some Show S2 ` being what the show-name pattern captures |
| Title.ExampleAssembly | src/providers/Nyaa.ts:126-144 | the fields of the example release `[Erai-raws] Some Show S2 (1080p) [BD FLAC x265 Hi10 Dual-Audio]` assemble to `Some Show S2  S2 1080p BluRay FLAC  x265 x264 10bit Dual-Audio SZNJD-Erai-raws`: the season appears twice |
| Text.Split | src/providers/Nyaa.ts:151-153 | `split(' ')` gives at least one piece, and no piece holds the separator |
| Text.JoinSplit | src/providers/Nyaa.ts:151-153 | `split(' ')` loses nothing: joining the pieces with spaces gives the input back |
| Text.SplitJoin | src/providers/Nyaa.ts:151-153 | splitting space-free pieces joined by spaces gives the pieces back |
| Candidates.SelectLinks | src/providers/Nyaa.ts:151-153 | the candidates are space-free pieces that join back to the best links when those are non-empty, and to the alternative links otherwise |
| Candidates.BestLinksNeverFallBack | src/providers/Nyaa.ts:151-153 | non-empty best links decide the result alone, even when they hold no Nyaa link |
| Candidates.AltLinksWhenBestEmpty | src/providers/Nyaa.ts:151-153 | with empty best links the alternative links are used exactly as best links would be |
| Text.Contains | src/providers/Nyaa.ts:155-157 | `includes` always finds the empty needle and never finds a needle longer than the haystack |
| Text.ContainsIff | src/providers/Nyaa.ts:155-157 | `includes` holds exactly when the needle occurs at some offset |
| Candidates.RetainViewLinks | src/providers/Nyaa.ts:155-157 | the kept links are exactly the links containing `<nyaaUrl>/view/`, each as often as it occurs |
| Candidates.RetainDistributes | src/providers/Nyaa.ts:155-157 | filtering keeps the order: filtering a concatenation concatenates the filtered parts |
| Candidates.RetainKeepsMarked | src/providers/Nyaa.ts:155-157 | links that all contain the marker are all kept, in order |
| Candidates.ExtractId | src/providers/Nyaa.ts:159 | a link yields the value of the digits after the first place holding `nyaa`, any one character, `si/view/` and then digits; a link with no such place makes the call reject |
| Candidates.ExtractIds | src/providers/Nyaa.ts:158-160 | the IDs are read link by link, one per link, in order; the first link without an ID makes the whole mapping reject |
| Text.DigitsValue | src/providers/Nyaa.ts:159 | unary `+` on a digit string is zero exactly when every digit is `0` |
| Text.NatToString | src/providers/Nyaa.ts:166 | `${id}` prints at least one decimal digit and no leading zero |
| Text.DigitsValueOfNatToString | src/providers/Nyaa.ts:159-166 | printing an ID in decimal and reading the digits back gives the ID |
| Candidates.CanonicalLink | src/providers/Nyaa.ts:166 | the rebuilt link is `<nyaaUrl>/view/` followed by at least one digit and nothing else, so it passes the view-link filter |
| Candidates.IdRoundTrip | src/providers/Nyaa.ts:159-166 | reading the ID back from a rebuilt view link `<scheme>nyaa.si/view/<id>` gives the ID |
| Candidates.ViewLinkSearch | src/providers/Nyaa.ts:159 | in `<scheme>nyaa.si/view/<digits>` the ID pattern first matches where the host starts and runs to the end |
| Candidates.ExtractViewLinks | src/providers/Nyaa.ts:158-166 | reading the IDs of rebuilt view links gives the IDs back, in order, repeats included |
| Candidates.ReadBackIds | src/providers/Nyaa.ts:151-166 | rebuilt view links joined by spaces as best links yield exactly their IDs, whatever the alternatives hold |
| Candidates.Collect | src/providers/Nyaa.ts:164-183 | the loop succeeds exactly when every ID has an override or a fetch that does not reject; a rejection names such an ID; on success each release is an override release of an ID, and every overridden ID's release is present |
| Candidates.OverriddenIds | src/providers/Nyaa.ts:169 | the IDs with a non-empty override under their rebuilt link, each as often as it occurs |
| Candidates.OverrideReleases | src/providers/Nyaa.ts:169-174 | one release per ID, titled by the override under the rebuilt link and linked to it |
| Candidates.CollectCarriesOverrides | src/providers/Nyaa.ts:169-174 | every release a successful loop returns is linked to a rebuilt view link, has a non-empty override under it, and is titled by it |
| Candidates.CollectIsOverrideReleases | src/providers/Nyaa.ts:164-183 | a loop that does not reject returns exactly the override releases of the IDs with an override, in ID order, repeats included |
| Candidates.CollectDistributes | src/providers/Nyaa.ts:165-182 | releases come out in ID order: the loop over a concatenation runs the first part, then the second |
| Candidates.CollectFailsAtFirst | src/providers/Nyaa.ts:168-177 | a rejection reports the first ID that has no override and whose fetch rejects; every earlier ID went through |
| Candidates.AllOverridden | src/providers/Nyaa.ts:165-174 | when every ID has an override the releases are one per ID, in ID order, titled by the override under the rebuilt link |
| Candidates.PushReleases | src/providers/Nyaa.ts:162-185 | the loop as written, pushing into a growing list and returning early, computes what the loop model describes |
| Candidates.GetReleases | src/providers/Nyaa.ts:147-186 | every release `get` returns is linked to a rebuilt view link `<nyaaUrl>/view/<id>` with a non-empty override, and titled by that override |
| Candidates.GetReleasesAreOverrides | src/providers/Nyaa.ts:147-186 | a `get` that does not reject read an ID from every retained link, and returns exactly the override releases of those IDs that have an override, in link order |
| Candidates.Get | src/providers/Nyaa.ts:147-186 | `get` as written computes the pipeline's result |
| Candidates.ReleasesCarryOverrides | src/providers/Nyaa.ts:166-174 | every release's title is a non-empty override for its link, kept verbatim, and its link is rebuilt from the ID of a retained link |
| Candidates.ReleasesBoundedByLinks | src/providers/Nyaa.ts:155-185 | there are never more releases than retained links |
| Candidates.NoViewLinksNoReleases | src/providers/Nyaa.ts:155-164 | with no Nyaa view link among the candidates the result is the empty list, not a rejection |
| Candidates.OverriddenLinksGiveReleases | src/providers/Nyaa.ts:147-186 | end to end: rebuilt view links that all have overrides give one release per link, in link order |

## Left out

- The metadata fetch (`src/providers/Nyaa.ts:20-76`) is not modelled: the cache lookup and write, the HTTP request and the HTML scraping. Its only effect on `get` is whether it rejects, so it becomes the parameter `failingFetches`, the set of IDs whose fetch rejects.
- The title fetched for an ID without an override is formatted but never pushed (`src/providers/Nyaa.ts:176-180`). The model pushes nothing for such an ID, and `formatTitle` is modelled on its own.
- Reading the spreadsheet (`src/providers/Nyaa.ts:78-89`) is not modelled, and neither are its failures when the file is missing. The table becomes a map from view link to title.
- With several spreadsheet rows for one link the first row wins; the map holds that row. A `formattedName` that is not a string is not modelled; any truthy string counts as an override.
- The show-name pattern (`src/providers/Nyaa.ts:96`) is not modelled. It relies on a lookbehind and on backtracking through bracket classes. The parameter `showNameOf` stands for its result.
- `nyaaUrl` comes from a constants module that is not part of this model. It is a parameter. The round-trip lemmas take it to be `<scheme>nyaa.si` and also require `'n' !in scheme && ' ' !in scheme`: with an `n` the ID pattern could match inside the scheme, and with a space the link would be split.
- JavaScript strings are UTF-16 code units. The model uses sequences of characters, so titles with characters outside the Basic Multilingual Plane are not modelled.
- Candidates.ExtractId: reads the digits as an exact natural number. JavaScript's `+` gives a double, which loses precision above 2^53 and prints in exponent notation for very large values.
- Asynchronous sequencing, logging and the provider's name field are left out, since they do not affect the result.
- Title.ExampleAssembly: the example's fields are written out rather than extracted. Its show name `Some Show S2 ` was traced by hand through the pattern at `src/providers/Nyaa.ts:96`, which is not modelled, so no lemma derives the fields from the title.
- Title.FormatTitle: says nothing about the show name beyond what `showNameOf` returns, because the show-name pattern is not modelled.
