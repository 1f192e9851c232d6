# A11YBookmarklet checking core in Dafny

This project models the checking logic of the A11YBookmarklet family of
accessibility bookmarklets. It covers three browser scripts:

- **The WCAG 1.4.3 contrast auditor** (`a11y-131.js`). It walks the visible
  text nodes of a page and resolves each one's text colour and effective
  background colour. It computes the WCAG contrast ratio and flags text
  below 4.5:1, or below 3:1 for large text. Each finding carries:
  - a suggested text colour (black, white, or a bisected blend);
  - an ancestor whose background would pass, when there is one;
  - an element path;
  - an id of the form `fnd_<n>`.

  Findings can be removed by id.
- **The WCAG 1.1.1 non-text-content checker** (`a11y-111.js`). It collects
  the following candidates and removes duplicate elements:
  - images, image inputs and areas;
  - SVGs, and objects or embeds with an image type;
  - controls with a CSS background image.

  It then applies the alt-text and accessible-name rule of each kind, and
  summarises a verdict, statistics and at most six improvement hints.
- **The shared runner** (`a11y-runner.js`). It provides:
  - the text utilities `getText` and `truncate`;
  - the `cssPath` selector builder;
  - the step registry;
  - `aggregate`, which combines the step reports into one overall verdict,
    summed statistics, ten de-duplicated hints and the findings by step id.

The DOM becomes explicit data. An element is a snapshot record (`Dom.Element`):
its computed style, attributes, text content, size, sibling position and
identity. An ancestor walk is a sequence of such records, from the element to
the top. Browser services the scripts call become parameters of the model:

- the canvas colour normalisation (`canvas`, or directly `parse`);
- the `Math.pow` gamma part of the sRGB transfer (`curve`, constrained by
  `ValidCurve`);
- `CSS.escape` (`esc`);
- URL resolution (`urlPath`);
- `cssPath(el)` inside the 1.1.1 checker (`selector`).

Where the code and the design notes of the system disagree, the model follows
the code:

- The resolver's fallback is `document.body`'s colour, not the root's.
- The ancestor walk stops before `documentElement`.
- `findPassingAncestor` runs the full resolver from each ancestor. It does
  not read only the ancestor's own colour.
- The suggestion labels are the German words `schwarz`, `weiß`, `dunkler`,
  `heller`, `max. (schwarz)` and `max. (weiß)`.
- `scan` has no per-node error isolation.

One exception runs the other way. The image rules of the 1.1.1 checker read
`alt` with `getAttribute`, not with the `getAttr` helper the code uses
(a11y-111.js:63). With `getAttr`, alt="" reads as null, and the code's
comparison `alt !== ''` can never be false (see "## Findings"). So on an
`<img alt="">` the model differs from the code in three ways:

- a hidden or decorative image gets no issue;
- a visible image gets the empty-alt issue instead of "Fehlendes alt-Attribut.";
- the reported `alt` is "" where the code reports null.

Modules, one per concern:

- `Seqs` (seqs.dfy): `Array.from(new Set(s))`, `slice`, `join`, `filter().length`
  and `unshift` walks.
- `Text` (text.dfy): JavaScript's `\s`, `trim`, `replace(/\s+/g, ' ')`,
  `split(/\s+/)`, ASCII case mapping, `toString()` and `parseInt`.
- `Dom` (dom.dfy): the snapshot records, `getAttribute` and the `getAttr` helper.
- `Colour` (colour.dfy): the hex and `rgb(a)` codec, luminance, contrast ratio
  and `mix`.
- `Contrast` (contrast.dfy): the large-text rule, the background resolver, the
  remediation search, the ancestor-pass detector, `elementPath` and
  `escapeHtml`.
- `Audit` (audit.dfy): the auditor's `STATE`, a class with the findings and the
  id counter, with `scan`, the run and `removeCard`.
- `Runner` (runner.dfy): the runner's utilities, the registry (a class over a
  map) and `aggregate`.
- `NonText` (nontext.dfy): the 1.1.1 checker.

## Model

| member | source | states |
|---|---|---|
| Seqs.UniqueSpec | a11y-runner.js:70 | `Array.from(new Set(s))` keeps every element of s, each exactly once, ordered by first occurrence |
| Seqs.UniqueIn | a11y-111.js:94 | an element is in the de-duplicated list exactly when it is in the list |
| Seqs.UniqueMap | a11y-111.js:94 | under an injective map, de-duplicating the images equals mapping the de-duplicated list |
| Seqs.Count | a11y-111.js:98 | `filter(p).length` is at most the length |
| Seqs.CountZero | a11y-111.js:100 | the filter is empty exactly when no element satisfies p |
| Seqs.CountComplement | a11y-111.js:107-108 | counts of two complementary filters add up to the length |
| Seqs.UnshiftedAt | a11y-runner.js:26 | after unshifting f(x0) … f(x(n-1)), position n-1-k holds f(xk) |
| Seqs.JoinSnoc | a11y-runner.js:29 | joining one more part appends the separator and that part, so the joined text is the parts in order with the separator between neighbours |
| Text.TrimStartSuffix | a11y-runner.js:14 | `trimStart` removes a prefix made only of white space and leaves a non-space first character |
| Text.TrimEndPrefix | a11y-runner.js:14 | `trimEnd` removes a suffix made only of white space and leaves a non-space last character |
| Text.TrimmedTrim | a11y-runner.js:14 | `trim`'s result neither starts nor ends with white space |
| Text.TrimKeepsContent | a11y-runner.js:14 | `trim` keeps every non-space character in order and never lengthens |
| Text.TrimOfTrimmed | a11y-runner.js:14 | trimming a trimmed string changes nothing |
| Text.CollapseEnds | a11y-runner.js:14 | `replace(/\s+/g,' ')` never lengthens, is empty only for empty input, and keeps whether each end is white space |
| Text.CollapseSingleSpaced | a11y-runner.js:14 | after collapsing, the only white space is ' ' and no two white-space characters are adjacent |
| Text.CollapseKeepsContent | a11y-runner.js:14 | collapsing keeps every non-space character in order |
| Text.Split | a11y-131.js:137 | `split(/\s+/)` gives at least one part, no part contains white space, and a trimmed non-empty string has no empty part |
| Text.Decimal | a11y-131.js:186 | `n.toString()` is a non-empty run of decimal digits |
| Text.DecimalRoundTrip | a11y-131.js:186 | reading back a printed counter value gives the value |
| Text.DecimalInjective | a11y-131.js:186 | different counter values print differently |
| Text.ParseIntDecimal | a11y-131.js:76 | `parseInt(weight, 10)` reads a printed number followed by any non-digit text (`"700px"`) as that number |
| Text.ParseIntNaN | a11y-131.js:76 | text that starts with neither digit, sign nor white space is NaN |
| Dom.GetAttrLosesEmpty | a11y-runner.js:15 | `getAttr` differs from `getAttribute` exactly when the attribute is present and empty |
| Colour.HexString | a11y-131.js:31 | `n.toString(16)` is non-empty and ends in the hex digit of n mod 16 |
| Colour.ToHexDigits | a11y-131.js:31 | `toHex(n)` is the two hex digits of n's low byte |
| Colour.RgbToHexShape | a11y-131.js:32 | `rgbToHex` is `#` followed by exactly six upper-case hex digits |
| Colour.RgbToHexDigits | a11y-131.js:31-32 | the seven characters of `rgbToHex`, one by one: `#`, then the two digits of each channel's low byte, upper-cased |
| Colour.HexValue | a11y-131.js:48 | a hex digit's value is below 16 |
| Colour.MatchColor | a11y-131.js:37-48 | a `#rrggbb` string parses to an opaque colour with channels 0..255 |
| Colour.MatchNeither | a11y-131.js:38-45 | a string that is neither `#rrggbb` nor starts with `rgb` parses to opaque black |
| Colour.MatchColorNotHex | a11y-131.js:38-45 | a string not starting with `#` goes to the `rgb(a)` pattern, falling back to opaque black |
| Colour.HexRoundTrip | a11y-131.js:31-48 | parsing `rgbToHex(c)` gives back each channel's low byte with alpha 1 |
| Colour.HexRoundTripInGamut | a11y-131.js:31-48 | for channels 0..255, parsing `rgbToHex(c)` gives back exactly r, g, b with alpha 1 |
| Colour.RgbRoundTrip | a11y-131.js:41-43 | `rgb(r, g, b)`, also spelled `rgba(`, without an alpha argument parses to r, g, b with alpha 1 |
| Colour.RgbaRoundTrip | a11y-131.js:41-43 | `rgba(r, g, b, a)` parses to r, g, b with `parseFloat(a)` as alpha |
| Colour.LuminanceBounds | a11y-131.js:50-53 | relative luminance is non-negative, at most 1 for in-gamut colours, 0 for black and 1 for white |
| Colour.ContrastRatio | a11y-131.js:54-59 | the contrast ratio is at least 1 |
| Colour.ContrastSymmetric | a11y-131.js:54-59 | the ratio does not depend on which colour is the foreground |
| Colour.ContrastOfEqualLuminance | a11y-131.js:54-59 | colours of equal luminance, identical colours in particular, have ratio exactly 1 |
| Colour.ContrastAtMostExtremes | a11y-131.js:126-128 | no in-gamut colour has a higher ratio against bg than the better of black and white |
| Colour.ContrastAtMost21 | a11y-131.js:54-59 | ratios between in-gamut colours are at most 21, and black on white is exactly 21 |
| Colour.RoundBetween | a11y-131.js:61 | `Math.round` of a value between two integers stays between them |
| Colour.MixChannel | a11y-131.js:61 | a blended channel lies between the two source channels |
| Colour.Mix | a11y-131.js:60-62 | `mix` is opaque and keeps in-gamut colours in gamut |
| Colour.MixEnds | a11y-131.js:60-62 | blending by 0 gives a, by 1 gives b (made opaque) |
| Contrast.LargeTextRule | a11y-131.js:73-80 | text is large exactly when weight ≥ 700 and size ≥ 18.66, or weight < 700 and size ≥ 24 |
| Contrast.LargeTextNaN | a11y-131.js:76 | a weight that is not a number counts as normal: large exactly from 24px |
| Contrast.LargeTextMonotone | a11y-131.js:73-80 | larger text never loses the large status, and bold text never needs more size |
| Contrast.MinRatioChoice | a11y-131.js:182 | the threshold is 3.0 for large text and 4.5 otherwise, never above 4.5 |
| Contrast.Fallback | a11y-131.js:100-102 | the fallback colour has alpha above 0 |
| Contrast.ResolveFrom | a11y-131.js:89-102 | the resolved background never has alpha 0 |
| Contrast.Reach | a11y-131.js:89-98 | the walk stops at an index within the chain or at its end |
| Contrast.ReachSpec | a11y-131.js:89-97 | the walk passes only nodes that neither paint nor are documentElement, and stops at the end, at documentElement or at a painting node |
| Contrast.ResolveFromReach | a11y-131.js:89-102 | the walk's result is the stopping node's colour, or the fallback, with hadImage saying whether a visited node has a background image |
| Contrast.ResolveFirstPainted | a11y-131.js:89-95 | the result is the colour of the first painting node before documentElement, and `via` is that node |
| Contrast.ResolveFallsBack | a11y-131.js:100-102 | with no painting node, the result is body's colour when its alpha is above 0 (via body), else opaque white with `via` null |
| Contrast.ResolveHadImage | a11y-131.js:91 | hadImage holds exactly when a node the walk read has a background image other than `none` |
| Contrast.ReachFrame | a11y-131.js:89-97 | the walk's stopping point depends only on the nodes up to it |
| Contrast.ResolveFrame | a11y-131.js:89-98 | the walk reads no node beyond the one where it stops |
| Contrast.EffectiveBackground | a11y-131.js:85-103 | the ancestor-walk loop computes the resolved background |
| Contrast.Width | a11y-131.js:113 | the bracket after n halvings has a width in (0, 1] |
| Contrast.Bisect | a11y-131.js:111-116 | after exactly 24 halvings, 0 ≤ lo ≤ hi ≤ 1 with width 2^-24; a found candidate is the blend at hi and meets the target; nothing found means hi stayed 1 |
| Contrast.NearestAccessibleForeground | a11y-131.js:104-128 | one of the six labels; `schwarz`, `weiß`, `dunkler` and `heller` meet the target; black is chosen exactly when it meets the target; white exactly when it does but black does not; blends are mixes toward black or white; the fallback is black exactly when its ratio is strictly greater than white's; for in-gamut text no blend is ever returned |
| Contrast.NoBlendPasses | a11y-131.js:110-125 | when neither black nor white meets the target, no blend of an in-gamut colour does |
| Contrast.FirstPassing | a11y-131.js:148-155 | the first passing ancestor index lies within the searched range |
| Contrast.FirstPassingSpec | a11y-131.js:148-155 | no index before the first passing one passes, and the one found does |
| Contrast.AncestorPass | a11y-131.js:146-157 | a reported ancestor pass has a ratio at least the target |
| Contrast.FindPassingAncestor | a11y-131.js:146-157 | returns the first strict ancestor whose resolved background meets the target, with its ratio; null exactly when none does; never the element itself |
| Contrast.PathSegments | a11y-131.js:130-143 | the path has min(10, chain length) segments |
| Contrast.ElementPath | a11y-131.js:130-143 | the unshift loop builds the joined segments of the first ten nodes, outermost first |
| Contrast.PathSegmentsEnds | a11y-131.js:140 | the last segment is the element's own, the first that of the tenth node or the top |
| Contrast.PathSegmentWithId | a11y-131.js:135 | a node with an id is written `tag#id` |
| Contrast.PathSegmentClasses | a11y-131.js:137 | a class segment names at most two classes, none containing white space |
| Contrast.EscapeHtml | a11y-131.js:309 | the escaped text never shrinks and contains none of `< > " '` |
| Contrast.EscapeRoundTrip | a11y-131.js:309 | decoding the five entities in the escaped text gives the text back |
| Audit.Measure | a11y-131.js:176-191 | a node yields a measurement exactly when it is accepted and its ratio is below its threshold; the measurement fails its threshold, names the node and its parent, and its snippet is the first 140 characters of the node's trimmed text |
| Audit.Measures | a11y-131.js:175-193 | one entry per text node |
| Audit.MeasuresAt | a11y-131.js:175-193 | entry i is the measurement of node i |
| Audit.Present | a11y-131.js:185 | the pushed measurements are no more than the nodes |
| Audit.Number | a11y-131.js:185-186 | one finding per pushed measurement |
| Audit.NumberSpec | a11y-131.js:186 | finding i carries the id `fnd_<seed+i>` and the i-th pushed measurement |
| Audit.NumberStep | a11y-131.js:185-186 | one more node appends at most one finding |
| Audit.PresentFrom | a11y-131.js:185 | every pushed measurement is one of the node entries |
| Audit.NumberIds | a11y-131.js:186 | finding i has id `fnd_<seed+i>`, and no two findings share an id |
| Audit.FindingIdInjective | a11y-131.js:186 | different counter values give different ids |
| Audit.NumberFrom | a11y-131.js:185-186 | every finding carries one of the node entries' measurements |
| Audit.ScanFindings | a11y-131.js:183-191 | every finding fails its threshold, has a snippet of at most 140 characters and was measured on a flagged node |
| Audit.ScanCount | a11y-131.js:183-185 | there is one finding per flagged node and none for the others |
| Audit.ScanIdsDistinct | a11y-131.js:186 | the ids of one scan are distinct |
| Audit.IndexOfId | a11y-131.js:327 | `findIndex` returns the first position with the id, or the length when none has it |
| Audit.RemoveFirstSpec | a11y-131.js:326-328 | removing an unlisted id changes nothing; otherwise exactly the first finding with the id is removed, the others keep their order |
| Audit.RemoveFirstUnique | a11y-131.js:326-328 | with distinct ids, no finding with the removed id is left |
| Audit.Examine | a11y-131.js:176-191 | the per-node body of the walk computes the node's measurement |
| Audit.Auditor.constructor | a11y-131.js:26 | the state starts with no findings and the counter at 0 |
| Audit.Auditor.Scan | a11y-131.js:160-195 | returns the numbered findings of the flagged nodes from the old counter value, advances the counter once per finding, and leaves the stored findings alone |
| Audit.Auditor.Visit | a11y-131.js:175-192 | one walker step extends the numbered findings by this node's entry and keeps the counter in step |
| Audit.Auditor.Run | a11y-131.js:433 | `STATE.findings = scan()`: the stored findings are the scan's and the counter advanced by their number |
| Audit.Auditor.RemoveCard | a11y-131.js:326-333 | removes the first finding with the id, counter unchanged |
| Runner.GetTextSpec | a11y-runner.js:14 | `getText` is trimmed and single-spaced, and keeps every non-space character of the text content |
| Runner.Truncate | a11y-runner.js:16 | `truncate` gives the first n characters of the collapsed, trimmed text, plus `…` exactly when the raw length exceeds n |
| Runner.TruncateCountsRawLength | a11y-runner.js:16 | a text that fits once collapsed but is longer raw still gets `…` |
| Runner.CssStop | a11y-runner.js:20-22 | the walk's stopping index lies within the chain or at its end |
| Runner.CssStopSpec | a11y-runner.js:20-22 | the walk passes only non-boundary elements without an id, and stops at the end, at body or html, or at an element with an id |
| Runner.CssLength | a11y-runner.js:20-28 | the number of segments is at most the chain length |
| Runner.CssPath | a11y-runner.js:17-30 | the unshift loop builds the joined segments, outermost first |
| Runner.PlainSegment | a11y-runner.js:21-25 | an element without an id gets its tag, escaped classes and `:nth-of-type` when needed |
| Runner.CssPathShape | a11y-runner.js:20-29 | the path never names body or html, names no element with an id except possibly the outermost, is in reverse walk order, and stops only at the end, a boundary or an id |
| Runner.CssLengthSpec | a11y-runner.js:20-22 | the named elements are non-boundary and without id except the last one |
| Runner.CssPathIdLeftmost | a11y-runner.js:22 | the first element with an id is the leftmost segment, written `tag#id` |
| Runner.Registered | a11y-runner.js:37-41 | a step without id, title or run function leaves the registry unchanged; an accepted one is stored under its id and no other key changes |
| Runner.RegisterReplaces | a11y-runner.js:40 | registering a second step under the same id replaces the first |
| Runner.Registry.constructor | a11y-runner.js:36 | the registry starts empty |
| Runner.Registry.RegisterStep | a11y-runner.js:37-41 | the registry becomes the registered map, and every entry stays an accepted step under its own id |
| Runner.SumAppend | a11y-runner.js:62-64 | totals add up over concatenated report lists |
| Runner.SumOfMissing | a11y-runner.js:62-64 | reports without statistics add nothing |
| Runner.AllHintsMember | a11y-runner.js:65 | every hint of every report is collected |
| Runner.AllHintsFrom | a11y-runner.js:65 | every collected hint comes from some report |
| Runner.AnyApplicableSpec | a11y-runner.js:66 | the applicable flag is set exactly when some report is not `nicht anwendbar` |
| Runner.AnyFailSpec | a11y-runner.js:67 | the fail flag is set exactly when some report is `nicht erfüllt` |
| Runner.VerdictSpec | a11y-runner.js:71 | `nicht anwendbar` exactly when every report is (the empty list included); `nicht erfüllt` exactly when some report is; `erfüllt` otherwise |
| Runner.FindingsMapKeys | a11y-runner.js:61 | the findings map has exactly one key per report id |
| Runner.FindingsMapLastWins | a11y-runner.js:61 | under each id the findings are those of the last report with that id |
| Runner.KriterienNameFindings | a11y-runner.js:49-61 | the criteria list and the findings map name the same steps: an id has findings exactly when some criterion carries it |
| Runner.Aggregate | a11y-runner.js:44-73 | `schritte` is the report count and the counters are the sums of the reports' counters (missing as 0); the hints are the first ten de-duplicated ones; the verdict is combined; findings are keyed by id |
| Runner.AggregatedHints | a11y-runner.js:70 | at most ten hints, no duplicates, each from some report, in first-occurrence order |
| Runner.AggregatedHintsComplete | a11y-runner.js:70 | with at most ten distinct hints, every report hint is kept |
| NonText.FindsWordFrom | a11y-111.js:89 | the case-insensitive search finds `logo` exactly when it occurs |
| NonText.FindsExtensionFrom | a11y-111.js:72 | the search finds an image extension exactly when `.jpg` … `.svg` followed by a non-word character or the end occurs, in any case |
| NonText.SameFoldSpec | a11y-111.js:71 | comparing character by character is comparing the lower-cased texts |
| NonText.LastSegment | a11y-111.js:27 | `split('/').pop()` is no longer than the path |
| NonText.LastSegmentSpec | a11y-111.js:27 | the last segment is the longest suffix without '/' |
| NonText.AlnumSuffix | a11y-111.js:27 | the length of the final `[a-z0-9]` run |
| NonText.StripExtension | a11y-111.js:27 | stripping never lengthens |
| NonText.StripExtensionSpec | a11y-111.js:27 | `replace(/\.[a-z0-9]+$/i,'')` removes exactly a final dot with one or more alphanumerics, or nothing when there is none |
| NonText.DashesToSpacesSpec | a11y-111.js:27 | no '-' or '_' survives, and text without them is unchanged |
| NonText.DashRun | a11y-111.js:27 | a run of '-' and '_' between dash-free text becomes exactly one space |
| NonText.LastSegmentOf | a11y-111.js:27 | the segment after a final '/' is the last segment |
| NonText.AlnumSuffixOf | a11y-111.js:27 | an alphanumeric extension after a non-alphanumeric is the final run |
| NonText.StripExtensionOf | a11y-111.js:27 | `base.ext` with an alphanumeric extension strips to base |
| NonText.FileNameOf | a11y-111.js:26-29 | the guess for `dir/base.ext` is base with its dash runs read as spaces |
| NonText.DedupKeys | a11y-111.js:46 | the kept elements are `new Set` of the elements: each once, in first-occurrence order |
| NonText.DedupFirst | a11y-111.js:46 | each kept item is the first item collected for its element |
| NonText.Dedupe | a11y-111.js:46 | the `seen`-set filter loop computes the de-duplication |
| NonText.PushAll | a11y-111.js:40-42 | the push loop appends one item per element |
| NonText.PushSvgs | a11y-111.js:43 | the push loop appends the enclosing svg of each hit that has one |
| NonText.PushEmbeds | a11y-111.js:44 | the push loop appends the objects and embeds with an image type |
| NonText.PushBackgrounds | a11y-111.js:45 | the push loop appends the controls with a CSS background image |
| NonText.CollectCandidates | a11y-111.js:38-47 | the candidates are the de-duplicated collected items |
| NonText.CandidatesSpec | a11y-111.js:38-47 | every collected element appears once, with its first item, in first-occurrence order |
| NonText.IsDecorativeSpec | a11y-111.js:30-35 | decorative exactly when the lower-cased role is `presentation` or `none`, or `aria-hidden` is exactly `true` |
| NonText.HintTextDecodes | a11y-111.js:65-90 | every hint is read back from its message text |
| NonText.HintTextInjective | a11y-111.js:65-90 | different hints have different texts |
| NonText.UniqueTexts | a11y-111.js:94 | de-duplicating the hint texts is de-duplicating the hints |
| NonText.Assess | a11y-111.js:93-94 | the status is fail exactly when the issue list is non-empty |
| NonText.AssessHints | a11y-111.js:94 | the hints have no duplicates and are exactly the hints pushed |
| NonText.ImgChecks | a11y-111.js:62-74 | the img branch pushes the image rule's issues and hints |
| NonText.AltChecks | a11y-111.js:75-78 | the input-image and area branches push one issue when alt is missing or blank |
| NonText.NameChecks | a11y-111.js:79-86 | the name branches push one issue when the element is unnamed |
| NonText.Evaluate | a11y-111.js:49-95 | `evaluate` returns the assessment of the candidate, with the image alt read through `getAttribute` (see "## Findings") |
| NonText.ImgHiddenRule | a11y-111.js:64-65 | a hidden or decorative image fails exactly unless alt is present and exactly "", with only the decorative issue |
| NonText.ImgVisibleRule | a11y-111.js:66-73 | a visible image gets "missing alt" without alt and "empty alt" when blank; otherwise a file-name issue exactly when alt equals the guess up to case and surrounding space, and an extension issue exactly when alt names an image extension |
| NonText.AltTextIssues | a11y-111.js:70-72 | the file-name and extension issues appear exactly under their conditions |
| NonText.AltRule | a11y-111.js:75-78 | an image input or area fails exactly when alt is missing or white space only |
| NonText.NameRule | a11y-111.js:79-86 | an SVG, object or embed fails exactly when not decorative and unnamed; a CSS background also needs to have no text |
| NonText.ImageHintsRule | a11y-111.js:88-91 | the link hint goes to exactly the non-decorative images inside a link; the logo hint to exactly those with `logo` in src and a non-empty alt without it |
| NonText.PushedImageHints | a11y-111.js:88-91 | before de-duplication the same two conditions hold |
| NonText.KindHintsExclude | a11y-111.js:62-86 | no kind rule pushes the logo or link hint |
| NonText.ImgNotesExclude | a11y-111.js:62-74 | the image rule pushes neither the logo nor the link hint |
| NonText.ImageHintsAdd | a11y-111.js:88-91 | the logo and link hints are added exactly under their conditions |
| NonText.EmptyAltAsWritten | a11y-111.js:63-68 | through `getAttr`, alt="" flags a hidden image and reads as missing on a visible one |
| NonText.AllHintsMember | a11y-111.js:101 | every hint of every result is collected |
| NonText.AllHintsFrom | a11y-111.js:101 | every collected hint comes from some result |
| NonText.Summarize | a11y-111.js:97-112 | `gesamtGefunden` is the result count, `fehler + bestanden = gesamtGefunden`, and `anwendbar` at most the count |
| NonText.SummarizeVerdict | a11y-111.js:98-100 | `nicht anwendbar` exactly when no result is applicable; `nicht erfüllt` exactly when some is applicable and some fails; `erfüllt` otherwise |
| NonText.InputsAlwaysApplicable | a11y-111.js:99 | an image input or area makes the verdict applicable |
| NonText.SummarizeHints | a11y-111.js:110 | at most six improvements, no duplicates, each from some result, in first-occurrence order |
| NonText.SummarizeHintsComplete | a11y-111.js:110 | with at most six distinct hints, every result hint is kept |
| NonText.StepRegisters | a11y-111.js:114-122 | the step is accepted by the registry under `1.1.1` |
| NonText.Results | a11y-111.js:119 | one result per candidate |
| NonText.ResultsAt | a11y-111.js:119 | result j is the evaluation of candidate j |
| NonText.Run | a11y-111.js:117-121 | `run` returns the candidates, their evaluations in order and the summary of those, with the image alt read through `getAttribute` |

## Left out

- The UI: `ensurePanel`, `render`, dragging, `colorSwatch`, `jumpTo`, the highlight style and timers, and the runner's `renderOverlay`. These are DOM mutation and styling.
- Clipboard and screenshots (`writeClipboard`, `copyFinding`, `copyAllFindings`, `ensureHtml2Canvas`, `makeScreenshot`). They are browser and third-party I/O with `toFixed` float formatting.
- The canvas normalisation inside `parseColor`. It is a browser call and is a parameter.
- `parseColor`'s `parseFloat` of an alpha token with no digit (NaN) is read as the value of its digits. It is only compared with 0.
- The `Math.pow` branch of the sRGB transfer is a parameter. `ValidCurve` constrains it to be non-negative, monotone on 0..255 and 1 at 255. The linear segment is exact.
- The numeric values of specific ratios (≈21, ≈2.3) are not derived, apart from black on white being exactly 21.
- The TreeWalker, `querySelectorAll`, `getComputedStyle`, `getBoundingClientRect`, `offsetParent`, `closest` and `URL`. They are replaced by the snapshot records and the query results passed in (`NonText.Query`, the text-node sequence).
- `CSS.escape` is a parameter.
- `accessibleName` in the 1.1.1 checker is DOM and SVG traversal. It is an input field of the element.
- The async `run` wrappers, `runAll` and the bookmarklet encoding block.
- `location.href` and `new Date().toISOString()` in `aggregate` are parameters.
- The `box` and `outer` fields of a 1.1.1 result (geometry and `outerHTML`), and its constant `kind: '1.1.1'`, are not modelled.
- `Runner.Truncate`: lengths and cuts count Unicode characters, not the UTF-16 code units of JavaScript's `.length` and `.slice`. Results differ only on text outside the Basic Multilingual Plane: there the code counts such a character twice, may cut it in half (leaving a lone surrogate) and may add `…` where the model does not.
- `Audit.Measure`: the 140-character snippet is cut in Unicode characters, not in UTF-16 code units, so it differs from `slice(0, 140)` only on text outside the Basic Multilingual Plane.
- `NonText.Evaluate`: the image rule uses the corrected alt reading (`getAttribute`), including the `alt` value the result reports; the code's reading through `getAttr` is `NonText.EmptyAltAsWritten` (see "## Findings").
- `NonText.Assess`: states the corrected alt reading, as `NonText.Evaluate` does.
- `NonText.Run`: its results use the corrected alt reading, as `NonText.Evaluate` does.
- `Text.Lower`: only the ASCII letters are case-mapped, not the full Unicode case mapping of `toLowerCase`.
- `Text.Upper`: only the ASCII letters are case-mapped, not the full Unicode case mapping of `toUpperCase`.
- Issues and hints are enumerated values. `NonText.IssueText` and `NonText.HintText` give their German texts, and the hint texts are proved to identify their hints.
- `Runner.FindingsMap`: the insertion order of the JavaScript object's keys is not modelled. Only keys and values are.
- Floating point: channels, luminance and ratios are exact reals. The 24-step bisection works on dyadic values, so it is exact in doubles too.

## Findings

| source | as written | input that shows it | evidently intended | confidence | as-written member | corrected member |
|---|---|---|---|---|---|---|
| a11y-111.js:63-65 | the image rules read alt through `getAttr`, which turns alt="" into null (a11y-runner.js:15), so `alt !== ''` always holds and `alt == null` catches empty alts | a hidden or decorative `<img alt="">` is flagged "Dekoratives/ausgeblendetes Bild sollte alt="" haben."; a visible `<img alt="">` is reported as "Fehlendes alt-Attribut." instead of "Leeres alt" | an image marked decorative with alt="" passes, and a visible one with alt="" gets the empty-alt issue | not executed | NonText.EmptyAltAsWritten | NonText.ImgHiddenRule |
