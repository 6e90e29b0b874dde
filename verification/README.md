# README hierarchy formatter — a Dafny model

The formatter takes a parsed markdown document and rewrites its top-level
children. The first top-level depth-1 heading becomes a centred title block
between two rules. When the title's first inline child carries a text value,
a `### …` line under the title repeats it; a heading that starts with, say,
bold text gets no such line. When `generateToc` is on and more than one
heading was collected, a numbered table of contents follows; a `---` divider
always closes the block. Every later depth-1
or depth-2 heading is centred between two rules in the style of its level.
Everything else passes through unchanged. Heading anchors come from
`slugify`. Options are a partial record merged over the defaults. The
`readme-format` command picks help, version, or an input and output file
from its arguments.

The model is pure Dafny:

- `Absence` — JavaScript's missing values (`undefined` fields, `null`
  placeholders, a failed search) as one `Maybe` datatype.
- `Mdast` — the document tree: headings with inline children, raw HTML
  nodes, containers with block children, and opaque other blocks. It also
  flattens inline text, standing in for `mdast-util-to-string`.
- `Types` — the option record, the three border styles, the defaults, and
  the merge `{ ...defaultOptions, ...options }`.
- `Slug` — `slugify`, stage by stage: lower-casing, stripping, the two run
  replacements, and the final `trim`.
- `Formatter` — the collection pass, `createHR`, `generateTocItems` and the
  rewrite pass of `transform`.
  - Every output entry is tagged `Original` or `Injected`, so that
    properties can separate the input's nodes from the added ones.
  - The `null` placeholder of a missing `### …` line is a `Maybe`.
    `Compact` drops it, as `filter(Boolean)` does.
  - `createHTML(v)` is the `Html(v)` constructor.
- `FormatterProofs` — properties of the transform.
- `Cli` and `CliProofs` — the dispatch of `main` in `bin/cli.js`, as
  written and as evidently intended.

The code behaves as follows, whatever its comments and option names
suggest, and the model follows the code:

- The title is the first top-level depth-1 heading anywhere in the child
  list, not only a leading one. The comments at src/formatter.ts:45 and 55
  ("Skip the first H1 (title)", "Insert TOC after title (first H1)") fit
  that reading, but nothing requires the heading to come first.
- The table of contents drops the first collected heading
  (`headings.slice(1)` at src/formatter.ts:81). That heading can be a
  heading before the title, or one nested in a container, rather than the
  title itself.
- `centerHeaders` and `addHrLines` have no effect, although src/types.ts:5-9
  describes them as "Center all headers" and "Add HR lines around headers":
  `transform` never reads them.
- The final `trim` of `slugify` never removes anything. Whitespace is
  already gone, so a leading or trailing space becomes a leading or
  trailing `-`.

## Model

| member | source | states |
|---|---|---|
| Types.ParseStyle | src/types.ts:12-16 | a style name is accepted exactly when it is `solid`, `dashed` or `none`, and reads back to the same name |
| Types.StyleNameRoundTrip | src/types.ts:12-16 | every style value has a name that parses back to it |
| Types.DefaultValues | src/types.ts:20-28 | table of contents, centring and rules are on by default; h1 is solid 2px and h2 dashed 1px |
| Types.Spread | src/formatter.ts:13 | one field of the spread: the supplied value, else the default; Types.Resolve states the merge field by field |
| Types.Resolve | src/formatter.ts:12-13 | each supplied field overrides its default, and each absent field keeps it |
| Types.ResolveNothing | src/formatter.ts:12-13 | merging an empty option object yields exactly the defaults |
| Types.ResolveSupplied | src/formatter.ts:12-13 | a fully supplied option object is used as it is |
| Mdast.InlinesText | src/formatter.ts:37 | `toString` of a heading's inline children: the values concatenated in order (its partner is Mdast.InlinesTextAppend) |
| Mdast.InlinesTextAppend | src/formatter.ts:37 | the flattened text of consecutive inline children is the concatenation of their texts |
| Mdast.HeadingText | src/formatter.ts:37 | `toString(heading)`: the flattened text of the heading's inline children; Mdast.InlinesTextAppend states how it composes |
| Slug.LowerChar | src/formatter.ts:146 | a character changes under lower-casing exactly when it has a case mapping; word characters map to one slug character, and no capital survives |
| Slug.ToLowerCase | src/formatter.ts:146 | `toLowerCase`, character by character through Slug.LowerChar; Slug.ToLowerCaseNoCapitals states that no capital survives |
| Slug.ToLowerCaseNoCapitals | src/formatter.ts:146 | after lower-casing no capital ASCII letter remains |
| Slug.StripPunctuation | src/formatter.ts:147 | the result is no longer than the input and holds only word characters, whitespace and hyphens; Slug.StripPunctuationDrops states that anything else is removed |
| Slug.StripPunctuationDrops | src/formatter.ts:147 | a character outside `\w`, `\s` and `-` is removed and the text around it closes up, rather than being replaced |
| Slug.StripPunctuationKept | src/formatter.ts:147 | text made only of word characters, whitespace and hyphens passes the stripping step unchanged |
| Slug.StripPunctuationChars | src/formatter.ts:146-147 | lower-cased and stripped text holds only slug characters and whitespace |
| Slug.ReplaceRuns | src/formatter.ts:148-149 | the output is empty exactly when the input is; a leading run becomes `-` and any other first character is copied; after the hyphen pass no two hyphens are adjacent |
| Slug.ReplaceRunsSlugChars | src/formatter.ts:148-149 | replacing runs of characters outside the slug alphabet leaves only slug characters |
| Slug.ReplaceRunsAppend | src/formatter.ts:148-149 | the replacement works on the two sides independently when the left side does not end inside a run |
| Slug.ReplaceRunsSingleHyphens | src/formatter.ts:149 | a string without doubled hyphens is left unchanged by the hyphen pass |
| Slug.TrimStart | src/formatter.ts:150 | the result is the input without its leading whitespace: a suffix, everything removed is whitespace, and it does not start with whitespace |
| Slug.TrimEnd | src/formatter.ts:150 | the result is the input without its trailing whitespace: a prefix, everything removed is whitespace, and it does not end with whitespace |
| Slug.Trim | src/formatter.ts:150 | the result is no longer than the input and neither starts nor ends with whitespace |
| Slug.TrimExact | src/formatter.ts:150 | `trim` removes the leading and trailing whitespace and nothing else: the result is the slice of the input between them |
| Slug.Slugify | src/formatter.ts:144-151 | the slug holds only `a-z`, `0-9`, `_` and `-`, and never two hyphens in a row |
| Slug.TrimChangesNothing | src/formatter.ts:147-150 | the final trim removes nothing |
| Slug.SlugIsFixedPoint | src/formatter.ts:144-151 | a string that is already a slug is its own slug |
| Slug.SlugifyIdempotent | src/formatter.ts:144-151 | slugifying twice gives the same as slugifying once |
| Slug.LeadingSpaceBecomesHyphen | src/formatter.ts:147-150 | text starting with whitespace gives a slug starting with `-` |
| Slug.TrailingSpaceBecomesHyphen | src/formatter.ts:147-150 | text ending with whitespace gives a slug ending with `-` |
| Slug.StrippedAround | src/formatter.ts:146-147 | lower-casing and stripping keep whitespace in place and treat the text around it separately |
| Slug.WhitespaceRunCollapses | src/formatter.ts:147-149 | a whitespace run between two word characters becomes exactly one `-` joining the two sides' slugs |
| Slug.KeptCapitalisedWord | src/formatter.ts:146-147 | a capitalised ASCII word survives lower-casing and stripping with only its first letter lowered |
| Slug.CapitalisedWord | src/formatter.ts:144-151 | the slug of a capitalised ASCII word is that word in lower case, so `Installation` links to `#installation` |
| Slug.PunctuationIgnored | src/formatter.ts:146-147 | dropping a punctuation character without a case mapping leaves the slug unchanged, so `Hello, World!` and `Hello World` link to the same anchor |
| Formatter.CreateHr | src/formatter.ts:130-135 | `createHR`: the raw `<hr>` node; FormatterProofs.RuleRoundTrip reads the style and thickness back from it |
| Formatter.EntryOf | src/formatter.ts:36-39 | the `{ depth, text, id }` record of one heading; FormatterProofs.CollectedIdsAreSlugs states that its id is the slug of its text |
| Formatter.CollectNode | src/formatter.ts:36-40 | the headings of one node in pre-order: itself if a heading, the nested ones if a container; stated by FormatterProofs.CollectAt |
| Formatter.Collect | src/formatter.ts:35-41 | the `visit` walk over the children; FormatterProofs.CollectAt and FormatterProofs.CollectedIdsAreSlugs state its result |
| Formatter.CollectHeadings | src/formatter.ts:32-41 | the `headings` array: the collected headings when `generateToc` is on, else empty; its contents are stated by FormatterProofs.CollectAt and FormatterProofs.TocEmittedIff |
| Formatter.NatToString | src/formatter.ts:158-163 | the ordinal is a non-empty string of decimal digits, without a leading zero, denoting the number |
| Formatter.TocLine | src/formatter.ts:158-163 | one table line `n. [text](#id)`; Formatter.NatToString states the number part, FormatterProofs.TocIgnoresDepth that the depth plays no part |
| Formatter.GenerateTocItems | src/formatter.ts:153-168 | one item per entry, item k reading `k+1. [text](#id)` |
| Formatter.TitleLine | src/formatter.ts:67-68 | the `### …` slot under the title, or the `null` placeholder; its effect is stated by FormatterProofs.SubtitleIff |
| Formatter.TocSection | src/formatter.ts:76-83 | empty unless `generateToc` is on and more than one heading was collected; otherwise exactly two entries more than there are headings, all injected |
| Formatter.TitleOpen | src/formatter.ts:60-64 | the opening run of the title block; its compacted form is stated by FormatterProofs.TitleBlockPieces |
| Formatter.TitleClose | src/formatter.ts:66-88 | the closing run of the title block; its compacted form is stated by FormatterProofs.TitleBlockPieces |
| Formatter.TitleBlock | src/formatter.ts:59-88 | the block that replaces the title; FormatterProofs.TitleBlockPieces states it entry by entry |
| Formatter.FrameOpen | src/formatter.ts:94-99 | the run before a framed heading; its compacted form is stated by FormatterProofs.HeadingBlocks |
| Formatter.FrameClose | src/formatter.ts:101-104 | the run after a framed heading; its compacted form is stated by FormatterProofs.HeadingBlocks |
| Formatter.FramedBlock | src/formatter.ts:93-118 | the ten-entry block around a non-title depth-1 or depth-2 heading; stated by FormatterProofs.HeadingBlocks |
| Formatter.RuleFor | src/formatter.ts:93-118 | the h1 rule for depth 1 and the h2 rule otherwise; FormatterProofs.HeadingBlocks states which heading gets which |
| Formatter.Step | src/formatter.ts:48-124 | one loop iteration; FormatterProofs.HeadingBlocks and FormatterProofs.TitleSplit state the block each kind of child gets |
| Formatter.Rewrite | src/formatter.ts:44-125 | the loop over the children with the `skipTitle` flag; stated by FormatterProofs.TitleSplit and FormatterProofs.RewriteWithoutTitle |
| Formatter.Compact | src/formatter.ts:127 | `filter(Boolean)`: never longer than its input; FormatterProofs.CompactMembers states that a piece survives exactly when some slot holds it |
| Formatter.Pieces | src/formatter.ts:31-127 | the rewritten children tagged with provenance; FormatterProofs.OriginalsPreserved, TocEmittedIff, TocListed, SubtitleIff and DividerIff state their contents |
| Formatter.Transform | src/formatter.ts:31-128 | `transform`: the root with its children rewritten; FormatterProofs.UnchangedIff and FormatterProofs.SwitchesIgnored state its behaviour |
| Formatter.FirstTitle | src/formatter.ts:45-57 | finds the first top-level depth-1 heading, or reports that there is none |
| FormatterProofs.CompactMembers | src/formatter.ts:127 | a piece survives the filter exactly when some slot holds it |
| FormatterProofs.CollectAt | src/formatter.ts:35-41 | the collection walk lists each child's headings in place and in order, including the headings nested in containers |
| FormatterProofs.CollectedIdsAreSlugs | src/formatter.ts:36-39 | every collected entry links to the slug of its own text |
| FormatterProofs.OriginalsPreserved | src/formatter.ts:47-127 | removing the injected nodes from the output gives back the input's children, each once and in order |
| FormatterProofs.UnchangedIff | src/formatter.ts:47-127 | the document comes back unchanged exactly when no top-level child is a heading of depth 1 or 2 |
| FormatterProofs.RewriteWithoutTitle | src/formatter.ts:45-57 | without a top-level depth-1 heading the pending-title flag changes nothing, so there is no title block |
| FormatterProofs.TitleSplit | src/formatter.ts:45-90 | the title block replaces only the first top-level depth-1 heading; the children before and after it, later depth-1 headings included, get the generic treatment |
| FormatterProofs.HeadingBlocks | src/formatter.ts:93-123 | a non-title depth-1 heading and every depth-2 heading become the ten-entry centred block with the rule of their level; anything else stays alone |
| FormatterProofs.TitleBlockPieces | src/formatter.ts:59-88 | the title becomes `<div align="center">`, a blank, the rule in the h1 style and thickness, a blank, the heading, a blank, the `### …` line when the first inline child has a value, a blank, the same rule, a blank, `</div>`, the table of contents when it is emitted, a blank and `---` |
| FormatterProofs.TocEmittedIff | src/formatter.ts:76-83 | the table of contents heading appears exactly when there is a title, `generateToc` is on and more than one heading was collected |
| FormatterProofs.TocListed | src/formatter.ts:76-83 | an emitted table of contents is one contiguous run: its heading, a blank, then links to the second and later collected headings, numbered from 1 |
| FormatterProofs.SubtitleIff | src/formatter.ts:67-68 | a `### …` line appears exactly when the title's first inline child has a value, and it repeats that value |
| FormatterProofs.DividerIff | src/formatter.ts:85-88 | the `---` divider is injected exactly when the document has a title |
| FormatterProofs.RuleRoundTrip | src/formatter.ts:130-135 | style and thickness can be read back from the rule line, so `none` is written out verbatim |
| FormatterProofs.RuleInjective | src/formatter.ts:130-135 | different style or thickness settings give different rule lines |
| FormatterProofs.SwitchesIgnored | src/formatter.ts:31-128 | the output does not depend on `centerHeaders` or `addHrLines` |
| FormatterProofs.TocIgnoresDepth | src/formatter.ts:156-164 | the table-of-contents lines do not depend on the entries' depths |
| Cli.IndexOf | bin/cli.js:54 | the first position of a flag, or -1 exactly when the flag is absent |
| Cli.OutputIndex | bin/cli.js:54 | the flag position as written: -1 exactly when `-o` is absent, or is the first argument with no `--output` after it; otherwise it holds `-o`, or `--output` when `-o` is the first argument |
| Cli.ChooseOutput | bin/cli.js:55-58 | the output file is always one of the arguments, and a non-empty one unless it is the input |
| Cli.Dispatch | bin/cli.js:40-59 | a file is formatted only without help or version flags; the input is the first argument and the output is one of the arguments |
| Cli.IntendedOutputIndex | bin/cli.js:24 | the lookup the help text describes: -1 exactly when neither flag occurs; a position holding `-o` whenever `-o` occurs, else one holding `--output` |
| Cli.DispatchIntended | bin/cli.js:40-59 | the dispatch with the intended lookup; same guarantees as Cli.Dispatch |
| CliProofs.HelpIff | bin/cli.js:40-43 | help is shown exactly for no arguments or any `-h`/`--help`, before any version flag is looked at |
| CliProofs.VersionIff | bin/cli.js:45-48 | otherwise the version is shown exactly when `-v` or `--version` occurs |
| CliProofs.InputIsFirst | bin/cli.js:50-51 | every remaining argument list formats its first element |
| CliProofs.DashOFollowed | bin/cli.js:54-56 | `-o` at position one or later, followed by a non-empty element, names the output |
| CliProofs.WithoutDashO | bin/cli.js:54-58 | without `-o` the output is a second argument that is present and not an option, else the input |
| CliProofs.DashOUnfollowed | bin/cli.js:54-58 | `-o` at position one or later with no non-empty element after it is ignored: the output is a present non-option second argument, else the input |
| CliProofs.DashOFirst | bin/cli.js:50-58 | `-o` as the first argument is taken as the input file, and only then is `--output` looked up and its successor used as the output |
| CliProofs.DanglingDashOExample | bin/cli.js:54-58 | `in.md out.md -o` writes `out.md` |
| CliProofs.LeadingDashOExample | bin/cli.js:50-56 | `-o in.md --output out.md` formats a file named `-o` into `out.md` |
| CliProofs.OutputFlagIgnored | bin/cli.js:54 | `in.md --output out.md` writes back to `in.md` |
| CliProofs.OutputFlagHonoured | bin/cli.js:22-24 | with the intended lookup, `--output` followed by a non-empty element names the output |
| CliProofs.IntendedAgrees | bin/cli.js:54-58 | the intended lookup behaves as the written one unless only `--output` is given or `-o` is the first argument |
| CliProofs.OutputFlagExample | bin/cli.js:24-29 | under the intended lookup `in.md --output out.md` writes `out.md` |

## Left out

- Parsing and printing markdown (`format`, the `unified` pipeline). The model starts from a tree and ends at the rewritten child sequence.
- The internals of `mdast-util-to-string` and `unist-util-visit`. Flattening is the concatenation of inline values, and the visit is a pre-order walk over containers.
- Inline node kinds are reduced to two. A node with a `value` becomes `Literal`, and a node with children becomes `Span`. An inline node with neither, such as an image, is not modelled.
- Block kinds other than headings and raw HTML are opaque `Other` nodes, or `Container` nodes when they hold blocks.
- `src/index.ts` and `src/plugin.ts` are not part of this model. They are file I/O wrappers and an identity stub.
- The CLI's side effects: printing help, reading `package.json` for the version, the `fs.existsSync` check, logging and exit codes.
- The per-heading `id` computed and never used in the rewrite pass, and the unused `indent` in `generateTocItems`. Neither is observable.
- Option fields explicitly set to `undefined`: object spread copies them over the defaults, while the model treats them as absent.
- Slug.LowerChar: models JavaScript's `toLowerCase` only for ASCII capitals and for U+0130 and U+212A, the two code points whose lower case contains an ASCII letter. Every other non-ASCII character is stripped by the next step whether or not it is lower-cased, so the slug is unaffected.
- Formatter.NatToString: numbers are unbounded. JavaScript would print an ordinal past 2^53 inexactly, which needs a table of that many entries.

## Findings

| source | as written | input that shows it | evidently intended | confidence | as-written member | corrected member |
|---|---|---|---|---|---|---|
| bin/cli.js:54 | the output flag position is the `-o` index or'ed with the `--output` index; `indexOf` returns -1 (truthy) when `-o` is missing, so `--output` is consulted only when `-o` is the very first argument | `in.md --output out.md` formats `in.md` in place | use `-o` when present, otherwise `--output`, as the help text at lines 22-24 advertises | high (not executed) | Cli.Dispatch, shown by CliProofs.OutputFlagIgnored | Cli.DispatchIntended, proved by CliProofs.OutputFlagHonoured |
