# AsciiDoc file splitter — a verified model

This project models the core of `index.ts`, a script that splits one AsciiDoc document into one page per
section and writes a navigation outline. The model covers:

- **Section extraction** (`getSections`). The script walks the parsed section tree in pre-order and emits one
  descriptor per visited section. It descends into a section's children only while the split countdown is
  positive. A section's own `split` attribute replaces the countdown it inherits. A backward pass then sets
  each descriptor's end line to the start line of the next descriptor.
- **Part building** (`splitIntoParts`). The script takes the slice of source lines for each descriptor. It
  demotes heading markers by the section's depth, joins the lines with `\n`, collects the anchors the content
  defines, and derives the page path from the chain of split ancestors.
- **Cross-reference rewriting** (the `replace` callback). The global pattern `<<(.+?)(, *(.+?) *)?>>` is
  modelled by a scanner that follows JavaScript's search order:
  - a lazy target;
  - an optional group, tried first;
  - greedy spaces;
  - a lazy label.

  Each match is resolved against the first part that defines its target. A reference into the same part is
  kept. A reference into another part becomes `xref:<path>#<ref>[<label>]`. An unknown target aborts with
  `Couldn't find reference <ref>`.
- **The top level**. The script rewrites and writes every page in order, then writes `target/nav.adoc` with
  one outline line per part, made of `*` repeated depth + 1 times, then ` xref:<path>[]`.

Modules:

| module | file | contents |
|---|---|---|
| `Wrappers` | `wrappers.dfy` | `Option`, `Result` |
| `Text` | `text.dfy` | join, split, JavaScript `Array.prototype.slice`, runs of a character |
| `Sections` | `sections.dfy` | the section tree, descriptors, `getSections` and its properties |
| `Parts` | `parts.dfy` | heading demotion, paths, `splitIntoParts`, how slices tile the source |
| `XRefs` | `xrefs.dfy` | the pattern scanner, resolution, the rewrite of a whole content |
| `Splitter` | `splitter.dfy` | the write loop, the navigation file, worked scenarios |

How the source's state is modelled:

- Where `index.ts` changes state step by step, the model is a method with loops:
  - `GetSections` and `ChainEndLines` for the `push`es and the backward loop;
  - `DemoteHeadings`, which updates an `array` in place;
  - `SplitIntoParts` and `BuildPart`;
  - `WriteParts` and `SplitDocument`.
- Each such method is proved against a specification function:
  - `Extract` and `WithEndLines` for extraction and the backward pass;
  - `Demoted` for heading demotion;
  - `DocumentParts` and `PartOf` for part building;
  - `Rewrite` for the write loop.
- Path derivation, resolution and the navigation text are functions.

Behaviour of `index.ts` worth noting, which the model follows:

- **Same-part test.** A reference is kept when the owning part has the same *name* as the current part
  (index.ts:28), not when it is the same part. `XRefs.DistinctNamesKeepOnlyLocal` shows the two agree when
  names are distinct.
- **Split trigger.** index.ts:91 reads the value of the attribute named `split` and uses it only when that
  value is truthy. The comment at index.ts:93 speaks of `[%split]`, but a bare `[%split]` sets an option, not a
  `split` value. The attribute is then absent (`None`), the inherited countdown 0 stays in force, and nothing
  is split. For "setup" holding "install", that gives two parts, with "install" inside the slice of "setup"
  (`Splitter.ScenarioSplitOptionOnly`). With a `split` value of 1 (`[split=1]`) on "setup", the child
  "install" becomes a part of its own, `setup/install.adoc` (`Splitter.ScenarioSplitCountdown`,
  `Splitter.ScenarioNestedPath`).
- **Duplicate anchors.** The first part in list order that defines an anchor owns it (index.ts:24).
- **Errors.** An unresolvable reference aborts the loop. The pages of the parts before it have already been
  written, and no navigation file is written (index.ts:21-42).
- **Preamble.** Text before the first section belongs to no part.

## Model

| member | source | states |
|---|---|---|
| Sections.Effective | index.ts:90-91 | the countdown for a section's children: its own `split` attribute when present, otherwise the inherited countdown, as `Sections.AttributeOverridesCountdown` and `Sections.OptInByDefault` state |
| Sections.ExtractNode | index.ts:83-96 | a visited section contributes first its own descriptor (its name, the given ancestors, start `line - 2`, no end); every descriptor it contributes sits under those ancestors |
| Sections.Extract | index.ts:81-96 | every descriptor of a sibling list sits under the given ancestor chain, and none has an end line before the backward pass |
| Sections.DocumentSections | index.ts:47 | the descriptors of `getSections(doc, [], 0)`: extraction from the top with countdown 0, then chained end lines, as `Sections.GetSections`, `Parts.DocumentSectionsWellPlaced` and the scenarios state |
| Sections.GetSections | index.ts:79-105 | the returned descriptors are, end lines aside, the pre-order extraction of the children under the countdown rule, and their end lines are chained |
| Sections.ChainEndLines | index.ts:98-103 | the backward loop changes only end lines: each becomes the next descriptor's start line, and the last becomes null |
| Sections.WithEndLines | index.ts:98-103 | the reference result of the backward pass keeps every other field and chains the end lines |
| Sections.OptInByDefault | index.ts:90-95 | with a non-positive countdown and no positive attribute, each top-level section yields exactly its own descriptor, in order, and nothing below it |
| Sections.AttributeOverridesCountdown | index.ts:90-95 | a section's own `split` attribute makes the inherited countdown irrelevant; a non-positive attribute keeps all its children in its own slice |
| Sections.CountdownBoundsDepth | index.ts:91-94 | without attributes, no descriptor sits under more than `countdown` split ancestors below the starting chain |
| Sections.StartsComeFromSections | index.ts:86 | every descriptor starts two lines above the line of some section of the tree |
| Sections.StartsFollowDocumentOrder | index.ts:81-96 | when section lines increase in document order, descriptor start lines strictly increase along the list |
| Parts.EndArg | index.ts:49 | the end argument of the slice: an absent end line and an end line of 0 both mean "to the end"; `Parts.SlicesTile` states what the resulting slices cover |
| Parts.SliceOf | index.ts:49 | the source lines from the start line up to that end argument, through `Text.Slice`, as `Parts.SlicesTile` and `Parts.ContentsReassemble` state |
| Parts.StripOnce | index.ts:54 | `l.replace(/^=(=+ .*)/, "$1")`: a line of two or more `=` and a space loses its first `=`, any other line is unchanged, as `Parts.StripOnceStep` states |
| Parts.Demoted | index.ts:53-55 | a line after `n` rounds of that replacement, as `Parts.DemotionShape`, `Parts.DemotionComposes` and `Parts.HeadingsShiftByDepth` state and `Parts.DemoteHeadings` is proved against |
| Parts.DemoteHeadings | index.ts:50-57 | the nested loops replace every line of the slice, in place, by that line demoted `depth + 1` times |
| Parts.StripOnceStep | index.ts:54 | one more application of the `^=(=+ .*)` replacement demotes a line by one more level |
| Parts.DemotionShape | index.ts:53-55 | a line that is not a heading marker is unchanged; a heading marker with `k` `=` loses exactly `min(n, k - 1)` of them, keeps at least one, and keeps the rest of the line |
| Parts.DemotionComposes | index.ts:53-55 | demoting by `a` and then by `b` is demoting by `a + b` |
| Parts.HeadingsShiftByDepth | index.ts:53-55 | in a part at depth `d`, the section's own heading (`d + 2` markers) becomes the title (`=`), and a heading `e` levels deeper keeps `e` extra markers |
| Parts.PathOf | index.ts:63-64 | the part path: the ancestors joined by `/` with a trailing `/` when there are any, then the name and `.adoc`, as `Parts.PathIsJoinedChain` and `Parts.PathInjective` state |
| Parts.PathIsJoinedChain | index.ts:63-64 | the path is the ancestors and the name joined by `/`, plus `.adoc` |
| Parts.PathInjective | index.ts:63-64 | when no name contains `/`, two parts share a path only if they have the same ancestors and the same name |
| Parts.PartOf | index.ts:48-72 | the part of one descriptor: its name, ancestors and path, its demoted slice joined by `\n`, and that content's anchors; `Parts.BuildPart` is proved against it |
| Parts.DocumentParts | index.ts:44-76 | one `PartOf` per descriptor of `DocumentSections`, in order; `Parts.SplitIntoParts` is proved against it and `Parts.DocumentSlicesTile` states what the slices cover |
| Parts.BuildPart | index.ts:48-72 | the part for one descriptor is its demoted slice joined by `\n`, the anchors of that content, and its derived path |
| Parts.SplitIntoParts | index.ts:44-76 | one part per descriptor of the document-level extraction, in order |
| Parts.ChainedIsUnique | index.ts:98-103 | two descriptor lists with the same skeleton and chained end lines are equal |
| Parts.SlicesTile | index.ts:49 | with increasing start lines inside the source and chained end lines, the slices, end to end, are the source from the first start on |
| Parts.ContentsReassemble | index.ts:49-58 | joining the undemoted contents with `\n` reproduces the source from the first section on when the last section is not empty |
| Parts.DocumentSectionsWellPlaced | index.ts:79-105 | for a document whose headings increase and lie within the source, the descriptors start in order, the first at the first heading's `line - 2`, and their end lines are chained |
| Parts.DocumentSlicesTile | index.ts:47-49 | for such a document, the parts' slices tile the source from two lines above the first heading to the end |
| Text.Join | index.ts:41 | `Array.prototype.join` with a one-character separator, as `Text.SplitJoin`, `Parts.PathIsJoinedChain` and `Splitter.NavOutline` state |
| Text.Slice | index.ts:49 | for in-range bounds the slice is the subsequence between them, to the end when no end is given, and never longer than the source |
| Text.SplitJoin | index.ts:41 | splitting a `\n`-joined list of lines without line breaks at `\n` gives the lines back |
| XRefs.MatchAt | index.ts:23 | the match of `<<(.+?)(, *(.+?) *)?>>` at one position, in JavaScript's backtracking order, as `XRefs.MatchAtSound`, `XRefs.MatchParsesMarkup` and `XRefs.GroupScan` state |
| XRefs.Scan | index.ts:23 | the global leftmost search: matches and the plain characters between them, in order, as `XRefs.ScanUnscan`, `XRefs.ScanPlainText` and `XRefs.ReferenceAmidText` state |
| XRefs.MatchAtSound | index.ts:23 | whatever the pattern matches at a position is `<<`, a non-empty single-line target, the optional `, label` group with non-empty single-line label, and `>>`, there in the text |
| XRefs.MatchParsesMarkup | index.ts:23 | the markup of a well-formed match parses back as that same match, whatever surrounds it |
| XRefs.GroupScan | index.ts:23 | the optional group is found with the greedy ` *` taking all the leading spaces and the lazy label stopping at its last non-space character |
| XRefs.ScanUnscan | index.ts:23 | the global search splits the content into plain characters and matches that, put back together, give the content |
| XRefs.ScanPlainText | index.ts:23 | a stretch without `<` contains no match and is passed character by character |
| XRefs.ReferenceAmidText | index.ts:23 | one well-formed reference amid text without `<` is found as exactly one match, with the text around it plain |
| XRefs.Owner | index.ts:24 | `find` returns the first part whose anchors contain the target, or none when no part defines it |
| XRefs.Resolve | index.ts:23-33 | the callback for one match: an error when no part defines the target, `wholeMatch` when the owner has the current part's name, else an `xref:`, as `XRefs.UnknownTargetFails`, `XRefs.FirstDefinerWins` and `XRefs.DistinctNamesKeepOnlyLocal` state |
| XRefs.UnknownTargetFails | index.ts:24-27 | the callback fails exactly when no part defines the target, with the message `Couldn't find reference <ref>` |
| XRefs.FirstDefinerWins | index.ts:24-32 | the first defining part decides: same name keeps the match, else `xref:<path>#<ref>[<label or "">]` |
| XRefs.DistinctNamesKeepOnlyLocal | index.ts:28-32 | when part names are distinct, a match is kept exactly when the current part is its owner |
| XRefs.RewritePieces | index.ts:23-33 | the replacement of every piece in order, failing at the first failing callback, as `XRefs.PlainsRewrite`, `XRefs.LocalReferencesKept` and `XRefs.FailsOnFirstUnknown` state |
| XRefs.Rewrite | index.ts:23-33 | `content.replace(pattern, callback)`: the pieces of `Scan` rewritten by `RewritePieces`, as `XRefs.RewriteLoneReference` and `Splitter.ScenarioCrossReference` state |
| XRefs.PlainsRewrite | index.ts:23 | text outside any match is copied unchanged ahead of whatever follows it |
| XRefs.LocalReferencesKept | index.ts:23-33 | content whose references all resolve to the current part's name comes back unchanged |
| XRefs.FailsOnFirstUnknown | index.ts:23-33 | the rewrite fails exactly when some match names an anchor no part defines, and the error names the first such target |
| XRefs.RewriteLoneReference | index.ts:23-33 | the content `before + <<ref…>> + after` is rewritten to `before + resolution + after`, or fails as the resolution does |
| Splitter.NavLine | index.ts:41 | the outline entry of one part, as `Splitter.NavLineShape` states |
| Splitter.Nav | index.ts:41 | the entries of all parts joined by `\n`, as `Splitter.NavOutline` states |
| Splitter.NavLineShape | index.ts:41 | one outline line is `depth + 1` asterisks, then ` xref:`, the path and `[]`, with no line break |
| Splitter.NavOutline | index.ts:41 | the navigation file has exactly one line per part, in order, each with `depth + 1` leading `*` and then ` xref:<path>[]`; without parts it is empty |
| Splitter.WriteParts | index.ts:21-39 | every part is written in order with its rewritten content; the first part whose rewrite fails stops the loop with that error, after the pages before it |
| Splitter.SplitDocument | index.ts:20-42 | the pages of all parts and then `target/nav.adoc` with the outline, or the pages before the first failing part and its error |
| Splitter.ScenarioSplitCountdown | index.ts:79-105 | "intro" (line 3) and "setup" (line 7, `split` value 1) holding "install" (line 10) give three descriptors, with "install" under "setup" and chained end lines |
| Splitter.ScenarioSplitOptionOnly | index.ts:90-96 | the same document with no `split` value on "setup" (a bare `[%split]` option) gives two descriptors, "intro" and "setup", with "install" left inside the slice of "setup" |
| Splitter.ScenarioNestedPath | index.ts:63-64 | the part "install" under "setup" is written to `setup/install.adoc` |
| Splitter.ScenarioCrossReference | index.ts:23-33 | `<<install-step, see install>>` in "intro", with the anchor defined only in "setup", becomes `xref:setup.adoc#install-step[see install]` |

## Left out

- Command line (index.ts:9-13): reading `process.argv` and `process.exit` are I/O. The document is a
  parameter.
- Asciidoctor (index.ts:14-16, 46, 60-61, 81, 86, 90): loading, source lines, section locations, attributes and
  `getRefs` belong to a foreign library.
  - The parsed tree is the `Sec` datatype.
  - The source lines are a `seq<string>` parameter.
  - Re-parsing a part's content for its anchors is the function parameter `refsOf`.
  - An absent or empty `split` attribute is `None`. `parseInt`'s result is `Some(n)`, and `NaN` is folded into
    `Some(0)`, which behaves alike since neither is positive.
- `slug` (index.ts:5, 82): section names are taken as already slugged strings.
- File system (index.ts:36-38, 42): `mkdirSync` and `writeFileSync` are modelled as the list of
  `File(path, content)` the script writes, in order. Directory creation is not modelled.
- The `console.log` left commented out (index.ts:34) has no effect.
- The pattern is modelled for this one regular expression only, not as a general regex engine. `.` excludes the
  four JavaScript line terminators. UTF-16 code units and surrogate pairs are not modelled: a `char` stands for
  one character.
- XRefs.ReferenceAmidText: the exact result of the whole search is stated for one well-formed reference amid
  text without `<`. For other content, only `ScanUnscan` and `MatchAtSound` constrain it.
- XRefs.RewriteLoneReference: stated for the same single-reference contents as `ReferenceAmidText`. For any
  sequence of matches, `FailsOnFirstUnknown` and `LocalReferencesKept` cover the general case.
- Parts.SlicesTile: the tiling is stated for descriptors whose start lines increase and lie inside the source.
  Out-of-range start lines (a heading on line 1 gives -1) are modelled by `Text.Slice` exactly as JavaScript
  slices, but no tiling is claimed for them.
- Parts.ContentsReassemble: needs the last section's slice to be non-empty, because joining loses an empty
  slice.
- Sections.CountdownBoundsDepth: stated for trees without `split` attributes, because an attribute restarts
  the countdown.
