# medic / medkit / medmd core, modelled in Dafny

medic publishes Markdown posts to Medium. This project models the four pieces
of sequential logic behind it and proves properties of each:

- **Front-matter codec** (`front_matter.dfy`, module `FrontMatter`).
  - `toPost` splits a Markdown file into a YAML header between two `---` lines and a body.
  - `toText` writes the two back.
  - `isValidMeta` decides when a header counts.
  - YAML `load` and `safeDump` are function parameters. `load` returns a `Result`, because js-yaml throws on a syntax error and `toPost` does not catch it.
- **Markdown-tree rewrite** `transformMDAST` (`mdast.dfy`, module `Mdast`).
  - Blockquote paragraphs are flattened.
  - Image-only paragraphs become rows of `figure`/`figcaption`, with one caption-merging rule.
  - Paragraphs holding a single image are unwrapped.
  - A leading `#`/`##` pair is renumbered to depths 3 and 4.
  - The image size is an oracle (`Env.sizeOf`), standing for the download or file read.
- **HTML-tree helpers and `transformHAST`** (`hast.dfy`, module `Hast`).
  - `one`, `unknown`, `text` and `all` visit the Markdown tree; each handler is an oracle.
  - `wrap` puts newline texts between nodes.
  - `transformHAST` turns Medium's `graf--title`/`graf--subtitle` paragraphs back into `h1`/`h2`.
- **Page waiters** (`page.dfy`, module `Page`, with the path matcher in `path_pattern.dfy`, module `PathPattern`).
  - `mapKeys` turns the capture groups into a name→value map.
  - `waitForResponse` and `waitForURL` are one-shot state machines. Each is a pure step function over events (a response, a poll, time passing) plus a class whose event methods are proved to perform exactly that step.
- **HTTP reason table** `statusText` (`status.dfy`, module `Status`).
  - Most phrases come from section 6 of RFC 7231.
  - 422, 423, 424 and 507 come from RFC 4918, 508 from RFC 5842, 451 from RFC 7725 and 418 from RFC 2324. 509 is non-standard.

`base.dfy` (module `Base`) holds `Option`, `Result` and `Join`, which is `Array.prototype.join`.

The loops of the source are methods with loop invariants. Each is proved equal to a specification function:
- `ToPost`, `CollectHeader` and `CollectBody` are proved against `Parse`, and `CheckMeta` against `IsValidMeta`;
- `TransformTree`, `TransformNode`, `ScanParagraph` and `BuildRow` against `TNode`/`TSeq`;
- `All` against `AllOf`, `Wrap` against `Wrapped`, and `RetagChildren` against `RetagAll`, in place on an array;
- `MapKeys` against `KeyMap`.

The lemmas state the promised properties about those functions.

## Model

| member | source | states |
|---|---|---|
| FrontMatter.CheckMeta | packages/medic/src/format.js:15-30 | the early-return loop decides exactly `IsValidMeta`: a plain object with an `id` or `tags` key |
| FrontMatter.HeaderKinds | packages/medic/src/format.js:15-30 | a `tags` key counts even when null; `{}`, null, arrays, dates and objects without the keys do not |
| FrontMatter.SplitLines | packages/medic/src/format.js:33 | `split(/\r?\n/)` always yields at least one line |
| FrontMatter.SplitAppend | packages/medic/src/format.js:33 | a `\n` or `\r\n` between two texts separates their lines |
| FrontMatter.JoinSplit | packages/medic/src/format.js:33-76 | joining the lines of a `\r`-free text with `\n` gives the text back |
| FrontMatter.FirstLineShape | packages/medic/src/format.js:33 | the first line is a prefix of the text, followed by its end, `\n` or `\r\n` |
| FrontMatter.FirstLineIsFence | packages/medic/src/format.js:37-38 | the first line is `---` exactly when the text opens with `---` then its end, `\n` or `\r\n` |
| FrontMatter.FirstFence | packages/medic/src/format.js:42-53 | the index found is the first `---` line after the opening one, and None means there is none |
| FrontMatter.CollectHeader | packages/medic/src/format.js:42-56 | the first loop finds the closing fence iff there is one, and collects exactly the lines between the fences |
| FrontMatter.DropLeadingEmptyKeepsRest | packages/medic/src/format.js:64-75 | only a leading run of empty lines is dropped; the rest is kept unchanged and starts non-empty |
| FrontMatter.CollectBody | packages/medic/src/format.js:64-75 | the `checkEmpty` loop yields the lines after the fence minus their leading empty lines |
| FrontMatter.ToPost | packages/medic/src/format.js:32-77 | toPost returns exactly `Parse`: verbatim text under `{}` on each fallback, the loader's error when it throws |
| FrontMatter.NoOpeningFence | packages/medic/src/format.js:37-40 | a text not opening with a `---` line parses to `{}` and the text unchanged |
| FrontMatter.Unclosed | packages/medic/src/format.js:42-56 | an opening fence with no later `---` line gives `{}` and the text unchanged |
| FrontMatter.InvalidHeaderIsVerbatim | packages/medic/src/format.js:57-62 | whenever the header loads to something that is not a mapping with `id` or `tags`, the result is `{}` and the whole original text |
| FrontMatter.EmptyHeaderIsVerbatim | packages/medic/src/format.js:58-62 | an empty header (`---`, `---`, body) keeps the whole text, fences included, under `{}` |
| FrontMatter.ValidOrVerbatim | packages/medic/src/format.js:32-77 | every success is a valid meta or the original text under `{}`; every failure is `load`'s error on a header text |
| FrontMatter.BodyAfterFence | packages/medic/src/format.js:64-76 | with a valid header, the first line is `---`, the closing fence is the first `---` line after it, and the body is the lines after that fence, from the first non-empty one, joined by `\n` |
| FrontMatter.ParseWithHeader | packages/medic/src/format.js:58-76 | a loaded valid header gives that meta and the body after the fence without leading empty lines |
| FrontMatter.OneLineHeader | packages/medic/src/format.js:42-76 | a one-line header such as `tags:` yields what it loads as; one empty line before the body is skipped, later ones kept |
| FrontMatter.ToText | packages/medic/src/format.js:79-90 | an invalid meta writes the body unchanged; a valid one writes `---`, the dump, `---`, an empty line, the body and a newline |
| FrontMatter.ToTextLines | packages/medic/src/format.js:84-89 | a written post's lines are the fence, the dump's lines, the fence, an empty line, the body's lines and a final empty line |
| FrontMatter.RoundTrip | packages/medic/src/format.js:32-89 | toPost(toText(p)) recovers the meta, and the body with exactly the trailing newline toText appended |
| FrontMatter.RoundTripNoHeader | packages/medic/src/format.js:79-83 | without a valid meta toText writes the body alone; it parses back unchanged unless it opens with a fence |
| Mdast.IsEmpty | packages/medmd/src/index.js:34 | `/^ *$/` holds exactly for a text made of spaces only |
| Mdast.IsEmptyCases | packages/medmd/src/index.js:34 | the empty text and spaces pass; a tab, a newline or a no-break space fails; blank texts concatenate |
| Mdast.Images | packages/medmd/src/index.js:61-69 | the images of a paragraph are image nodes, at most as many as its children |
| Mdast.ScanParagraph | packages/medmd/src/index.js:58-80 | the first loop computes whether the paragraph is only images and blank text, the image count, and the non-empty captions in order |
| Mdast.BuildRow | packages/medmd/src/index.js:89-142 | the second loop builds exactly one row figure per image, in order |
| Mdast.TransformParagraph | packages/medmd/src/index.js:53-143 | the paragraph case computes `TNode` of the paragraph |
| Mdast.TransformNode | packages/medmd/src/index.js:38-166 | the `t` switch computes `TNode` for every node kind |
| Mdast.TransformChildren | packages/medmd/src/index.js:167-179 | the `transform` loop computes `TSeq` |
| Mdast.TransformTree | packages/medmd/src/index.js:180-191 | the transformer is the children's transform followed by the corrected renumbering `Renumber`, which does not throw on an empty root or a lone `#` heading (see Findings) |
| Mdast.TSeqAppend | packages/medmd/src/index.js:167-179 | transform is the in-order concatenation of each child's replacement |
| Mdast.BlockquoteFlattens | packages/medmd/src/index.js:40-51 | a paragraph inside a blockquote gives way to its children, untransformed, and the neighbours stay in order |
| Mdast.FlattenWithoutParagraphs | packages/medmd/src/index.js:40-51 | a blockquote without paragraphs keeps its children exactly |
| Mdast.ImageRow | packages/medmd/src/index.js:89-142 | a row paragraph becomes one figure per image, in order, the first of class `graf--layoutOutsetRow` and the rest `graf--layoutOutsetRowContinue`, each holding the sized image and a figcaption whose one text is the row caption |
| Mdast.RowCaptionRule | packages/medmd/src/index.js:109-118 | with at most one caption each figure shows its own; otherwise the first shows all of them joined by `CaptionSeparator` and the others `""` |
| Mdast.RowShowsEveryCaption | packages/medmd/src/index.js:60-118 | under either rule the non-empty captions shown, joined, equal the paragraph's captions joined |
| Mdast.ShortImageParagraph | packages/medmd/src/index.js:85-87 | an image-only paragraph with fewer than two images is replaced by its transformed children |
| Mdast.SingleImage | packages/medmd/src/index.js:145-158 | a paragraph holding one image becomes one figure without a class, holding the image unchanged and a caption that is the alt text, else the title, else empty |
| Mdast.MixedParagraph | packages/medmd/src/index.js:70-84 | a paragraph with any other child keeps its node, with its children transformed |
| Mdast.CaptionedPair | packages/medmd/src/index.js:53-143 | two captioned images around blank text give two figures, the first captioned with both captions joined by `CaptionSeparator`, the second with `""` |
| Mdast.TwoImages | packages/medmd/src/index.js:53-143 | the "2 images" case: "Red" and "Green" joined by `CaptionSeparator` on the first figure, nothing on the second |
| Mdast.HeadingKeepsDepth | packages/medmd/src/index.js:160-164 | a heading stays one heading of the same depth, with its children transformed and absent children left absent |
| Mdast.OtherRecurses | packages/medmd/src/index.js:160-164 | any other node keeps its type and has its children, when present, transformed |
| Mdast.RenumberDepths | packages/medmd/src/index.js:182-191 | a leading `#` becomes depth 3, a `##` right after it depth 4, and every other node is unchanged |
| Mdast.HeadingsAtHead | packages/medmd/src/index.js:180-191 | `#`, `##`, `###`, `####`, text become depths 3, 4, 3, 4 |
| Mdast.RenumberAsWrittenFails | packages/medmd/src/index.js:182-191 | the renumbering as written throws exactly on an empty tree or a lone `#` heading, and otherwise agrees with `Renumber` |
| Mdast.TitleOnlyPostThrows | packages/medmd/src/index.js:182-188 | a post that is only its title makes the renumbering as written throw |
| Hast.RendersAsText | packages/medmd/src/index.js:300-312 | a node renders as text exactly when it has a value and its data sets none of `hName`, `hProperties`, `hChildren` |
| Hast.One | packages/medmd/src/index.js:287-297 | the only error `one` raises, directly or through `unknown` and `all`, is "Expected node" |
| Hast.Unknown | packages/medmd/src/index.js:278-284 | a text-like node becomes a text of its value; any other becomes the class-less `div` that it asks `h` for, holding exactly the visited children, and fails exactly when visiting them fails (overrides from `data` are left out) |
| Hast.UnknownDiv | packages/medmd/src/index.js:283 | a node that does not render as text gives a `div` of `all` of its children, and fails exactly when `all` does |
| Hast.OneRefusesUntyped | packages/medmd/src/index.js:287-297 | a node without a type fails with "Expected node"; a handled type goes to its handler; an unhandled type goes to `unknown`, so an unhandled text node becomes text |
| Hast.All | packages/medmd/src/index.js:314-343 | the visiting loop computes `AllOf` on the parent's children, stopping at the first error |
| Hast.AllFailsAtFirst | packages/medmd/src/index.js:314-343 | a visit fails exactly when some child fails, and with the first such child's error |
| Hast.AllWithoutBreaks | packages/medmd/src/index.js:314-343 | without `break` children the visit concatenates the children's results in order |
| Hast.TextLeaves | packages/medmd/src/index.js:278-312 | unhandled value-carrying leaves become text nodes with their values |
| Hast.TextAfterBreak | packages/medmd/src/index.js:326-335 | text right after a `break` loses its leading white space |
| Hast.TrimLeftDropsSpace | packages/medmd/src/index.js:328 | `trim.left` removes exactly the leading white space |
| Hast.TrimLeftIdempotent | packages/medmd/src/index.js:328 | trimming twice is trimming once |
| Hast.Wrap | packages/medmd/src/index.js:347-369 | the loop computes `Wrapped`: the nodes with newlines between them, and at both ends when loose and non-empty |
| Hast.InterleavePositions | packages/medmd/src/index.js:356-362 | `wrap` puts entry `k` at position `2k` and newlines in between |
| Hast.Unwrap | packages/medmd/src/index.js:347-369 | every other entry of `wrap`'s result is the original list; a loose result starts and ends with a newline |
| Hast.RetagChildren | packages/medmd/src/index.js:374-384 | the in-place loop rewrites each array cell to its retagged node |
| Hast.TransformHast | packages/medmd/src/index.js:371-386 | the transformer computes `TransformHastSpec`, failing when the body is missing |
| Hast.RetagRule | packages/medmd/src/index.js:375-383 | `graf--subtitle` gives `h2`, otherwise `graf--title` gives `h1`; nodes without a className keep everything |
| Hast.TransformHastShape | packages/medmd/src/index.js:371-386 | it throws exactly without a body; otherwise the root, the `html` element, the head and the body keep all their own fields and the body's children are retagged one by one |
| Hast.TransformHastIdempotent | packages/medmd/src/index.js:371-386 | transforming twice is transforming once |
| Hast.MediumHeadings | packages/medmd/src/index.js:371-386 | title/subtitle/h3/h4/p body children become h1/h2/h3/h4/p |
| PathPattern.Compile | packages/medkit/src/page.js:95 | the compiled pattern has one segment per `/`-separated part of the pattern text, less the empty part after a trailing `/`, since the matcher is not strict |
| PathPattern.PatternSlashIgnored | packages/medkit/src/page.js:95 | a pattern and the same pattern with a `/` added at the end compile alike |
| PathPattern.TrailingSlashPattern | packages/medkit/src/page.js:95-119 | the pattern `/a/` matches `/a` and `/a/`, and not `/a//` |
| PathPattern.ExecWithoutKeys | packages/medkit/src/page.js:102-119 | against a pattern without parameters, a matching text, with or without one trailing `/`, yields only itself |
| PathPattern.MatchPartsCaptures | packages/medkit/src/page.js:95-119 | a match yields one capture per key, each a non-empty part of the path |
| PathPattern.ExecShape | packages/medkit/src/page.js:102-119 | exec's result is the text and then one present, non-empty group per key |
| PathPattern.SplitJoin | packages/medkit/src/page.js:95 | splitting `/`-free parts joined with `/` gives them back |
| PathPattern.MatchFill | packages/medkit/src/page.js:95-119 | matching a filled-in pattern captures exactly the values filled in |
| PathPattern.ExecFilled | packages/medkit/src/page.js:95-119 | a URL built from the pattern and `/`-free values matches, and exec returns those values in order |
| PathPattern.LiteralMatch | packages/medkit/src/page.js:95-119 | a pattern without parameters matches only its own segments |
| Page.MapKeys | packages/medkit/src/page.js:7-16 | the `forEach` computes `KeyMap` |
| Page.KeyMapMeaning | packages/medkit/src/page.js:7-16 | a name is in the map iff some key of that name has a non-null group, and maps to the last such group |
| Page.MatchBindsAll | packages/medkit/src/page.js:7-16 | after a match every key binds its group |
| Page.ArmTimer | packages/medkit/src/page.js:110-115 | a timer is armed iff the timeout is positive, for that delay up to the Node.js maximum |
| Page.NatToStringValue | packages/medkit/src/page.js:127 | the status in "bad status: <status>" is its decimal text without leading zeros |
| Page.StartResponseValid | packages/medkit/src/page.js:96-115 | a GET on a matching page URL resolves with 200 and the params, arming nothing; otherwise it listens with a timer iff the timeout (default 10000) is positive |
| Page.ResponseRule | packages/medkit/src/page.js:117-131 | a non-matching response changes nothing; a matching one unsubscribes, clears the timer and rejects on status ≥ 400, else resolves with the status and params |
| Page.ResponseTimeoutRule | packages/medkit/src/page.js:109-115 | when the time runs out the waiter unsubscribes and rejects "timeout", and time passing never settles it otherwise |
| Page.ResponseStepValid | packages/medkit/src/page.js:109-131 | every step keeps "listening iff pending, a timer only while listening" |
| Page.ResponseRunValid | packages/medkit/src/page.js:109-131 | every run of events keeps that invariant |
| Page.ResponseSettled | packages/medkit/src/page.js:123-124 | a settled waiter ignores every later event |
| Page.FirstSettlingEventDecides | packages/medkit/src/page.js:109-131 | the event that first settles the waiter decides its outcome for good |
| Page.OnlyTimeoutWithoutMatch | packages/medkit/src/page.js:117-122 | without a matching response the waiter stays pending or rejects "timeout" |
| Page.DeletedPost | packages/medkit/src/page.js:125-128 | a matching 410 rejects with "bad status: 410" |
| Page.ResponseWaiter.constructor | packages/medkit/src/page.js:93-132 | the waiter starts in `StartResponse`'s state |
| Page.ResponseWaiter.OnResponse | packages/medkit/src/page.js:117-131 | the listener performs exactly `ResponseStep` for the response |
| Page.ResponseWaiter.Elapse | packages/medkit/src/page.js:111-114 | time passing performs exactly `ResponseStep` for the elapsed time |
| Page.UrlRules | packages/medkit/src/page.js:152-169 | a non-matching poll changes nothing; a matching one resolves with the params and stops interval and timer; expiry stops polling and rejects "timeout" |
| Page.StartUrlArms | packages/medkit/src/page.js:147-158 | the URL waiter starts pending and polling, with a timer iff the timeout (default 10000) is positive |
| Page.UrlSettled | packages/medkit/src/page.js:166-168 | a settled URL waiter ignores every later event |
| Page.UrlWithoutTimer | packages/medkit/src/page.js:152-165 | with no timer and no matching poll the waiter stays pending forever |
| Page.UrlWaiter.constructor | packages/medkit/src/page.js:144-160 | the waiter starts in `StartUrl`'s state |
| Page.UrlWaiter.OnPoll | packages/medkit/src/page.js:160-169 | one interval tick performs exactly `UrlStep` for the polled location |
| Page.UrlWaiter.Elapse | packages/medkit/src/page.js:154-157 | time passing performs exactly `UrlStep` for the elapsed time |
| Status.StatusText | packages/medkit/src/utils.js:44 | total and never empty: the table's phrase for a listed code, "Unknown" otherwise |
| Status.Domain | packages/medkit/src/utils.js:5-42 | the table lists exactly 400-418, 421-424, 426, 451 and 500-510 |
| Status.DomainSize | packages/medkit/src/utils.js:5-42 | the table has 36 entries |
| Status.OffTable | packages/medkit/src/utils.js:44 | every code off the table, every code below 400 among them, reads "Unknown" |
| Status.ListedIsKnown | packages/medkit/src/utils.js:5-44 | no listed code reads "Unknown" |
| Status.GoneIs410 | packages/medkit/src/utils.js:16 | 410 reads "Gone" |
| Status.Gaps | packages/medkit/src/utils.js:24-29 | 419, 420 and 425 read "Unknown" |

## Left out

- packages/medkit/src/client.js is not part of this model. It launches the browser, navigates, logs in and sleeps, which is all I/O and timing.
- This model leaves out the in-browser calls of page.js: `execCommand`, `execCommandViaExtension`, `getUserAgent` and `setDataToClipboard`. Each runs script inside the page.
- The image size lookup in index.js:94-108 (a synchronous HTTP request or a file read, then `image-size`) is the oracle `Env.sizeOf`. Only the choice between a remote URL and a path against the first history entry is modelled.
- The unified/remark/rehype pipelines, `mdast2html` and its handlers, and `md2html`/`html2md` (index.js:195-273 and 388-418) are not modelled. They are thin wrappers over unified, remark and rehype. The handlers `one` consults are oracles.
- js-yaml is not modelled: `load` and `safeDump` are parameters. `dump` is total, so a `safeDump` that throws (on an `Undefined` value, say) is not modelled, and `ToText` never fails. The round trip takes, as a requirement, that `load` reads the dump of that one meta back.
- The round trip requires, through `DumpFits`, that `safeDump`'s output end in a newline and hold no `\r` and no `---` line.
- path-to-regexp is replaced by `PathPattern`, a segment matcher. `:name` captures one non-empty `/`-free segment, other segments match as written, and one trailing `/` on the text is allowed. A trailing `/` of the pattern itself is dropped, as in the non-strict default. Case-insensitive matching, `.` delimiters, optional, repeated and custom-regex parameters, and unnamed groups are not modelled.
- The guard `node.children == null` of the paragraph case (index.js:54-56) is not modelled. Paragraph and blockquote children are always lists here. `children` that may be null on other nodes is the `Children` value `Absent`, returned unchanged.
- The `lines.length === 0` branch of format.js:34-36 is not modelled: `SplitLines` never returns an empty list, so that branch is unreachable.
- In-place mutation in `transformMDAST` is modelled on values: nodes are returned rebuilt. The aliasing of a mutated node seen from elsewhere is not captured. `transformHAST`'s retagging is modelled in place on an array of the body's children.
- Puppeteer's listener registry is a `listening` flag. Timers are a remaining delay decreased by `Elapse(ms)`. The 100 ms cadence of the interval is left to whoever feeds `OnPoll`.
- An explicit `timeout: undefined` option overrides the default and arms nothing; a caller passes `Some(0)` for it. Float timeouts are not modelled; delays are integers.
- A poll whose `evaluate` is still in flight when the timer fires cannot settle the waiter again. The model shows this as `OnPoll` doing nothing once polling has stopped.
- The file and CLI glue (`stat`, `readFile`, `writeFile`, `removeFile` and `wait` in medkit utils.js, and the medic command files) is not modelled. It is file I/O and orchestration.
- Hast.Unknown: the element builder `h` that `unknown` calls is a plain constructor. Its `data` overrides are not modelled: `hName` replacing the tag, `hProperties` setting properties and `hChildren` replacing the children. The `data` of a node is kept only as its set of keys, so the non-text result is always a class-less `div` of the visited children.
- Mdast.TransformTree: it implements the corrected renumbering `Renumber`. Where the source throws a TypeError it does not fail: an empty root stays empty, and a root whose only child is a `#` heading has that heading turned into a `###`. The as-written behaviour is `RenumberAsWritten`, with `RenumberAsWrittenFails` and `TitleOnlyPostThrows`.
- Parse: a YAML syntax error in the header is not a verbatim fallback. The code lets `load` throw out of `toPost`, and the model follows the code: `Parse` returns the loader's `Err`.
- Yaml: numbers are integers. Floats, and objects other than plain objects, arrays and dates, are not distinguished.

## Findings

| source | as written | input that shows it | evidently intended | confidence | as-written member | corrected member |
|---|---|---|---|---|---|---|
| packages/medmd/src/index.js:182-188 | `tree.children[0].type` and `tree.children[1].type` are read without checking that the children exist | an empty document, or a document that is only a `# Title` line | renumber only the headings that exist; leave the other trees unchanged | not executed | Mdast.RenumberAsWrittenFails | Mdast.RenumberDepths |
