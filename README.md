# html_messages_splitter in Dafny

A model of `split_msg.py`, which cuts an HTML message into well-formed
fragments, aiming at no more than `max_len` characters (4096 by default)
each. The fit test measures each child as `len(str(child))`, and a text
child is measured raw while the chunk writes it escaped, so the bound is not
guaranteed for every document (see "## Left out"). It consists of:

- `copy_tag_without_contents`, which makes a childless clone of a tag;
- `split_html_by_border`, which cuts a tree against a character budget;
- `split_message`, the fragment generator with its fast path.

## Files

- `html.dfy`, module `Html`: the parsed tree as a value.
  - A node is `Text` or `Element`. An element has a name, attributes, the
    `can_be_empty_element` and `hidden` flags, and its children.
  - `Serialize` gives the text of a node and `SerLen` its length.
  - The tree's nodes are counted by `Count` and its text leaves collected
    by `Leaves`.
  - `Strip` is Python's `str.strip()`.
- `split_msg.dfy`, module `SplitMsg`: the constants, the tag copy, the
  splitter and the fragment loop.
  - `Split` specifies one call of the splitter.
  - The method `SplitHtmlByBorder` has the source's `while elements.contents`
    loop and its recursive call, and is proved equal to `Split`.
  - `SplitLoop` and `Fragments` specify the generator.
  - The method `SplitMessage` has the source's `while soup.contents` loop and
    is proved equal to `Fragments`.
- `split_props.dfy`, module `SplitProps`: what the splitter and the loop
  guarantee.
- `scenarios.dfy`, module `Scenarios`: the test suite's documents, and the
  edge cases of the code, run through the model.

### The in-place tree surgery

The source extracts children from the tree it is given. Here trees are
values. A split returns an `Outcome`: the result (a left chunk or an error)
and `remaining`, the state the input is left in. A caller puts `remaining`
back where the input was. When a recursive attempt fails, its `remaining` is
threaded back the same way, and `FailureLeavesInputUnchanged` proves that it
equals the input.

### Behaviours of the code worth knowing

- `<p>` + 5000 characters of text fails at a budget of 4096, as it does at
  1000. Text nodes are never cut, so the call on the paragraph raises "Plain
  text string is not splittable". The top-level call's left chunk is still
  empty, so it rewraps that error as a failed separation of the paragraph
  (`LongSingleTagScenarios`).
- `<i><span></span></i> s</i>` at a budget of 18 fails with a failed
  separation of `i` at 18, not with the empty element's own error. The
  empty `span` raises "has no content" in the call on `i`. The top-level
  call catches it with an empty left chunk and rewraps it
  (`EmptyNestedElementFails`).
- `<p>&amp;&amp;</p>` (17 characters) at `max_len` 10 yields `<p>&amp;&amp;</p>`
  and then `<p></p>`. The root call recurses into `p`, and the fit test
  measures the text child as the 2-character `&&`. So the text is moved and
  `p` is left empty, to come out on its own in the next pass. The model has
  one length for a node, the one it is written with, so it takes `p` whole
  in one pass (see "## Left out").

## Model

| member | source | states |
|---|---|---|
| SplitMsg.CopyTagWithoutContents | split_msg.py:11-26 | the copy is an element with the same name, attributes, `can_be_empty_element` and `hidden` flags, and no children |
| SplitProps.CopyRefilledIsOriginal | split_msg.py:22-26 | the copy differs from the original in its children only: refilled with them it is the original, and it holds no text |
| Html.SerLenIsLength | split_msg.py:52-53 | the length the splitter computes equals the length of the serialised text (hidden root without a tag, void short form, attributes) |
| Html.Strip | split_msg.py:116 | the result is a slice of the input with only Python white-space characters before and after it, and it neither starts nor ends with one |
| SplitMsg.FitCount | split_msg.py:50-57 | the children moved whole are exactly those before the first child for which chunk length plus child length exceeds the budget |
| SplitMsg.SplitHtmlByBorder | split_msg.py:29-94 | the loop, the checks, the one recursive attempt and the early exits produce exactly the result and remaining input of `Split` |
| SplitMsg.FailureLeavesInputUnchanged | split_msg.py:84-90 | a failing call has extracted nothing: its input is left exactly as it was |
| SplitMsg.SplitProgress | split_msg.py:50-57 | a successful split leaves an element with no more nodes than before, and strictly fewer when the input had children |
| SplitMsg.SplitMessage | split_msg.py:97-116 | the generator yields exactly the fragments and final error of `Fragments`; when the source is at most `max_len` long it yields the source alone |
| SplitProps.FailureOnlyAtFirstChild | split_msg.py:58-90 | a split fails only when the first child does not fit next to the empty chunk; the error is the first failing check (text, tag outside BLOCK_TAGS, no content, budget below 7) or the wrapped failure of the recursive attempt |
| SplitProps.FirstChildFailures | split_msg.py:43-90 | conversely, a text input always fails and leaves the input unchanged; a first child that does not fit fails the split exactly when a check rejects it or its recursive attempt fails |
| SplitProps.FailedAttemptKeepsChunk | split_msg.py:84-87 | if the recursive attempt fails after some children were taken, the call returns those children and leaves the unfit child untouched at the front of the input |
| SplitProps.SplitIsCut | split_msg.py:50-92 | a successful split cuts the input at one point: the chunk holds the first children that fit, in order, plus at most one partial child; the input keeps the rest, in order |
| SplitProps.CutConservesLeaves | split_msg.py:50-92 | a cut neither loses, duplicates nor reorders text: left text followed by remaining text is the input's text |
| SplitProps.SplitConservesText | split_msg.py:50-92 | for any call, chunk text followed by remaining text is the input's text; a failing call changes nothing |
| SplitProps.PrefixWithin | split_msg.py:52-57 | children moved whole while each fits keep the chunk within the budget |
| SplitProps.ChunkWithinBorder | split_msg.py:52-57 | with no empty elements, the left chunk serialises within `border` |
| SplitProps.ChunkNotEmpty | split_msg.py:81-92 | a successful split of an element with children returns a chunk with children |
| SplitProps.OverflowLeavesRest | split_msg.py:50-92 | with no empty elements, an element longer than the budget keeps children after a successful split |
| SplitProps.SplitKeepsDense | split_msg.py:81-92 | with no empty elements, the input is left with no empty elements, so the next pass may rely on it |
| SplitProps.SplitIsProperCut | split_msg.py:81-92 | with no empty elements, a tag appears on both sides only when its content is divided: both parts of every cut child have content |
| SplitProps.LoopStops | split_msg.py:114-116 | the loop ends with an empty root or with the error of a split of the root as it was then, unchanged by that failed split |
| SplitProps.LoopPassesBounded | split_msg.py:114-116 | the loop makes fewer passes than the tree has nodes |
| SplitProps.LoopConservesText | split_msg.py:114-116 | all chunks' text, followed by the text still in the root, is the document's text, in order |
| SplitProps.LoopChunksFit | split_msg.py:114-116 | with no empty elements, every chunk has content and its serialisation (text written as stored) is within `max_len` |
| SplitProps.FragmentsFit | split_msg.py:97-116 | with no empty elements, every yielded fragment is at most `max_len` characters long, text written as stored |
| SplitProps.RendersAt | split_msg.py:114-116 | one fragment per chunk, in the chunks' order, each the stripped serialisation of its chunk |
| Scenarios.LongSingleTagFails | tests/test_split_msg.py:60-66 | `<p>` + text longer than the budget yields nothing and fails with a failed separation of the paragraph at the budget |
| Scenarios.LongSingleTagScenarios | tests/fixtures/fixture_split_message.py:30-33 | with 5000 characters this holds at 1000 and at 4096 |
| Scenarios.BorderBelowThreshold | tests/test_split_msg.py:15-21 | at `max_len` 5 the first split fails at once with the budget-too-small error for 5 |
| Scenarios.ThreeParagraphs | tests/test_split_msg.py:52-57 | three `<p>`+93 characters+`</p>` blocks at 100 give three fragments, each one paragraph |
| Scenarios.NestedTags | tests/test_split_msg.py:34-49 | the nested-tags fixture gives exactly the two fragments `<p><b>Hello, <i>world</i></b></p>` and `<p> `+text+`</p>` |
| Scenarios.NestedParagraphSplit | tests/fixtures/fixture_split_message.py:19-20 | the 4097-character paragraph is cut after its bold element; the text stays behind under a `<p>` |
| Scenarios.EmptyNestedElementFails | split_msg.py:69-72 | an empty `span` as the only child of `i`, at 18, surfaces as a failed separation of `i` with budget 18 |
| Scenarios.EmptyElementAfterContent | split_msg.py:81-83 | an empty element reached after content is appended unchecked (the chunk is 16 characters at budget 5) and stays in the input, where the next split fails on it |

## Left out

- The command-line entry point, file reading and printing (split_msg.py:119-149): I/O glue.
- Parsing: `SplitMessage` takes the parser's tree for the source as a parameter, since the HTML parser is library code.
- Serialisation follows the library's shape (tag, attributes, children, closing tag; a hidden root has no tag; a childless void element is `<x/>`). It does not escape entities. Attributes are written in their stored order, with double quotes; the library's default formatter sorts them by key, which changes their order but not the length.
- The `builder`, `namespace` and `nsprefix` arguments of the `Tag` constructor: they affect neither lengths nor structure.
- The exception messages: each failure is an error variant that carries the node or budget the message names.
- Generator laziness: the fragments are a sequence, followed by the error that stopped the generator, if any.
- Multi-valued attributes, and attributes whose value the library writes differently from ` key="value"`.
- SplitProps.ChunkWithinBorder: the length bound is proved only for trees without empty elements, because the code appends an empty element reached after content without checking its length (shown by `EmptyElementAfterContent`); for the program it also needs text the formatter writes unchanged (see `FragmentsFit`).
- SplitProps.FragmentsFit: the bound holds for the program only when every text is one the library's formatter writes unchanged (no `&`, `<` or `>`) and the tree has no comment or doctype nodes. A tag child is measured as it is written, so attribute values do not matter. The fit test at split_msg.py:53 measures a text child as its raw string, while `str(left_chunk)` at lines 52 and 116 writes it escaped (`&` as `&amp;`); the model has a single serialised length, so it cannot show the difference. For example, the 20-character source `&amp;&amp;&amp;&amp;` at `max_len` 10 parses to the 4-character text `&&&&`, which is moved whole and yielded as the 20 characters it came from.
- SplitProps.LoopChunksFit: same restriction as `FragmentsFit`, for the same reason.
- SplitProps.SplitIsProperCut: the no-duplicated-tag property is proved under the same precondition, for the same reason. In the program it also needs text the formatter writes unchanged: `<p>&amp;&amp;</p>` at `max_len` 10, a tree with no empty elements, has its text moved out of `p` in the recursive call, so `p` appears in the chunk and, empty, in the input.
- SplitProps.SplitKeepsDense: in the program this also needs text the formatter writes unchanged. The same input, `<p>&amp;&amp;</p>` at `max_len` 10, leaves an empty `p` in the input after the first pass, and the next fragment is `<p></p>`.
- SplitProps.OverflowLeavesRest: in the program this also needs text the formatter writes unchanged. With `<p>&amp;&amp;</p>` at `max_len` 10, the 17-character `p` keeps no children after its split, because its text is measured as 2 characters and fits.
