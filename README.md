# A verified model of the-wash's byte-by-byte HTML scanner

The-wash's `src/html.rs` holds a hand-written HTML scanner, `parse_html`, and a serializer,
`HtmlDoc::fixed_format`. The scanner walks the input bytes once. It keeps a one-byte flag
register (`HtmlFlags`), two cursor pairs and a sticky tag name. It appends text and element
nodes, flat, to the `body` of a fixed `html > {head, body}` document. The serializer renders
a document tree back to markup.

This project models both in Dafny:

- `html.dfy`, module `Html`: the tree (`HtmlTree`, `Attribute`, `HtmlDoc`) and the fixed shell.
  Every `&str` in the tree is a `Str`. A `Str` is either `Slice(lo, hi)`, half-open indices
  into the input bytes (the source borrows from the input), or `Lit` for the static names
  `html`, `head`, `body` and the initial empty tag name.
- `flags.dfy`, module `Flags`: the register as a class `HtmlFlags` over a `bv8` field.
  `SetBit`, `Reset` and the named setters are methods that update it. `Bit` and `WithBit` are
  the pure bit operations that specify them.
- `scanner.dfy`, module `Scanner`: `ParseHtml` is the scan loop. It holds the cursors and the
  tag name in locals, the flags in an `HtmlFlags` object, and the document in a variable it
  updates through `PushBody`. It is proved equal to the specification `Parse`. `Step` is one
  loop iteration, `Scan(input, n)` is the state after `n` bytes, and `Parse` adds the
  end-of-input flush. `ScanValid` is the invariant of every reachable state.
- `format.dfy`, module `Format`: `Render`, `RenderChildren`, `RenderAttrs` and `FixedFormat`
  are recursive functions over the tree. The slices are resolved against the input.
- `scanner_facts.dfy`, module `ScannerFacts`: properties of single steps, of every reachable
  state and of the returned document.
- `text_starts.dfy`, module `TextStarts`: where each text starts. A `>` read while a tag is open
  closes it, and every text starts at the input's start or at the closing `>` of the tag before it.
- `traces.dfy`, module `Traces`: traces of `Scan` on short inputs, proved state by state.

Three behaviours of the code that a reader of the markup may not expect; the model follows the
code:

- `"< os></os>"` does yield an element, although src/tests.rs:3 expects an empty result. The
  space only abandons the first tag. The second `>` emits the text `< os>` and an element named
  `os` (`Traces.SpaceAfterOpenTrace`).
- Text after the input's last `<` is never emitted. Every `<` moves the end of the pending span
  (src/html.rs:219), so the last text in `body` ends at the last `<` of the input, and the span
  flushed at the end of the input never reaches past it (`ScannerFacts.ParseTextsDelimited`; for
  example `<a>xyz` gives an empty `body`, `Traces.TrailingTextDropped`).
- An immediate `<>` does not give an empty name. The name span starts at offset 0 or at an
  earlier name byte, so a name is never empty (`Traces.EmptyTagNameTrace`,
  `ScannerFacts.ParseEmitsNoEmptyNode`).

## Model

| member | source | states |
|---|---|---|
| `Html.PushBody` | src/html.rs:229-250 | pushing a node changes only the children of the root's second child (`body`), by appending that node; doctype, root name, root attributes and every other root child are unchanged |
| `Html.PushShell` | src/html.rs:181-199 | pushing into the fixed shell gives the same shell with one more `body` child |
| `Flags.Bit` | src/html.rs:114-116 | `get_bit(bit)` is the bit-th binary digit of the register |
| `Flags.WithBit` | src/html.rs:117-123 | after `set_bit(bit, v)` the bit reads `v` and every other bit reads as before |
| `Flags.MaskLeavesOthers` | src/html.rs:117-123 | or-ing in or and-ing out the mask `1 << bit` leaves every other bit of the register as it was |
| `Flags.HtmlFlags.constructor` | src/html.rs:177 | the register starts with the given byte (the scanner passes 0) |
| `Flags.HtmlFlags.SetBit` | src/html.rs:117-123 | the new register is `WithBit` of the old one: the bit reads `v` and the other seven bits are unchanged |
| `Flags.HtmlFlags.Reset` | src/html.rs:124-126 | the register becomes 0 and every bit reads false |
| `Flags.HtmlFlags.SetOpenTag` | src/html.rs:142-144 | `open_tag` reads `v`; `name_issued` and `inside_quote` are unchanged |
| `Flags.HtmlFlags.SetNameIssued` | src/html.rs:145-147 | `name_issued` reads `v`; `open_tag` and `inside_quote` are unchanged |
| `Scanner.ParseHtml` | src/html.rs:157-290 | the scan loop, with the flag object and appends through `PushBody`, returns exactly `Parse(input)`; the two cursor orderings the loop asserts hold at every iteration |
| `Scanner.StepValid` | src/html.rs:204-267 | one byte of the loop takes a valid state to a valid state: cursors ordered and within the input, only the open-tag and name bits ever set, the tag name empty or a captured name, `body` alternating text and element with ordered texts |
| `Scanner.GreaterValid` | src/html.rs:221-257 | a `>` closing an open tag keeps the state valid: the pushed text ends before a `<` and starts at 0 or a `>`, and the pushed element has a non-empty name |
| `Scanner.ScanIsValid` | src/html.rs:201-269 | every state the loop reaches after any number of bytes is valid |
| `ScannerFacts.SlashIsInert` | src/html.rs:258 | a `/` changes nothing |
| `ScannerFacts.StrayCloseIsInert` | src/html.rs:221-222 | a `>` with no open tag changes nothing |
| `ScannerFacts.SpaceBeforeNameAbandons` | src/html.rs:207-214 | whitespace in an open tag before any name byte only clears the flags |
| `ScannerFacts.BodyGrowsByPairs` | src/html.rs:221-256 | `body` changes if and only if the byte is a `>` closing an open tag with a non-empty text span; then it gains exactly that text followed by an element with no attributes and no children |
| `ScannerFacts.TagNameChangesOnlyAt` | src/html.rs:207-226 | whitespace in a named open tag, and the `>` of an open tag whose name is still empty, set the tag name to the span from `from_n` up to this byte and `to_n` to this byte; the name changes nowhere else, and `reset` at `>` leaves it alone |
| `ScannerFacts.CursorsChangeOnlyAt` | src/html.rs:210-264 | every `<` sets `to` and the open-tag bit; a `>` read while a tag is open sets `from` and `to` to its position; the first name byte of an open tag sets `from_n` and `to_n` to its position and the name-issued bit; no cursor moves anywhere else, and `to_n` alone only where the name is captured |
| `ScannerFacts.CursorsOrdered` | src/html.rs:202-203 | `from <= to` and `from_n <= to_n` hold, and all four cursors are at most the number of bytes read |
| `ScannerFacts.StepGaps` | src/html.rs:217-257 | one byte keeps the `<` gaps: no `<` after the end of the pending span, none between the last pushed text and the `>` that closed its element, none between consecutive texts |
| `ScannerFacts.ScanGaps` | src/html.rs:217-257 | every state the loop reaches has those `<` gaps |
| `ScannerFacts.QuoteGateAlwaysPasses` | src/html.rs:205 | the quote bit is never set, so the gate always lets the byte through; the name bit is set only together with the open-tag bit |
| `ScannerFacts.TagNameNeverCleared` | src/html.rs:223-226 | once the tag name is non-empty it stays non-empty for the rest of the scan |
| `ScannerFacts.NameStaysSlice` | src/html.rs:209-226 | once the tag name is a slice of the input, every later tag name is one too; it never returns to the initial empty literal |
| `ScannerFacts.BodyOnlyGrows` | src/html.rs:237-244 | an earlier `body` is a prefix of every later one, and the difference has even length |
| `ScannerFacts.ElementsAtMostCloses` | src/html.rs:221-244 | `body` holds at most two nodes per `>` byte scanned |
| `ScannerFacts.ParseIsShell` | src/html.rs:181-199 | the result has no doctype, root `html` with children `head` and `body`, and `head` empty |
| `ScannerFacts.ParseFlushesSpan` | src/html.rs:271-287 | the returned `body` is the final state's body followed by the pending text span exactly when that span is not empty |
| `ScannerFacts.ParseKeepsEveryPair` | src/html.rs:221-256 | every `>` closing an open tag after a non-empty text span leaves its text and its element, named by the captured name or else by `from_n` up to that `>`, in the returned `body`, after everything pushed before it |
| `ScannerFacts.ParseBodyShape` | src/html.rs:228-287 | `body` is text, element, text, element, and so on: pairs plus at most one trailing text, with every text a slice that ends before a `<` and starts at 0 or a `>`, every element with a captured name and no attributes or children, and the texts in input order without overlap |
| `ScannerFacts.ParseInRange` | src/html.rs:211-280 | every slice in the returned document lies within the input |
| `ScannerFacts.ParseEmitsNoEmptyNode` | src/html.rs:228-280 | no empty text, no empty element name, no `Script` or `Style`, and every element has no attributes and no children |
| `ScannerFacts.ParseTextsDelimited` | src/html.rs:217-253 | every text stops just before a `<`, and no `<` lies between one text's end and the next text's start, nor after the end of the last text: each text ends at the last `<` before the following text or before the end of the input; every text after the first begins with a `>` |
| `ScannerFacts.NoCloseNoElement` | src/html.rs:221-222 | an input without `>` yields no element and at most one (flushed) text |
| `ScannerFacts.ParseRendering` | src/html.rs:14-51 | rendering any scan result gives `<html><head></head><body>`, then the body's children rendered, then `</body></html>` |
| `ScannerFacts.CloseRendersTextThenElement` | src/html.rs:221-256 | a `>` closing an open tag with a non-empty text span adds, to the rendering of `body`, the input bytes `from..to` followed by `<name></name>`; every other byte leaves `body` unchanged |
| `ScannerFacts.BodyInRange` | src/html.rs:237-244 | a body of scanner-shaped nodes has every slice within the input |
| `TextStarts.ScanCloses` | src/html.rs:217-257 | in every reachable state `from` is 0 or the last `>` that closed a tag, no closing `>` comes after it, every pushed text starts at 0 or a closing `>`, and consecutive texts start at consecutive closing `>`s |
| `TextStarts.TextsCloseFree` | src/html.rs:237-253 | no closing `>` lies inside a pushed text |
| `TextStarts.ParseTextStarts` | src/html.rs:228-287 | in the returned document every text starts at the input's start or at a `>` that closed a tag, each next text starts at the first closing `>` after the start of the text before it, no closing `>` lies inside a text, and none lies after the start of a trailing text |
| `Format.RenderChildrenAppend` | src/html.rs:31-33 | rendering siblings distributes over concatenation of the sibling lists |
| `Format.RawTextRendersNothing` | src/html.rs:40 | `Script` and `Style` children contribute no bytes |
| `Format.EmptyElementRendering` | src/html.rs:22-35 | an element with no attributes and no children renders as `<name></name>` |
| `Format.PairRendering` | src/html.rs:22-39 | appending a text and an empty element to siblings appends the text verbatim and then `<name></name>` |
| `Format.ShellRendering` | src/html.rs:14-51 | the shell renders as `<html><head></head><body>` + body children + `</body></html>` |
| `Format.DoctypePrefix` | src/html.rs:44-48 | a doctype only prefixes `<!DOCTYPE v>` to the rendering of the same document without one |
| `Traces.OpenCloseTrace` | src/html.rs:201-269 | `<os></os>` yields body `[Text(">"), Tag "os"]` |
| `Traces.SpaceAfterOpenTrace` | src/html.rs:207-214 | `< os></os>` yields body `[Text("< os>"), Tag "os"]` |
| `Traces.SpaceAfterNameTrace` | src/html.rs:209-211 | `<os ></os>` yields the same bytes as `<os></os>`: `[Text(">"), Tag "os"]` |
| `Traces.TrailingTextDropped` | src/html.rs:271-287 | `<a>xyz` yields an empty body |
| `Traces.UnclosedTagFlushesText` | src/html.rs:271-280 | `a<b` yields only the flushed text `a` |
| `Traces.StickyNameTrace` | src/html.rs:223-226 | `<a>x<b>` yields `[Text(">x"), Tag "a"]`: the second element reuses the first name |
| `Traces.EmptyTagNameTrace` | src/html.rs:223-226 | `<>a<b>` yields `[Text(">a"), Tag "<"]` |
| `Traces.StrayCloseInTextTrace` | src/html.rs:221-256 | `a<b>c>d<e>` yields `[Text("a"), Tag "b", Text(">c>d"), Tag "b"]`: the `>` read with no tag open stays inside the second text |
| `Traces.OpenCloseRendering` | src/html.rs:14-51 | rendering the scan of `<os></os>` gives `<html><head></head><body>><os></os></body></html>` |
| `Traces.OpenCloseBodyRendering` | src/html.rs:22-39 | the body of `<os></os>` renders as `><os></os>` |
| `Traces.OsElementBytes` | src/html.rs:22-35 | `>` followed by the empty element `os` is the byte string `><os></os>` |

`Step`, `Scan`, `Parse`, `Render`, `RenderChildren`, `RenderAttrs`, `FixedFormat`, the flag
getters `GetBit`, `GetOpenTag`, `GetNameIssued` and `GetInsideQuote`, and `Shell`, `IsEmpty`,
`IsSpace`, `Resolve` and `BodyOf` are the definitions the rows above are stated about. They model,
in that order, src/html.rs:204-267, 201-269, 157-290, 15-42, 31-33, 23-28, 14-51, 114-140, 181-199
(the fixed document), 223 (`tag_name.is_empty()`), 207 (the whitespace arm), 238 (the borrow
`&b[from..to]`, a `Str` standing for those input bytes) and 233-235 and 276-278 (`children[1]`,
the `body` element the scanner appends to).

## Left out

- UTF-8 checking by `str::from_utf8(..).unwrap()`: the input is a byte sequence and strings are
  index pairs into it, so decoding, and the abort on a slice that splits a character, are not modelled.
- `alloc::format!` and `String` building: modelled as concatenation of byte sequences.
- Lifetimes and borrowing: replaced by index pairs into the input, which the serializer resolves
  against that input.
- `from_q`/`to_q`, `text_builder` and the commented-out `tree_pos`/`temp_attrs`: the scanner
  never reads them.
- `get_end_tag`, `set_end_tag` and `set_inside_quote`: the scanner never calls them. The quote bit
  is modelled only as the gate it feeds, which stays open.
- The commented-out `Debug` implementation: dead code.
- `src/tests.rs`: its assertions read a `roots` field that `HtmlDoc` does not have.
- `Flags.Bit`: requires `bit < 8`. `1 << bit` on a `u8` overflows for larger bits, and every call
  in the source passes 0, 1 or 7.
- `Flags.WithBit`: requires `bit < 8`, for the same reason.
