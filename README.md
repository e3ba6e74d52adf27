# Token highlighter — a Dafny model

This project models the token-highlighting engine of a small web front end.
The user types C code. A compiler service returns the compile output and a
list of lexical tokens, each with a type (field `token`), a value and
`start`/`end` offsets into the code. The front end then renders a preview of
the code in which every token is a clickable span. Two dropdowns list the
token types and the values of the selected type. Every span whose token
matches the current selection is highlighted.

The model covers these parts:

- `Model` (`model.dfy`): the token and selection records. It also holds the
  two pieces of JavaScript semantics the engine depends on. The first is
  truthiness of a string-or-null field, where `null` and `""` are false. The
  second is `String.prototype.slice`, where a negative index counts from the
  end and indices are clamped into the string.
- `Highlight` (`highlight.dfy`): the highlight test and the three selection
  transitions: choosing a type, choosing a value, clicking a token.
- `Segments` (`segments.dfy`): `renderCode`. `RenderCode` is a method with a
  loop over the tokens that appends to `elements` and moves the cursor
  `last`, as the source does. It is proved equal to the function `Render`.
  All properties of the preview are proved about `Render`: reconstruction of
  the code, one span per token, where gaps go, the highlight condition,
  clicking, and the duplicated text that overlapping tokens produce.
- `Dropdowns` (`dropdowns.dfy`): `Array.from(new Set(...))` as `Dedup`,
  and the two option lists `TokenTypes` and `ValuesForType`.
- `App` (`app.dfy`): the component state and the handlers that replace the
  code (`handleCodeChange`) and the token list (`handleCompile`).

Points where the source's behaviour is easy to misread:

- The source has no clamp or skip for overlapping or out-of-order tokens.
  When a token starts before the cursor (the previous token's end), no gap
  is emitted and the text from the token's start to the cursor is emitted
  a second time. `ReconstructionIff` proves that, for tokens inside the
  code, the preview equals the code exactly when the tokens are sorted and
  non-overlapping (each starts no earlier than the previous one ends).
  Otherwise the preview is strictly longer than the code.
- A failed compile does not reset the selection; `handleCompile` only sets
  the output and empties the token list (`App.Compile`).
- With no tokens, `renderCode` returns the code itself rather than a list
  of segments (`Rendering.Whole`).
- A value that is selected but empty (`""`) highlights nothing, because
  the source tests the value's truthiness. An empty selected type matches
  every type.

## Model

| member | source | states |
|---|---|---|
| `Model.Slice` | src/App.js:67 | for non-negative indices: `code.slice(a, b)` with `a <= b <= |code|` is exactly `code[a..b]`; with `0 <= b <= a` it is empty; with `a <= |code| <= b` it is `code[a..]`; with `a >= |code|` it is empty; never longer than the code |
| `Highlight.HighlightedIff` | src/App.js:57-58 | a token is highlighted iff its value is non-empty and equals the selected value, and the selected type is null, empty or the token's type |
| `Highlight.ChooseType` | src/App.js:39-42 | choosing a type sets that type and clears the value, so no token is highlighted |
| `Highlight.ChooseValue` | src/App.js:43-46 | choosing a value keeps the selected type and replaces only the value; the highlighted tokens are then those with that (non-empty) value and, if a type is selected, that type |
| `Highlight.Click` | src/App.js:63-65 | clicking a token selects exactly its type and value, whatever was selected; the clicked token is highlighted when its value is non-empty, and only tokens with its value (and type, unless empty) are |
| `Highlight.ClickHighlightsSamePair` | src/App.js:57-65 | after clicking a token with non-empty type and value, a token is highlighted iff it has that same type and value |
| `Highlight.NoValueNoHighlight` | src/App.js:58 | with no selected value (null or empty) nothing is highlighted |
| `Segments.RenderCode` | src/App.js:49-74 | the loop with cursor `last` builds exactly `Render(code, tokens, sel)`; with no tokens it returns the code unchanged |
| `Segments.EmptyTokensShowCode` | src/App.js:50 | with an empty token list the preview is the code itself |
| `Segments.Reconstruction` | src/App.js:51-73 | when every token has `0 <= start <= end <= |code|` and each starts no earlier than the previous one ends, the pieces' texts concatenate to the code |
| `Segments.ReconstructionIff` | src/App.js:53-72 | for tokens inside the code, the preview equals the code iff the tokens are sorted and non-overlapping (no token starts before the previous one ends); otherwise the preview is strictly longer |
| `Segments.OverlapDuplicatesText` | src/App.js:54-70 | tokens [0,5) and [3,8) on "abcdefgh" render as "abcdedefgh": the overlap is shown twice |
| `Segments.SpanPerToken` | src/App.js:53-71 | for any token list there is exactly one clickable span per token, in list order, holding `code.slice(start, end)`, the token's type and value, and its highlight flag |
| `Segments.SpanHighlightIff` | src/App.js:57-62 | the i-th span is highlighted iff the i-th token's value is non-empty and selected and the selected type is absent, empty or the token's type |
| `Segments.PlainPieces` | src/App.js:53-72 | plain pieces are never adjacent (a gap is always followed by a span, only the remainder ends the list), and when all tokens lie inside the code no plain piece is empty |
| `Segments.GapPlacement` | src/App.js:53-70 | the pieces of the i-th token follow the previous span directly; they are `Plain(code.slice(prevEnd, start))` then the span when the token starts after the previous token's end (0 for the first token), and the span alone otherwise |
| `Segments.TrailingRest` | src/App.js:72 | after the last span comes exactly `Plain(code.slice(lastEnd))` when the last token ends before the end of the code, and nothing otherwise |
| `Segments.SelectionOnlyRecolours` | src/App.js:53-70 | two selections give the same pieces, texts, types and values; only highlight flags may differ |
| `Segments.Activate` | src/App.js:59-68 | clicking a span selects the span's type and value; clicking bare text changes nothing |
| `Segments.ClickSpan` | src/App.js:57-65 | clicking the i-th span equals the i-th token's click handler whatever was selected, and afterwards exactly the spans with the same type and value are highlighted |
| `Segments.ScenarioIntX` | src/App.js:49-74 | "int x=1;" with KEYWORD int [0,3) and IDENT x [4,5) renders as span "int", " ", span "x", "=1;"; selecting IDENT/x highlights only "x" |
| `Dropdowns.Dedup` | src/App.js:33 | `Array.from(new Set(xs))` has no duplicates and holds exactly the elements of xs |
| `Dropdowns.DedupFirstSeen` | src/App.js:33 | `Array.from(new Set(xs))` lists elements in the order of their first occurrence in xs |
| `Dropdowns.TokenTypesSpec` | src/App.js:33 | the type options have no duplicates, are exactly the types of the tokens, and are ordered by each type's first token |
| `Dropdowns.ValuesOfMembers` | src/App.js:35 | the filtered values hold v iff some token of the selected type carries v |
| `Dropdowns.ValuesForTypeSpec` | src/App.js:34-36 | the value options are empty while no type (null or "") is selected; otherwise they are the distinct values of the tokens of that type, ordered by the first token with that type and value |
| `App.ErrorText` | src/App.js:18 | the error output is "Error: " followed by the server's non-empty `error` field, or else the transport's message |
| `App.CodeChange` | src/App.js:23-27 | an edit stores the new code and clears the output, the token list and the selection |
| `App.EditResets` | src/App.js:23-36 | after any edit the preview is the new code, both dropdowns are empty, the output is "" and the selection is null/null |
| `App.InitialState` | src/App.js:5-8 | the initial state shows an empty preview and output, both dropdowns empty and a null/null selection |
| `App.Compile` | src/App.js:10-21 | compiling keeps the code and the selection; success of both requests shows the output and stores the tokens; a failure of either shows the error text and empties the token list |
| `App.CompileFailureShowsCode` | src/App.js:17-19 | after a failed request the preview is the code, the output starts with "Error: ", and there is no type to choose |
| `App.DropdownAfterChoice` | src/App.js:34-46 | choosing a value leaves the value options unchanged; choosing a non-empty type lists that type's distinct values |

## Left out

- The requests to `/compile`, `/tokens` and `/reset-tokens` (src/App.js:12, 15, 29) are network I/O against a server that is not part of this model. `App.Compile` receives their outcomes as parameters. The reset request's effect on the server is not modelled.
- Ordering of asynchronous replies is not modelled. The source has no check for stale replies, so a late reply can overwrite tokens for newer code.
- React's state hooks, the JSX elements, styles, `key` props and the `<select>`/`<textarea>` wiring (src/App.js:60-68, 76-124) are not modelled. The dropdowns' displayed value (`selected.token || ''`) is one of these.
- Offsets are modelled as integers. The token list is not validated, so the source could receive non-integer or non-numeric offsets, which `slice` would convert first. Strings are modelled as sequences of characters, whereas JavaScript indexes UTF-16 code units.
- Re-rendering with the same arguments gives the same result. This holds trivially because `Render` is a function, so no lemma states it.
- `Model.Slice`: its contract pins the result only for non-negative indices (including indices past the end of the code). Negative indices, which count from the end, are defined in the body through `SliceIndex` and not restated in `Slice`'s contract.
