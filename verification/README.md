# Tiktokenizer core, modelled in Dafny

Tiktokenizer is a web page that shows how a byte-pair-encoding tokenizer
splits a text into tokens and estimates the cost of the prompt. This project
models the three pure cores of that page and proves properties about them.

- **Token/segment aligner** (`aligner.dfy`, module `Aligner`). It takes the
  token ids of the text and a per-id `decode`, which is left uninterpreted. It
  builds the two index-aligned lists handed to the viewer: `encoding` (ids)
  and `segments` (texts). Ids of 900000 and above are placeholders. A
  placeholder's text is followed by the decoded text of the next original
  element. Every element whose original predecessor is a placeholder is
  dropped from both lists by the same index predicate.
- **Token viewer helpers**:
  - `whitespace.dfy` (module `Whitespace`): the whitespace encoder. It is a
    generic left-to-right, non-overlapping `ReplaceAll`, composed in the
    order of the source.
  - `pricing.dfy` (module `Pricing`): the three rate tables and the cost,
    credit and token-budget formulas, in exact `real` arithmetic.
  - `token_view.dfy` (module `TokenView`): the token count, the palette
    slot of each unit in the segment view and the id view, the whitespace
    display flag, and the hover index that both views set.
- **Chat editor** (`chat_editor.dfy`, module `ChatEditor`). It builds the
  chat-markup prompt from the message rows, and models the add, delete and
  edit transitions of the row list.
- `seqs.dfy` (module `Seqs`): shared helpers. These are `Option`, filtering by
  an index mask (`Select`/`Positions`), `find`, `join`, `filter(Boolean)`,
  concatenation and character counts.

The model follows the code, including these behaviours:

- A placeholder in the last position gets the text `"undefined"` appended.
  The source reads `segments[idx + 1]` past the end inside a template
  literal.
- The drop test looks at the original predecessor. So in a run of
  consecutive placeholders only the first survives, and the text of the
  third element onward is lost. The one-hop, index-skipping reading of the
  merge is modelled as `Aligner.OneHop`. It is proved equal to the code when
  no two placeholders are adjacent, and shown to differ on
  `[900001, 900002, 5]`.
- Space and tab are replaced by `⋅` and `→` outright. The original
  character is not kept after the glyph, unlike the five control
  characters, which keep their place after an escape marker.

## Model

| member | source | states |
|---|---|---|
| `Aligner.MergedText` | src/pages/index.tsx:67-70 | A non-placeholder keeps its decoded text; a placeholder with a successor carries its text followed by the successor's; a placeholder in the last position carries its text followed by `"undefined"` |
| `Aligner.Align` | src/pages/index.tsx:55-72 | `encoding` and `segments` always have the same length, because both are filtered by one mask |
| `Aligner.AlignIsOrderPreservingSubsequence` | src/pages/index.tsx:63-71 | The output is the image of a strictly increasing list of original positions. Position j survives iff j = 0 or the original `tokens[j-1]` < 900000. Each surviving id is the original id, and each surviving text is the merged text at that position |
| `Aligner.FirstSurvives` | src/pages/index.tsx:63-65 | For non-empty input, position 0 always survives with its own id and merged text |
| `Aligner.NoPlaceholdersIsDecode` | src/pages/index.tsx:56-71 | With no id ≥ 900000, `encoding` is the input ids and `segments` is the element-wise decode, with the same order and length |
| `Aligner.PlaceholderAbsorbsSuccessor` | src/pages/index.tsx:64-71 | A surviving placeholder at i with a successor keeps its id, has text `decode(t[i]) + decode(t[i+1])`, and position i+1 is absent from both lists |
| `Aligner.TrailingPlaceholderGetsUndefined` | src/pages/index.tsx:68 | A surviving placeholder in the last position is the last output element, with text `decode(t[n-1]) + "undefined"` |
| `Aligner.AlignLength` | src/pages/index.tsx:63-65 | The output length is n minus the number of placeholders among positions 0..n-2 |
| `Aligner.PlaceholderNoteShown` | src/pages/index.tsx:124 | The note condition `find(i => i >= 900000)` is truthy iff some listed id is ≥ 900000, since a found id is never 0 |
| `Aligner.PlaceholderNoteIff` | src/pages/index.tsx:124 | The placeholder note is shown iff some surviving id is ≥ 900000, iff some placeholder sits at a kept position |
| `Aligner.OneHop` | src/pages/index.tsx:63-71 | The one-hop, index-skipping reading of the merge (one walk read over the ids and over the merged texts) yields lists of equal length |
| `Aligner.OneHopMatchesAlign` | src/pages/index.tsx:63-71 | When no two placeholders are adjacent, the code's filter equals the one-hop walk |
| `Aligner.ChainedPlaceholdersLoseText` | src/pages/index.tsx:64-71 | `[900001, 900002, 5]` yields ids `[900001]` and one segment `decode(900001) + decode(900002)`, whereas the one-hop walk would keep 5 |
| `Aligner.MergeExample` | src/pages/index.tsx:62-72 | `[100, 900001, 200, 300]` yields ids `[100, 900001, 300]` and texts `[d(100), d(900001)+d(200), d(300)]` |
| `Aligner.SegmentsPreserveText` | src/pages/index.tsx:56-71 | If placeholders are never adjacent and never last, the output segments concatenate to the concatenation of all decoded tokens |
| `Whitespace.ReplaceAll` | src/sections/TokenViewer.tsx:53-61 | Every character of the result comes from the input or from the replacement |
| `Whitespace.ReplaceAllOneChar` | src/sections/TokenViewer.tsx:53-60 | With a one-character pattern, `replaceAll` maps each character independently |
| `Whitespace.EncodeWhitespace` | src/sections/TokenViewer.tsx:50-64 | The encoded text contains no space and no tab, and every character in it comes from the input or is a glyph, a marker letter or a kept control character |
| `Whitespace.PlainTextUnchanged` | src/sections/TokenViewer.tsx:50-63 | A string free of the seven handled characters is returned unchanged |
| `Whitespace.EncodingKeepsControlCounts` | src/sections/TokenViewer.tsx:55-61 | The number of LF, CR, FF, BS and VT characters is the same before and after encoding |
| `Whitespace.SpaceBecomesDot` | src/sections/TokenViewer.tsx:53 | `" "` becomes `"⋅"` alone, without the space |
| `Whitespace.CrLfMarkedOnce` | src/sections/TokenViewer.tsx:59-61 | CR LF becomes `\r\n` followed by CR LF, so the marker appears once |
| `Whitespace.LoneCrMarked` | src/sections/TokenViewer.tsx:59-61 | A lone CR becomes `\r` followed by CR |
| `Whitespace.LoneLfMarked` | src/sections/TokenViewer.tsx:60-61 | A lone LF becomes `\n` followed by LF |
| `Whitespace.NotIdempotent` | src/sections/TokenViewer.tsx:50-63 | Encoding `"\n"` twice differs from encoding it once |
| `Pricing.Ceil` | src/sections/TokenViewer.tsx:141-143 | `Math.ceil` gives the least integer not below its argument |
| `Pricing.RateTablesAgree` | src/sections/TokenViewer.tsx:29-48 | The three tables have the same models, and tokens-per-credit times credits-per-token is exactly 1 for each |
| `Pricing.Cost` | src/sections/TokenViewer.tsx:79-98 | A cost exists iff the model is in the price table. It is never negative |
| `Pricing.CostExample` | src/sections/TokenViewer.tsx:32 | 2500 gpt-3.5-turbo tokens cost exactly 0.005 |
| `Pricing.CostIsAdditive` | src/sections/TokenViewer.tsx:97 | The cost of a + b tokens is the cost of a plus the cost of b |
| `Pricing.Credits` | src/sections/TokenViewer.tsx:116-119 | Credits exist iff the model is in the credit table. They are the least integer ≥ 1 and ≥ rate × tokens, so at least 1 even for 0 tokens |
| `Pricing.CreditsMonotone` | src/sections/TokenViewer.tsx:116-119 | Credits never decrease as the token count grows |
| `Pricing.BalanceFromInput` | src/sections/TokenViewer.tsx:133 | An unparsable (NaN) balance gives 0; a parsed number is kept, with 0 giving 0 |
| `Pricing.Budget` | src/sections/TokenViewer.tsx:141-143 | The budget exists iff the credit panel is shown. It is the least integer ≥ tokens-per-credit × balance |
| `Pricing.BudgetSign` | src/sections/TokenViewer.tsx:133-143 | An unparsable balance buys 0 tokens, a non-negative balance a non-negative budget, and a negative balance is not clamped (-1 credit of gpt-3.5-turbo gives -100) |
| `Pricing.BudgetInvertsCredits` | src/sections/TokenViewer.tsx:116-143 | For a balance p ≥ 1, the budget's tokens cost at least p credits, and one token fewer costs at most p |
| `TokenView.TokenCount` | src/sections/TokenViewer.tsx:77-78 | The token count is the number of ids the id view lists; no data counts 0 |
| `TokenView.TokenCountIsIdCount` | src/sections/TokenViewer.tsx:77-78 | The token count equals the number of ids the id view lists, and it adds up over concatenated data |
| `TokenView.IdViewShown` | src/sections/TokenViewer.tsx:180 | The id view is drawn iff there is data and some segment carries a token |
| `TokenView.SegmentColor` | src/sections/TokenViewer.tsx:159-163 | A segment is coloured iff nothing is hovered or it is the hovered one, and then with palette slot idx mod 19 |
| `TokenView.IdColor` | src/sections/TokenViewer.tsx:195-199 | A segment's ids are coloured iff that segment is hovered, with palette slot idx mod 19 |
| `TokenView.SegmentDisplay` | src/sections/TokenViewer.tsx:166-168 | A segment shown encoded holds no space or tab; otherwise its text is shown as is |
| `TokenView.HoverLockstep` | src/sections/TokenViewer.tsx:159-199 | While h is hovered, the segment view and the id view each colour exactly unit h, with the same palette slot h mod 19 |
| `TokenView.NoHoverDefaultBand` | src/sections/TokenViewer.tsx:159-163 | With nothing hovered, every segment gets slot idx mod 19 and no id is coloured |
| `TokenView.EncodedDisplayFollowsHover` | src/sections/TokenViewer.tsx:166-168 | A segment is shown whitespace-encoded iff the switch is on or it is the hovered unit |
| `TokenView.OnPointer` | src/sections/TokenViewer.tsx:157-194 | Entering a segment, or any token id of segment k, sets the hover to that segment; leaving clears it |
| `TokenView.EitherViewSelectsSameUnit` | src/sections/TokenViewer.tsx:154-199 | Entering unit k from either view gives the same hover value, and both views then highlight exactly k; leaving restores the default band |
| `ChatEditor.Header` | src/sections/ChatGPTEditor.tsx:37-39 | The header is the name for role "system-name" and the role otherwise; an empty name gives an empty header |
| `ChatEditor.Block` | src/sections/ChatGPTEditor.tsx:36-41 | A block opens with `<\|im_start\|>` and closes with `<\|im_end\|>` |
| `ChatEditor.BlockEndsWithMessage` | src/sections/ChatGPTEditor.tsx:39-41 | The row's message sits just before the closing tag |
| `ChatEditor.Blocks` | src/sections/ChatGPTEditor.tsx:34-42 | There is one block per row |
| `ChatEditor.Prompt` | src/sections/ChatGPTEditor.tsx:30-48 | With no rows the prompt is exactly `<\|im_start\|>assistant`, because `filter(Boolean)` drops the empty join. With rows it is the blocks joined by sep, then sep, then the assistant cue. sep is "\n" for gpt-3.5-turbo and "" otherwise |
| `ChatEditor.PromptIsBlocksInRowOrder` | src/sections/ChatGPTEditor.tsx:30-48 | The prompt is each row's block followed by the separator, in row order, then the assistant cue |
| `ChatEditor.NewRole` | src/sections/ChatGPTEditor.tsx:129-135 | The new role is one of system, user and assistant; it is "system" iff there are no rows, and "assistant" iff the last row is a user row |
| `ChatEditor.AddRow` | src/sections/ChatGPTEditor.tsx:128-137 | Adding appends exactly one row with an empty message and name and keeps the earlier rows. Its role is "system" if there were no rows, "assistant" after a user row, and "user" otherwise |
| `ChatEditor.AddedRolesAlternate` | src/sections/ChatGPTEditor.tsx:129-137 | Repeated adds from no rows give "system" and then alternating "user" and "assistant" |
| `ChatEditor.DeleteRow` | src/sections/ChatGPTEditor.tsx:114-118 | Deleting at i removes only row i and keeps the order of the rest; an index past the end changes nothing |
| `ChatEditor.DeleteUndoesAdd` | src/sections/ChatGPTEditor.tsx:113-118 | Deleting the row just added restores the list |
| `ChatEditor.SetRole` | src/sections/ChatGPTEditor.tsx:58-64 | Only the role of row i changes |
| `ChatEditor.SetName` | src/sections/ChatGPTEditor.tsx:84-90 | Only the name of row i changes |
| `ChatEditor.SetMessage` | src/sections/ChatGPTEditor.tsx:99-105 | Only the message of row i changes |
| `ChatEditor.EditTouchesOneBlock` | src/sections/ChatGPTEditor.tsx:99-105 | Editing row i's message changes only block i of the prompt, and restoring the old message restores the rows |

## Left out

- The tokenizer library (`encode`, `decode_single_token_bytes`, `encoding_for_model`, `get_encoding`) and `TextDecoder`'s UTF-8 replacement policy are foreign code. The decoded text of an id is the uninterpreted parameter `decode`.
- `getUserSelectedEncoder` and the `encoder.free()` lifecycle (src/pages/index.tsx:20-44, 97-100) wrap a foreign resource inside a React state updater.
- Token ids are unbounded naturals. The 32-bit width of the tokenizer's id array is not modelled, because ids stay far below it.
- The wiring between the page and the viewer is not modelled. The page passes `{encoding, segments}`, but the viewer declares an array of `{text, tokens}`, and each component is modelled against its own declared types.
- BigNumber arithmetic is replaced by exact rationals. In the source, `100/30` and `100/60` are rounded to 20 decimal places, half up, giving 3.33333333333333333333 and 1.66666666666666666667. Here they are the exact 10/3 and 5/3, so the product of exactly 1 that `Pricing.RateTablesAgree` states holds for these exact rationals, not for the rounded values. The float step `toNumber()` before `Math.ceil`, and the decimal string of `toFixed()`, are not modelled.
- `parseInt` is not modelled (prefix parsing, radix detection). Its result is taken as `Option<int>`, with `None` for NaN.
- Table lookups by inherited JavaScript object keys (such as `"constructor"`) are not modelled. Model names come from the tokenizer's model list.
- `Whitespace.ReplaceAll` requires a non-empty pattern, and it copies the replacement as is. JavaScript's behaviour for an empty pattern is not modelled, and replacement patterns (`$&`, `$$`, `` $` ``, `$'`) are not interpreted. The encoder never uses an empty pattern, and none of its replacements contains `$`.
- `ChatEditor.SetRole`, `ChatEditor.SetName` and `ChatEditor.SetMessage` treat rows as values: the source copies the array shallowly (`[...rows]`) and then assigns to `newRows[i]` in place, so row i of the previous state changes as well. Nothing the page draws reads the previous state, so the model builds a fresh row and leaves the old list untouched. `EditTouchesOneBlock`'s "restoring the old message restores the rows" relies on this value reading.
- `ChatEditor.SetRole`, `ChatEditor.SetName` and `ChatEditor.SetMessage` require the row index to be in range. An out-of-range index would make the source throw on `newRows[i]`, and the handlers exist only for rendered rows.
- React hooks and effects (`useState`, `useEffect`, `useRef` change propagation) are not modelled. Neither are JSX layout, CSS classes other than palette slots, the `isFetching` opacity, the show-more and whitespace toggles, links and the footer.
