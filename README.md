# Mat frame reassembly, modelled in Dafny

This project models the one stateful piece of the YogiFi mat data explorer:
the BLE notification callback `notification_handler` in `app.py`. The mat
streams pressure samples as text in notifications of any size. The handler
decodes each payload as UTF-8 and extracts every decimal number
(`extract_integers`). It appends the numbers to a module-global buffer
`accumulated_data`. Once 60 x 22 = 1320 samples are buffered, it cuts the
first 1320 as a frame and computes two threshold counts and the ten largest
values. It shows these, resets the buffer and reshapes the frame into a
60 x 22 grid for the heatmap. Every exception is swallowed.

Modules, one per component:

- `Options` (Options.dfy): the `Option` datatype.
- `Utf8` (Utf8.dfy): strict UTF-8 decoding of a payload (`bytes.decode('utf-8')`, app.py:116), with an encoder as its inverse.
- `Tokens` (Tokens.dfy): `extract_integers` as the maximal runs of ASCII digits, each read in base 10, with decimal rendering as its inverse.
- `Frame` (Frame.dfy): the constants `ROWS`/`COLS`, the threshold counts, `sorted(..., reverse=True)[:10]`, and the row-major reshape with its inverse, flattening.
- `Handler` (Handler.dfy): the buffer's three states and one callback as a pure step (`Step`). A stream of callbacks is `Run`. The class `Session` holds the buffer as a field, and its method `Notify` performs the callback imperatively, proved equal to `Step`.

## Behaviour kept as written

- **The "> 80" count tests `> 135`.** The second count is labelled "> 80" (app.py:132) but tests `x > 135` (app.py:125). The model keeps this: `CountLabelledAbove80` equals `CountAbove135`. `LabelledAbove80Differs` shows a frame where the displayed number differs from the real count above 80.
- **The buffer has three states.** Until the first notification whose payload decodes, the name is not bound, and app.py:117-118 then binds it to `[]`. After a frame, app.py:140 binds it to `None`. From then on the lazy creation never fires again. Every later payload that decodes makes `None.extend` raise (one that does not decode raises earlier, at app.py:116), and the error is swallowed. So `Poisoned` is absorbing (`PoisonedStays`), and at most one frame is ever reported (`AtMostOneFrame`). One might expect the buffer to be emptied after a frame and accumulation to go on; the code binds it to `None` instead, and the model follows the code.
- **A panel failure skips the reset.** The Streamlit calls that show the statistics (app.py:128-138) run between the cut and the reset. A callback's `panelShown` input says whether they complete. When they raise, the reset never runs and the oversized list stays in place. The next decodable notification then cuts the same frame again (`PanelFailureRepeatsFrame`).
- **Extra samples are dropped.** Samples beyond the first 1320 of the notification that completes a frame are discarded (`FirstFrame`).
- **Numbers are extracted per payload.** A number split across two notifications becomes two numbers. `SplitPayloads` proves that two payloads yield the numbers of their joined text exactly when the split does not fall inside a number. At the level of numbers, arrival chunking is irrelevant: a whole stream is determined by the concatenation of its numbers (`RunClosedForm`, `ChunkingIrrelevant`).

## Model

| member | source | states |
|---|---|---|
| `Utf8.Decode` | app.py:116 | the strict UTF-8 decoder of `bytes.decode('utf-8')`; a decoded text is never longer than its bytes; the round trips and rejections are stated by `DecodeEncode`, `EncodeDecode`, `DecodeAscii` and `DecodeRejectsInvalidByte` |
| `Utf8.DecodeEncode` | app.py:116 | strict UTF-8 decoding gives back every text from its encoding |
| `Utf8.EncodeCharOfDecodeFirst` | app.py:116 | the bytes of one decoded scalar value are exactly its encoding: no overlong form, surrogate or value above U+10FFFF is accepted |
| `Utf8.EncodeDecode` | app.py:116 | a payload that decodes is exactly the encoding of its text; with `DecodeEncode`, decoding and encoding are inverse to each other |
| `Utf8.DecodeAscii` | app.py:116 | a payload of ASCII bytes always decodes, one character per byte, with the same code |
| `Utf8.DecodeRejectsInvalidByte` | app.py:116 | a byte C0, C1 or F5-FF anywhere in the payload makes decoding fail |
| `Tokens.Value` | app.py:70 | `int` of a digit string of length k is a natural number below 10^k |
| `Tokens.DigitPrefix` | app.py:70 | the greedy `\d+` match at the start of a text: all digits, and the character after it (if any) is not a digit |
| `Tokens.Runs` | app.py:70 | every match of `\d+` is a non-empty string of digits |
| `Tokens.RunsCoverDigits` | app.py:70 | the matches, laid end to end, are exactly the digits of the text in order: none lost, repeated or reordered |
| `Tokens.RunsAppend` | app.py:70 | joining two texts at a boundary outside a digit run joins their matches |
| `Tokens.RunsMerge` | app.py:70 | joining two texts inside a digit run gives one match fewer than the two texts have |
| `Tokens.ExtractIntegers` | app.py:69-70 | `extract_integers`: at most one integer per character of the text; what the integers are is stated by `ExtractIsRunValues`, `ExtractAppend`, `ExtractNoDigits`, `ExtractJoin` and `ExtractExample` |
| `Tokens.ExtractAppend` | app.py:69-70 | extraction distributes over joining two texts if and only if the boundary does not cut a number |
| `Tokens.ExtractNoDigits` | app.py:69-70 | a text with no digits yields `[]` |
| `Tokens.ExtractIsRunValues` | app.py:69-70 | the result has one integer per maximal digit run, the value of that run, and the runs hold every digit in order |
| `Tokens.ValueLeadingZero` | app.py:70 | leading zeros do not change a value |
| `Tokens.Decimal` | app.py:70 | the canonical decimal text of n is a non-empty digit string whose value is n |
| `Tokens.ExtractJoin` | app.py:69-70 | round trip: integers written in decimal with any non-empty, digit-free separator are extracted back unchanged |
| `Tokens.ExtractExample` | app.py:69-70 | "12ab,034 -7" yields [12, 34, 7]: no sign, no leading zero |
| `Frame.CountAbove135` | app.py:124 | `count_greater_than_135`: never more than the frame's length; the `CountAbove` lemmas below state the rest |
| `Frame.CountLabelledAbove80` | app.py:125 | `count_greater_than_80` as written: it equals `CountAbove135` and is at most the count above 80; `LabelledAbove80Differs` shows a frame where the two differ |
| `Frame.CountAboveAppend` | app.py:124 | the count of values above t adds up over concatenation |
| `Frame.CountAboveExtremes` | app.py:124-125 | the count is 0 if and only if no value exceeds t, and equals the length of s if and only if every value does |
| `Frame.CountAboveAntitone` | app.py:124-125 | a higher threshold never counts more |
| `Frame.CountAbovePermutation` | app.py:124 | the count depends only on the values, not on their order |
| `Frame.LabelledAbove80Differs` | app.py:125-132 | the count shown as "> 80" always equals the count above 135, and it differs from the true count above 80 on a frame of 100s (0 against 1320) |
| `Frame.Insert` | app.py:126 | inserting into a non-increasing list keeps it non-increasing and adds exactly that value |
| `Frame.SortDescending` | app.py:126 | `sorted(reverse=True)` is non-increasing and a permutation of its input |
| `Frame.SortedUnique` | app.py:126 | two non-increasing lists with the same values are equal, so the descending sort is determined by the values alone |
| `Frame.Top10` | app.py:126 | the top-10 list has length min(10, len(frame)), is non-increasing and a sub-multiset of the frame, and every value left out is at most its tenth value |
| `Frame.RampStats` | app.py:124-126 | for the frame 0..1319, 1184 values are above 135 and the top ten are 1319 down to 1310 |
| `Frame.Reshape` | app.py:141 | the 60 x 22 grid puts flat index i at row i / 22, column i % 22 |
| `Frame.FlattenAt` | app.py:141 | flattening rows of width 22 puts cell (r, c) at index 22r + c |
| `Frame.FlattenReshape` | app.py:141 | flattening the reshaped frame row by row gives back the frame |
| `Frame.ReshapeFlatten` | app.py:141 | reshaping a flattened 60 x 22 grid gives back the grid |
| `Handler.ReportOf` | app.py:121-141 | a frame's report keeps the frame; both counts are the count above 135; its top ten is `Top10` of the frame (ten values with `Top10`'s four properties); its 60 x 22 grid flattens back to the frame |
| `Handler.PayloadTokens` | app.py:116-119 | there are no integers exactly when the payload is not UTF-8, and never more integers than payload bytes; the text they come from is stated by `ReceivedText`, `SplitPayloads` and, with `Utf8.Decode`'s lemmas, `UndecodableIgnored` |
| `Handler.Step` | app.py:112-156 | one callback on the buffer: a report comes out exactly when the buffer turns from samples to `None`, and it holds 1320 samples; once `None`, the buffer stays; the growth and cut are stated by `Session.Notify` and the stream lemmas below |
| `Handler.Run` | app.py:112-156 | callbacks in arrival order: a `None` buffer yields nothing and stays, and there are never more reports than callbacks; the closed form is stated by `RunClosedForm`, `FirstFrame`, `PoisonedStays`, `AtMostOneFrame` and `ChunkingIrrelevant` |
| `Handler.Session.constructor` | app.py:117-118 | before the first notification the buffer is absent |
| `Handler.Session.Notify` | app.py:112-156 | one callback changes the buffer and reports a frame exactly as `Step` says: decode failure leaves everything unchanged, `None` swallows the callback, a short buffer grows, and a full buffer cuts its first 1320 values and is reset to `None` only when the panel completes |
| `Handler.PoisonedStays` | app.py:117-156 | once the buffer is `None`, every later notification leaves it `None` and reports nothing |
| `Handler.RunBelowFrame` | app.py:116-120 | below 1320 samples, notifications report nothing and the buffer holds the integers of the decodable payloads, appended in arrival order |
| `Handler.RunClosedForm` | app.py:116-156 | from a buffer below 1320 samples, a stream either reports nothing and leaves all its integers buffered, or (when its panels complete) reports one frame, the first 1320 integers received, and leaves the buffer `None` |
| `Handler.ChunkingIrrelevant` | app.py:119-140 | two streams that carry the same integers, however split into payloads, report the same frames and leave the same samples; below 1320 samples for any panel outcome, beyond it when every panel completes |
| `Handler.FrameOfStream` | app.py:119-140 | the notification that first reaches 1320 samples reports the first 1320 samples received and leaves the buffer `None` |
| `Handler.FirstFrame` | app.py:119-156 | that frame is the only one the whole stream reports; extra samples are dropped; when exactly 1320 arrived, the frame is all of them |
| `Handler.AtMostOneFrame` | app.py:117-156 | from any buffer state, a stream reports at most one frame |
| `Handler.UndecodableIgnored` | app.py:116-156 | a stream behaves as the stream of its decodable payloads alone |
| `Handler.PanelFailureRepeatsFrame` | app.py:120-140 | when the panel raises, the oversized buffer stays, and the next decodable notification cuts the same frame again |
| `Handler.ReceivedText` | app.py:116-119 | a payload that is the UTF-8 encoding of a text contributes exactly that text's integers |
| `Handler.SplitPayloads` | app.py:116-119 | two payloads yield the integers of their joined text if and only if the boundary does not cut a number |

## Left out

- BLE discovery, connection, service discovery, the start command and notification subscription (app.py:23-67): transport I/O over a library that is not part of this model, plus timing with `asyncio.sleep`.
- `make_rest_api_call` (app.py:72-110): a network client, and its only call is commented out (app.py:122).
- Streamlit output (app.py:128-138): reduced to one input, `panelShown`, that says whether these calls complete. The text they display is not modelled.
- Heatmap rendering and the download button (app.py:142-152, 159-178): matplotlib and Streamlit calls. They run after the reset, so they cannot change the buffer.
- `main` (app.py:180-214): page layout and buttons.
- Unicode digits: Python's `\d` and `int` also accept non-ASCII decimal digits. The model reads only ASCII '0'..'9' as digits and treats every other character as a separator.
- Callback delivery: notifications are processed one at a time, in arrival order. Concurrency and what a rerun of the Streamlit script does to module globals are not modelled.
- Tokens.ExtractIntegers: does not model CPython's limit on converting long digit strings. On CPython 3.11 and later (and the 3.10.7 and 3.9.14 backports), `int()` raises `ValueError` for a run of more than 4300 digits. app.py:155 then swallows it, so that payload adds no integers, though an absent buffer still becomes `[]` at app.py:118. The model reads runs of any length, and `Tokens.Value` and `Tokens.ExtractJoin` hold for values of any size. The limit depends on the interpreter version, and one BLE attribute value holds at most 512 bytes, so such a run cannot arrive in one payload.
- Handler.ChunkingIrrelevant: beyond 1320 samples it requires every statistics panel to complete. Whether a frame is reported then depends on which callback's panel raised, which has no counterpart across different splits. `PanelFailureRepeatsFrame` covers that case.
- Which exception is raised: `RuntimeError` and every other exception are swallowed the same way (app.py:153-156). The model keeps only the effect on the buffer.
