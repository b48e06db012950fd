# TradingView websocket framing, modelled in Dafny

This project models the wire framing layer of TradingView-API, the file
`src/protocol.js`. It has two operations:

- `parseWSPacket(str)` turns one raw websocket chunk into the packets it
  carries. It deletes every `~h~` heartbeat marker with one global
  `replace`. It then splits the rest on the delimiter pattern
  `~m~[0-9]{1,}~m~`, and JSON-parses each non-empty piece inside a
  `try`. Last, it filters out every falsy result.
- `formatWSPacket(packet)` wraps one packet into a frame
  `~m~<length>~m~<message>`. The message is `JSON.stringify(packet)`
  when `typeof packet === 'object'`, and the string itself otherwise.

The source is pure: an expression chain and a template string. So the
model is made of datatypes, functions and lemmas, with no mutable state.
The two regular expressions become explicit scanners over `seq<char>`:

- `Heartbeat.Strip` is one left-to-right pass that deletes leftmost,
  non-overlapping markers.
- `Splitter.MatchAt` anchors the delimiter pattern at one index, with a
  greedy digit run.
- `Splitter.FirstMatch` finds the leftmost match.
- `Splitter.SplitFrom` cuts at successive leftmost matches and keeps the
  matched delimiters aside.

`JSON.parse` and `JSON.stringify` are parameters of the model. A `Parser`
returns `None` where `JSON.parse` would throw, and a `Serializer` stands
for `JSON.stringify`. Every property therefore holds for any JSON codec.
JSON values (`Json.Value`) keep numbers only as a zero / non-zero flag,
because only truthiness is ever observed (`src/protocol.js:44`).

Files and modules:

- `json.dfy` (module `Json`): values, truthiness, and the parser and
  serialiser types.
- `decimal.dfy` (module `Decimal`): digits, and the rendering of
  `msg.length` in the template string.
- `heartbeat.dfy` (module `Heartbeat`): the `~h~` stripper.
- `splitter.dfy` (module `Splitter`): the delimiter scanner and `split`.
- `protocol.dfy` (module `Protocol`): `parseWSPacket`, `formatWSPacket`
  and the round trips between them.

Where the code is more specific than a plain reading of the protocol, the
model follows the code:

- The split of a frame yields an empty piece before the header, which is
  then dropped by the empty-piece check. So tokenizing one frame gives
  `["", payload]`, not `[payload]`.
- The declared length in a header is never compared with the payload.
- Heartbeats are stripped before the split, so stripping can join or
  break delimiters.

## Model

| member | source | states |
|---|---|---|
| Json.Truthy | src/protocol.js:44 | the truthiness test of `.filter((p) => p)`: a JSON value is falsy exactly when it is `null`, `false`, `0` or `""` |
| Decimal.Render | src/protocol.js:63 | `${msg.length}` renders a non-negative length as a canonical numeral (non-empty, digits only, no leading zero) whose value is the length |
| Decimal.RenderValue | src/protocol.js:63 | rendering is the inverse of reading back any canonical numeral, so the numeral of a length is unique |
| Heartbeat.Strip | src/protocol.js:20 | `str.replace(cleanerRgx, '')`: one left-to-right pass deleting leftmost, non-overlapping `~h~`; the result is never longer than the input (its meaning is pinned down by the lemmas below) |
| Heartbeat.StripLength | src/protocol.js:20 | `replace(/~h~/g, '')` deletes whole three-character markers: the length drops by a multiple of three |
| Heartbeat.StripIsSubsequence | src/protocol.js:20 | stripping only deletes characters: the result is a subsequence of the input |
| Heartbeat.StripNoMarker | src/protocol.js:20 | a chunk without any `~h~` is returned unchanged |
| Heartbeat.StripShrinksMarker | src/protocol.js:20 | a chunk holding a `~h~` comes back strictly shorter |
| Heartbeat.StripIdentity | src/protocol.js:20 | the strip leaves a chunk unchanged if and only if it holds no marker (both directions) |
| Heartbeat.StripMarkers | src/protocol.js:20 | a chunk made of heartbeats only, including the empty chunk, strips to the empty string |
| Heartbeat.StripLeadingMarkers | src/protocol.js:20 | markers at the head of a chunk vanish without changing how the rest is stripped |
| Heartbeat.MarkerAtSeam | src/protocol.js:9 | behind a text that does not end in `~` or `~h`, no marker straddles the seam of a concatenation |
| Heartbeat.StripConcat | src/protocol.js:20 | stripping distributes over a concatenation whose seam no marker straddles |
| Heartbeat.StripTildeFreePrefix | src/protocol.js:20 | a `~`-free prefix passes through the strip untouched |
| Heartbeat.StripNotIdempotent | src/protocol.js:20 | the strip is a single pass and not idempotent: `~~h~h~` strips to `~h~`, which strips again to the empty string |
| Splitter.DelimShape | src/protocol.js:10 | the whole of a string matches `~m~[0-9]{1,}~m~` (`IsDelim`) exactly when it is `~m~`, a non-empty run of digits, `~m~` |
| Splitter.DigitRun | src/protocol.js:10 | the greedy `[0-9]{1,}` run from an index stays within the text and stops before a non-digit or at the end |
| Splitter.DigitRunMaximal | src/protocol.js:10 | `[0-9]{1,}` is greedy: the run is all digits and is followed by a non-digit or the end |
| Splitter.DigitRunUnique | src/protocol.js:10 | a maximal block of digits is the run, so the digit run at an index is unique |
| Splitter.MatchAt | src/protocol.js:10 | `splitterRgx` anchored at one index: a reported match is at least 7 characters long and lies within the text (MatchAtIffDelim ties it to IsDelim) |
| Splitter.MatchAtIsDelim | src/protocol.js:10 | every match the anchored scanner reports is a delimiter: `~m~`, one or more digits, `~m~` |
| Splitter.DelimIsMatchAt | src/protocol.js:10 | every delimiter in the text is reported by the anchored scanner with its whole length |
| Splitter.MatchAtIffDelim | src/protocol.js:10 | the scanner reports a match of length n at i if and only if `s[i..i+n]` is a delimiter |
| Splitter.MatchAtWithin | src/protocol.js:10 | a match inside a stretch of the text is a match of the whole text at the same place |
| Splitter.ShiftedMatchAt | src/protocol.js:10 | matching depends only on the text at and after the index: a suffix has the same matches, shifted |
| Splitter.FirstMatch | src/protocol.js:20 | the global scan of `.split`: a reported match starts at or after the scan position, is at least 7 long and lies within the text |
| Splitter.FirstMatchLeftmost | src/protocol.js:20 | the reported match is a match with no match before it, and no match is reported exactly when none exists |
| Splitter.FirstMatchSkip | src/protocol.js:20 | indices where no match starts can be skipped without changing the leftmost match |
| Splitter.FirstMatchAt | src/protocol.js:20 | a match with no match before it is the leftmost one |
| Splitter.ShiftedFirstMatch | src/protocol.js:20 | in a suffix the leftmost match is the same one, shifted |
| Splitter.SplitFrom | src/protocol.js:20 | the split has exactly one more piece than matched delimiters |
| Splitter.Split | src/protocol.js:20 | `cleaned.split(splitterRgx)` from the start: one more piece than matched delimiters |
| Splitter.SplitFromRebuilds | src/protocol.js:20 | from any index, the pieces interleaved with the matched delimiters rebuild the rest of the text |
| Splitter.SplitRebuilds | src/protocol.js:20 | the pieces interleaved with the matched delimiters rebuild the cleaned chunk exactly: nothing is lost or added |
| Splitter.StretchDelimFree | src/protocol.js:20 | a stretch in which no match starts holds no delimiter on its own |
| Splitter.SplitFromPiecesDelimFree | src/protocol.js:20 | no piece of the split contains a delimiter match |
| Splitter.Tokenize | src/protocol.js:20 | the pieces of a cleaned chunk: at least one, and none contains a delimiter |
| Splitter.SplitFromIsLeftmost | src/protocol.js:20 | the split is a leftmost-first reading: each piece runs up to the first delimiter after it |
| Splitter.LeftmostSplitUnique | src/protocol.js:20 | a leftmost-first reading of the text is the split: there is only one |
| Splitter.SplitIffLeftmost | src/protocol.js:20 | the split is exactly the leftmost-first reading of the pattern (both directions) |
| Splitter.TokenizeSingle | src/protocol.js:20 | a cleaned chunk yields the single piece equal to itself if and only if it holds no delimiter |
| Splitter.TokenizeEmpty | src/protocol.js:20 | splitting the empty string gives one empty piece, since the pattern never matches nothing |
| Splitter.EmptyDigitsNoDelim | src/protocol.js:10 | `~m~~m~` is not a delimiter (the digit run must be non-empty), so it stays one piece |
| Splitter.ShiftedSplitFrom | src/protocol.js:20 | where a text sits at the end of a longer one, the split from there is the text's own split |
| Splitter.AppendSplitFrom | src/protocol.js:20 | behind a prefix, the split of the concatenation from any index of the rest is the split of the rest |
| Splitter.SplitBehindPrefix | src/protocol.js:20 | behind a prefix, the split of the concatenation is the split of the rest |
| Splitter.LeadingDelimFirst | src/protocol.js:20 | a delimiter at the head of a chunk is its leftmost match |
| Splitter.SplitLeadingDelim | src/protocol.js:20 | a chunk opening with a delimiter splits into an empty piece, then the split of the rest |
| Splitter.TildeFreeNoMatch | src/protocol.js:10 | no match starts inside a `~`-free prefix |
| Splitter.TildeFreeFirstMatch | src/protocol.js:20 | behind a `~`-free prefix the leftmost match is that of the rest, shifted |
| Splitter.TildeFreePrefixSplit | src/protocol.js:20 | a `~`-free prefix is glued to the first piece, and every other piece and delimiter is unchanged |
| Protocol.DecodePiece | src/protocol.js:21-43 | the map callback yields a truthy value if and only if the piece is non-empty and parses to a truthy value, and then it is that value; empty, unparsable and `null` pieces become `false` |
| Protocol.KeepTruthy | src/protocol.js:44 | `.filter((p) => p)` keeps exactly the truthy values, all of them and only them, and never grows the list |
| Protocol.DecodeAll | src/protocol.js:21-43 | the map runs the callback on every piece, position by position |
| Protocol.DecodeTokens | src/protocol.js:21-44 | map then filter: at most one packet per piece, every packet truthy |
| Protocol.ParseWSPacket | src/protocol.js:19-51 | parseWSPacket is total on strings: it returns truthy packets only, at most one per piece of the cleaned chunk |
| Protocol.KeepTruthyAppend | src/protocol.js:44 | the filter distributes over concatenation and keeps order |
| Protocol.DecodeTokensAppend | src/protocol.js:21-44 | the packets of concatenated pieces are those of each part, in order: no piece affects another |
| Protocol.DecodeOneToken | src/protocol.js:22-44 | one piece yields at most one packet; it yields `v` if and only if it is non-empty and parses to the truthy `v`, and nothing if and only if it accepts no value |
| Protocol.DecodeTokensMembers | src/protocol.js:21-44 | a value is in the output if and only if some piece is non-empty and parses to it, truthy |
| Protocol.DroppedTokenIsolated | src/protocol.js:39-44 | a piece that fails to parse, is empty or parses to a falsy value is dropped without removing or reordering any other packet |
| Protocol.DecodeTokensAllAccepted | src/protocol.js:21-44 | when every piece parses to a truthy value, the output is exactly those values, in order |
| Protocol.EmptyPiecesNotParsed | src/protocol.js:22 | empty pieces never reach the parser: parsers that agree on non-empty strings give the same packets for every chunk |
| Protocol.HeartbeatsOnly | src/protocol.js:19-51 | a chunk of heartbeats only, `""` and `~h~` included, yields no packet |
| Protocol.Utf16Length | src/protocol.js:63 | `msg.length` in UTF-16 code units: at least the character count and at most twice it |
| Protocol.Utf16LengthAppend | src/protocol.js:63 | the length of a concatenation is the sum of the lengths |
| Protocol.Utf16LengthBmp | src/protocol.js:63 | for text inside the Basic Multilingual Plane the length is the character count |
| Protocol.AstralLength | src/protocol.js:63 | an emoji outside the Basic Multilingual Plane is one character but declares length 2 in its frame |
| Protocol.NumeralDelim | src/protocol.js:10 | `~m~<digits>~m~` is a delimiter for every non-empty run of digits |
| Protocol.Header | src/protocol.js:63 | the frame header is a delimiter match whose digits are the canonical numeral of the declared length |
| Protocol.Frame | src/protocol.js:63 | reading the frame back gives the declared length, `msg.length` in UTF-16 code units, and after the header exactly `msg` |
| Protocol.FrameText | src/protocol.js:63 | the frame is spelled out exactly: `~m~`, the canonical decimal numeral of the UTF-16 length, `~m~`, then the payload |
| Protocol.FormatWSPacket | src/protocol.js:59-64 | a string is framed as it is and an object as its serialisation; either way the header declares the message's length in UTF-16 code units, and the message follows it |
| Protocol.StripAfterTag | src/protocol.js:20 | the heartbeat pass keeps a `~m~` tag unless a marker starts at its last `~` |
| Protocol.StripFrame | src/protocol.js:20 | a frame with a `~`-free payload holds no heartbeat marker and survives the strip unchanged |
| Protocol.TokenizeFrames | src/protocol.js:20 | back-to-back frames with `~`-free payloads split into an empty piece and then exactly the payloads, in order |
| Protocol.FrameRoundTrip | src/protocol.js:19-51 | a frame of a non-empty `~`-free payload that parses to a truthy value decodes to exactly that value |
| Protocol.FormatRoundTrip | src/protocol.js:59-64 | parseWSPacket returns exactly the object that formatWSPacket framed, when its serialisation is non-empty, `~`-free and parses back to it |
| Protocol.DeclaredLengthIgnored | src/protocol.js:10 | the declared length is never checked: any numeral in the header still yields the payload behind it |
| Protocol.TokenizeSingleTildeFree | src/protocol.js:20 | a `~`-free chunk is one piece, itself |
| Protocol.FrameClosedEnd | src/protocol.js:20 | a frame of a plain payload does not end in `~` or `~h`, so no marker straddles its end |
| Protocol.StripChunk | src/protocol.js:20 | heartbeats vanish from a chunk of plain frames wherever they stand, leaving the frames intact |
| Protocol.ChunkRoundTrip | src/protocol.js:19-51 | any mix of heartbeats and plain frames decodes to the packets of its payloads, in order, each as if decoded alone |
| Protocol.TwoFramesInOrder | src/protocol.js:19-51 | two good frames in one chunk give two packets, in order |
| Protocol.MalformedFrameDropped | src/protocol.js:39-44 | a frame whose payload fails to parse is dropped, and the good packets around it survive in order |
| Protocol.DecodeGoodBadGood | src/protocol.js:39-44 | a failing piece between two good ones is dropped, the two packets kept in order |
| Protocol.StripTag | src/protocol.js:20 | a lone `~m~` tag survives the heartbeat pass |
| Protocol.StripJoinsDigits | src/protocol.js:20 | stripping runs before splitting: a marker between two digit runs inside `~m~…~m~` is deleted and joins them into one delimiter |
| Protocol.StripCreatesDelimiter | src/protocol.js:20 | so `~m~<x>~h~<y>~m~` splits into two empty pieces and yields no packet |
| Protocol.PayloadStartingWithHeartbeatTail | src/protocol.js:20 | the no-`~` guard matters: a payload starting with `h~` loses that head, and the header its last `~`, since the header's `~` and `h~` read as a marker |

## Left out

- `parseCompressed` (`src/protocol.js:72-79`) is left out. It is an async wrapper over the JSZip library's base64 and zip decoding, a foreign library.
- The `console.log` / `console.warn` output is left out, together with the indicator-detection logging (`src/protocol.js:26-36`) and the `global.TW_DEBUG` report (`src/protocol.js:46-48`). They print only and do not change the result. The one effect kept is that a piece parsing to `null` throws at `parsed.m` and is dropped by the `catch`.
- The inside of `JSON.parse` and `JSON.stringify` is not modelled. They are parameters, so floating-point numbers and the JSON grammar are outside the model. A number keeps only whether it is zero.
- `formatWSPacket` on inputs that are neither strings nor objects (numbers, booleans, `undefined`) is left out. There `msg.length` is `undefined` or the call throws, and the code gives no contract for them.
- The websocket transport that delivers chunks and sends frames is left out.
- A `char` is a Unicode scalar value, not a UTF-16 code unit. The declared length is counted in UTF-16 code units (`Utf16Length`), as JavaScript does. A JavaScript string holding a lone surrogate cannot be represented, so such strings are left out. Decoding text from the socket is not modelled.
- Protocol.ChunkRoundTrip: it is proved for plain payloads only (non-empty, no `~`, not the single character `h`). Payloads with `~` or the payload `h` can be broken by the heartbeat pass, as `StripJoinsDigits` and `PayloadStartingWithHeartbeatTail` show. The empty payload is not broken, and it decodes to nothing anyway. It is left out only because its frame ends in `~`, which the proof's seam argument does not cover.
- Protocol.FormatRoundTrip: it assumes the serialisation is non-empty and `~`-free. A serialisation containing `~` can be cut or shortened by the decoder.
