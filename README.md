# PrivAId: summariser, content script and native-messaging backend in Dafny

This project models the core of PrivAId, a browser extension that talks to a
language model running on the user's machine. It has three parts:

- **The extractive summariser of the extension** (`TextRank`,
  `summarizeTextRank`):
  - the page text is split into sentences by a regular expression;
  - every ordered pair of sentences gets a similarity weight;
  - a damped power iteration scores the sentences;
  - the best `k` sentences are joined back in text order.
- **The content script's text handling**:
  - `summarizeText` asks for five sentences; a page text longer than 10000
    characters is first cut at the last blank within its first 10000
    characters, and `"..."` is added;
  - the `insertText` listener splices the model's reply into the focused
    editable element and moves the cursor.
- **The backend's message processing** (`ryzen_message_processor.py`):
  - the 4-byte length framing of Chrome native messaging (`send_message`,
    `read_message`);
  - the read loop of `message_handler`, which echoes error objects, hands
    every other object to `process_message`, and stops when `read_message`
    returns `None` (at the end of the input, or for a JSON `null` payload);
  - the dispatch of `process_message` on the message type;
  - the word-stream filter of `generate_llm_output`. It sends the words of a
    growing answer once, from the assistant marker on, and cuts at the end tag.

The Dafny modules follow the source:

| module | file | models |
|---|---|---|
| `Text` | `text.dfy` | the JavaScript and Python string operations used: `split(' ')`, `join`, `split(/\s+/)`, `str.split()`, `in`, `split(pat)[0]`, `toLowerCase` |
| `SentenceSplitter` | `sentences.dfy` | `splitIntoSentences` |
| `Similarity` | `similarity.dfy` | `calculateSimilarity` |
| `SimilarityGraph` | `graph.dfy` | `buildGraph` |
| `Rank` | `rank.dfy` | `runTextRank` |
| `Selection` | `selection.dfy` | the two sorts and the slice of `summarize` |
| `TextRankEngine` | `textrank.dfy` | the `TextRank` class and `summarizeTextRank` |
| `Content` | `content.dfy` | `summarizeText` and the `insertText` listener |
| `MessageProcessor` | `dispatch.dfy` | `process_message` and the per-message branch of `message_handler` |
| `NativeMessaging` | `framing.dfy` | `send_message`, `read_message` and the loop of `message_handler` |
| `WordStream` | `wordstream.dfy` | `generate_llm_output` |

Where the source updates state step by step, the model is imperative:

- The `TextRank` object is a class, and `buildGraph` a method over a `map`.
- `runTextRank`'s loops are methods, each proved equal to a specification
  function (`Rank.Scores`, `Rank.Step`, `Rank.RowSum`).
- The focused element is a class whose `insertText` method updates its
  fields.
- `message_handler` and `generate_llm_output` are loops proved equal to the
  functions `NativeMessaging.Transcript` and `WordStream.Stream`.

Parts of the world the model cannot see are passed in as parameters:

- `Math.log` is a parameter `ln`. All the model asks of it is `ln(1) = 0`
  and `ln(k) > 0` for `k > 1`.
- `json.dumps(...).encode('utf-8')` is a parameter `serialize`.
- `json.loads` of the UTF-8 text is a parameter `decode`.
- The generator `generate(user_query)` is the sequence of texts it yields.

## Model

| member | source | states |
|---|---|---|
| SentenceSplitter.SplitIntoSentences | privaid-chrome-extension/textrank.js:11-13 | every sentence takes at least two characters of the text, so there are at most half as many sentences as characters |
| SentenceSplitter.SentencesAreMatches | privaid-chrome-extension/textrank.js:12 | every element of the result is one match of the pattern: a non-empty run of non-terminators followed by a non-empty run of `.`, `!` or `?`, with no terminator before that final run |
| SentenceSplitter.SplitDecomposition | privaid-chrome-extension/textrank.js:12 | the matches are consecutive: concatenated, they are exactly the text after its leading terminators, up to an unterminated remainder that holds no terminator |
| SentenceSplitter.NoSentencesIff | privaid-chrome-extension/textrank.js:12 | `match(...) \|\| []` is empty exactly when no terminator occurs after the leading run of terminators; a text without terminators has no sentences |
| SentenceSplitter.MatchIsSentence | privaid-chrome-extension/textrank.js:12 | from a non-terminator followed by a terminator, the greedy match up to the end of the terminator run is one sentence |
| SentenceSplitter.TwoAdjacentSentences | privaid-chrome-extension/textrank.js:12 | `"Hi.Yo."` splits into `"Hi."` and `"Yo."` |
| Text.JsSplitWsContent | privaid-chrome-extension/textrank.js:29-30 | the tokens of `split(/\s+/)` hold exactly the non-whitespace characters of the sentence, in order |
| Text.AsciiLower | privaid-chrome-extension/textrank.js:29-30 | lower-casing keeps the length and lowers each character on its own |
| Similarity.Words | privaid-chrome-extension/textrank.js:29-30 | `split` never returns an empty list, so every sentence has at least one word |
| Similarity.CommonWords | privaid-chrome-extension/textrank.js:31 | the filter keeps at most as many words as the first list has |
| Similarity.CommonWordsFacts | privaid-chrome-extension/textrank.js:31 | the overlap is the words of the first sentence that occur in the second, each occurrence counted (as a multiset), and is never longer than the first list |
| Similarity.CommonCountUsesMembershipOnly | privaid-chrome-extension/textrank.js:31 | only which words the second sentence contains matters, not how often |
| Similarity.Denominator | privaid-chrome-extension/textrank.js:32 | with a logarithm, the sum of the two logarithms of the word counts is never negative |
| Similarity.DenominatorFacts | privaid-chrome-extension/textrank.js:32 | the denominator is symmetric, non-negative, and zero exactly when both sentences are single words |
| Similarity.Weight | privaid-chrome-extension/textrank.js:28-33 | with a logarithm every weight is a non-negative number (a zero denominator gives 0) |
| Similarity.WeightFacts | privaid-chrome-extension/textrank.js:28-33 | the weight is non-negative; it is zero exactly when there is no overlap or both sentences are single words; it is at most the first sentence's word count over the denominator |
| Similarity.WeightAsWritten | privaid-chrome-extension/textrank.js:32 | the source's quotient is a finite number exactly when the denominator is non-zero, and then equals `Weight`; otherwise it is NaN or Infinity |
| Similarity.OneWordSentencesBreakWeight | privaid-chrome-extension/textrank.js:28-33 | for the single-word sentences `"Hi."` and `"Yo."` the source's weight is NaN; for `"Hi."` against itself it is Infinity |
| Similarity.WeightNotSymmetric | privaid-chrome-extension/textrank.js:28-33 | `"x x z."` against `"x y."` weighs twice as much as the reverse, because the overlap counts occurrences in the first sentence only |
| SimilarityGraph.GraphOf | privaid-chrome-extension/textrank.js:15-26 | the graph has exactly one node per sentence index |
| SimilarityGraph.BuildRow | privaid-chrome-extension/textrank.js:18-23 | the inner loop builds the edges from node `i` to every other node, weighted by the similarity of sentence `i` to that sentence |
| SimilarityGraph.GraphComplete | privaid-chrome-extension/textrank.js:15-26 | there is a node for every sentence index and an edge to every other node, so every node has `n - 1` neighbours |
| SimilarityGraph.GraphEdge | privaid-chrome-extension/textrank.js:20-21 | the edge `i -> j` exists for `i != j` and carries `calculateSimilarity(sentences[i], sentences[j])` |
| SimilarityGraph.GraphNonNegative | privaid-chrome-extension/textrank.js:15-26 | with a logarithm every edge weight is non-negative |
| SimilarityGraph.GraphOfShape | privaid-chrome-extension/textrank.js:15-26 | sums up the graph: complete, no self-loops, similarity weights, out-degree `n - 1`, non-negative weights |
| SimilarityGraph.CompleteOutDegree | privaid-chrome-extension/textrank.js:46 | in a complete graph `Object.keys(graph[j]).length` is `n - 1` and `j` has no edge to itself |
| TextRankEngine.TextRank.BuildGraph | privaid-chrome-extension/textrank.js:15-26 | the method returns the specified graph of the object's sentences |
| TextRankEngine.TextRank.constructor | privaid-chrome-extension/textrank.js:2-9 | the object keeps the text and parameters (30 rounds, damping 0.85 by default), the sentence split of the text and its graph |
| Rank.RowSum | privaid-chrome-extension/textrank.js:44-47 | with non-negative weights and scores, the sum over the neighbours is never negative |
| Rank.Step | privaid-chrome-extension/textrank.js:42-50 | one round gives one new score per node |
| Rank.Scores | privaid-chrome-extension/textrank.js:36-53 | after any number of rounds there is one score per sentence |
| Rank.NeighbourSum | privaid-chrome-extension/textrank.js:44-47 | the inner loop adds, for every neighbour `j`, the edge weight times `scores[j]` over `j`'s out-degree |
| Rank.RowSumStep | privaid-chrome-extension/textrank.js:45-46 | one pass of the inner loop: node `j` adds its weighted share exactly when it is a neighbour, so never for `j = i` |
| Rank.NextScores | privaid-chrome-extension/textrank.js:42-50 | one round gives every node `(1 - d) + d * sum`, computed from the previous round's scores only |
| Rank.PowerIteration | privaid-chrome-extension/textrank.js:36-53 | the scores start at 1 and then go through `iterations` rounds |
| Rank.ScoresLowerBound | privaid-chrome-extension/textrank.js:35-54 | with non-negative weights and `0 <= d <= 1` every score stays non-negative and is at least `1 - d` after one round |
| Rank.SingleSentenceScore | privaid-chrome-extension/textrank.js:35-54 | a single sentence has no neighbours and scores exactly `1 - d` after any round |
| TextRankEngine.TextRank.RunTextRank | privaid-chrome-extension/textrank.js:35-54 | the object's graph is complete, and the method returns the damped power iteration over it |
| Selection.Sort | privaid-chrome-extension/textrank.js:58-59 | the sort keeps exactly the elements it is given, each as often (a permutation) |
| Selection.SortSorted | privaid-chrome-extension/textrank.js:58-63 | sorting distinct indices orders them strictly (descending score, ties by index; or ascending index), and the sort is a permutation |
| Selection.SortedUnique | privaid-chrome-extension/textrank.js:58-59 | two sequences sorted by the same order with the same elements are equal, so any stable sort yields the modelled order |
| Selection.Top | privaid-chrome-extension/textrank.js:58-60 | `slice(0, k)` of the sorted keys has `min(k, n)` elements |
| Selection.SelectIndices | privaid-chrome-extension/textrank.js:58-63 | the chosen indices are `min(k, n)` many |
| Selection.TopFacts | privaid-chrome-extension/textrank.js:58-63 | the top part has `min(k, n)` distinct indices; sorted back by index it holds the same indices in ascending order |
| Selection.SelectIndicesFacts | privaid-chrome-extension/textrank.js:56-63 | `min(k, n)` distinct indices below `n`, ascending; every chosen index beats every other index by a higher score, or an equal score and a lower index |
| Selection.SelectAll | privaid-chrome-extension/textrank.js:56-63 | asking for at least `n` sentences keeps all of them, in text order |
| TextRankEngine.Pick | privaid-chrome-extension/textrank.js:64 | one sentence per chosen index |
| TextRankEngine.SummaryOf | privaid-chrome-extension/textrank.js:56-66 | asking for no sentence, or a text without sentences, gives the empty summary |
| TextRankEngine.TextRank.Summarize | privaid-chrome-extension/textrank.js:56-66 | the chosen sentences, in text order, joined by single blanks |
| TextRankEngine.SummarizeTextRank | privaid-chrome-extension/textrank.js:70-77 | a text with fewer than 100 blank-separated pieces comes back as it is; any other one goes through a fresh `TextRank` with the defaults |
| TextRankEngine.SummarizeTextRankOf | privaid-chrome-extension/textrank.js:70-77 | a text with fewer than 99 blanks comes back unchanged |
| TextRankEngine.ShortTextsUnchanged | privaid-chrome-extension/textrank.js:71-76 | the piece count is under 100 exactly when the text holds fewer than 99 blanks; such a text is returned unchanged, any other one is summarised |
| Text.SplitOnLength | privaid-chrome-extension/textrank.js:71 | `split(' ')` has one piece more than the text has blanks |
| Text.JoinSplitOn | privaid-chrome-extension/content.js:36 | joining the pieces of `split(c)` with `c` gives back the text |
| Text.LastPieceClean | privaid-chrome-extension/content.js:36 | the last piece of `split(c)` holds no `c` |
| Content.DropLastPiece | privaid-chrome-extension/content.js:36 | dropping the last piece and joining the rest gives exactly the text before the last blank |
| Content.Truncate | privaid-chrome-extension/content.js:35-37 | a text longer than `maxLength` ends in `"..."` |
| Content.TruncateShort | privaid-chrome-extension/content.js:35-37 | a text no longer than `maxLength` is passed on as it is |
| Content.TruncateAtLastBlank | privaid-chrome-extension/content.js:35-36 | a longer text is cut to `maxLength` characters; of those, what precedes the last blank is kept and `"..."` appended |
| Content.TruncateWithoutBlank | privaid-chrome-extension/content.js:35-36 | when the first `maxLength` characters hold no blank, only `"..."` is left |
| Content.TruncateBound | privaid-chrome-extension/content.js:35-37 | the result is never longer than `max(3, maxLength + 2)`; a cut text is a prefix of the original shorter than `maxLength` (or empty) followed by `"..."` |
| Content.SummarizeText | privaid-chrome-extension/content.js:33-41 | the summary is `summarizeTextRank` of the truncated text, with five sentences |
| Content.Substring | privaid-chrome-extension/content.js:72-73 | `substring` is never longer than the string, and for offsets in order within it is exactly the part between them |
| Content.Splice | privaid-chrome-extension/content.js:72-77 | for a selection inside the text, the text before the selection, the inserted text, then the text after it |
| Content.SpliceReplacesSelection | privaid-chrome-extension/content.js:72-77 | with a selection inside the text, the selected part is replaced by the inserted text and the rest stays; the inserted text ends at `start + request.text.length` |
| Content.SpliceWithoutOffsets | privaid-chrome-extension/content.js:69-77 | without selection offsets (`undefined`), the splice puts the inserted text between two whole copies of the text |
| Content.FocusedElement.constructor | privaid-chrome-extension/content.js:63-71 | the element's kind, text and selection offsets, with offsets present on text controls |
| Content.FocusedElement.InsertText | privaid-chrome-extension/content.js:62-96 | a non-editable element is left unchanged and the reply is the error; a content-editable element gets the splice as its text content; a text control gets it as its value, with both offsets just after the insertion |
| Content.FocusedElement.InsertAtCaret | privaid-chrome-extension/content.js:62-96 | as `InsertText`, but a content-editable element is spliced at the given caret offsets, so only the selected part of its text changes |
| MessageProcessor.Dispatch | ryzen-ai/example/transformers/models/llm/ryzen_message_processor.py:174-210 | the model is asked only for one of the three known types, and only with a truthy prompt |
| MessageProcessor.QueryDispatch | ryzen-ai/example/transformers/models/llm/ryzen_message_processor.py:176-187 | a query with non-empty text and context asks the model about `text + "Use context while answering - " + context`; a falsy text or context, and nothing else, gets the input parsing error |
| MessageProcessor.SummarizeDispatch | ryzen-ai/example/transformers/models/llm/ryzen_message_processor.py:188-198 | a summarize request with a non-empty context asks for the rewriting instruction followed by the context; a falsy context, and nothing else, gets the input parsing error |
| MessageProcessor.ComposeDispatch | ryzen-ai/example/transformers/models/llm/ryzen_message_processor.py:199-208 | a compose request passes a truthy text to the model as it is; a falsy one gets the compose parsing error |
| MessageProcessor.UnknownTypeDispatch | ryzen-ai/example/transformers/models/llm/ryzen_message_processor.py:209-210 | the message type error comes exactly for types other than the three known ones, a missing type included |
| MessageProcessor.ErrorTexts | ryzen-ai/example/transformers/models/llm/ryzen_message_processor.py:174-210 | every fixed error text `process_message` sends is one of the three parsing errors |
| MessageProcessor.Handle | ryzen-ai/example/transformers/models/llm/ryzen_message_processor.py:219-223 | an echoed message is sent back unchanged |
| MessageProcessor.HandleProcess | ryzen-ai/example/transformers/models/llm/ryzen_message_processor.py:219-223 | exactly the objects whose type is not `"error"` reach `process_message`, and they reach it unchanged |
| MessageProcessor.ErrorMessageEchoed | ryzen-ai/example/transformers/models/llm/ryzen_message_processor.py:219-220 | an error object is echoed back as it is |
| NativeMessaging.EncodeLength | ryzen-ai/example/transformers/models/llm/ryzen_message_processor.py:127 | the length prefix is four bytes |
| NativeMessaging.DecodeLength | ryzen-ai/example/transformers/models/llm/ryzen_message_processor.py:144 | four bytes decode to an unsigned 32-bit length |
| NativeMessaging.LengthRoundTrip | ryzen-ai/example/transformers/models/llm/ryzen_message_processor.py:127 | decoding the prefix of a length gives the length back |
| NativeMessaging.PrefixRoundTrip | ryzen-ai/example/transformers/models/llm/ryzen_message_processor.py:141-144 | every four bytes are the prefix of the length they decode to |
| NativeMessaging.Frame | ryzen-ai/example/transformers/models/llm/ryzen_message_processor.py:126-128 | a frame is four bytes of length, then the payload unchanged |
| NativeMessaging.SendMessage | ryzen-ai/example/transformers/models/llm/ryzen_message_processor.py:124-129 | a message is framed exactly when its encoding is shorter than `2^32` bytes, and the frame carries the encoding after four length bytes |
| NativeMessaging.ReadMessage | ryzen-ai/example/transformers/models/llm/ryzen_message_processor.py:140-152 | a message is never `null`; any outcome other than `None` consumes input |
| NativeMessaging.ReadMessageNone | ryzen-ai/example/transformers/models/llm/ryzen_message_processor.py:140-152 | `None` exactly at the end of the input or for a payload that parses to JSON `null` |
| NativeMessaging.FrameRoundTrip | ryzen-ai/example/transformers/models/llm/ryzen_message_processor.py:124-152 | reading a frame gives back what its payload decodes to (`None` for JSON `null`, the input parsing error object for invalid JSON, an exception for invalid UTF-8) and leaves the following input unread |
| NativeMessaging.UnparsableEchoed | ryzen-ai/example/transformers/models/llm/ryzen_message_processor.py:148-152 | an unparsable payload comes back to the extension as the input parsing error |
| NativeMessaging.Transcript | ryzen-ai/example/transformers/models/llm/ryzen_message_processor.py:212-226 | every action of the loop reads at least one byte, so there are never more actions than input bytes |
| NativeMessaging.MessageHandler | ryzen-ai/example/transformers/models/llm/ryzen_message_processor.py:212-226 | the loop takes, message by message, the actions the transcript of the input lists, and stops at the first `None` |
| NativeMessaging.NullFrameEndsLoop | ryzen-ai/example/transformers/models/llm/ryzen_message_processor.py:215-218 | a frame whose payload is JSON `null` ends the loop: nothing it or the input after it holds is handled |
| NativeMessaging.TranscriptOfFrames | ryzen-ai/example/transformers/models/llm/ryzen_message_processor.py:212-226 | a stream of frames whose payloads parse to values other than `null` is handled one message per frame, in order, and nothing else happens |
| NativeMessaging.FramesThenRest | ryzen-ai/example/transformers/models/llm/ryzen_message_processor.py:212-226 | such frames followed by any input: their messages are handled first, then the rest of the input as it would be on its own |
| NativeMessaging.NullFrameStopsLoop | ryzen-ai/example/transformers/models/llm/ryzen_message_processor.py:212-226 | frames with parsed payloads, then a `null` frame: exactly the messages before it are handled, whatever follows |
| Text.PySplit | ryzen-ai/example/transformers/models/llm/ryzen_message_processor.py:158 | `split()` yields only non-empty words without whitespace |
| Text.PySplitContent | ryzen-ai/example/transformers/models/llm/ryzen_message_processor.py:158 | the words of `split()` hold exactly the non-whitespace characters of the text, in order |
| Text.PySplitBlank | ryzen-ai/example/transformers/models/llm/ryzen_message_processor.py:158 | a text of whitespace only has no words |
| Text.PySplitStep | ryzen-ai/example/transformers/models/llm/ryzen_message_processor.py:158 | after leading whitespace, the maximal run of non-whitespace is the first word and the rest is split the same way |
| Text.BeforeFirst | ryzen-ai/example/transformers/models/llm/ryzen_message_processor.py:164 | `split(pat)[0]` is a prefix of the word |
| Text.BeforeFirstIsFirst | ryzen-ai/example/transformers/models/llm/ryzen_message_processor.py:164 | the part before the first `pat` holds no `pat`; no occurrence of `pat` starts inside it; one starts right after it exactly when the word contains `pat`; without `pat` it is the whole word |
| WordStream.NewWords | ryzen-ai/example/transformers/models/llm/ryzen_message_processor.py:159 | the words past the ones already seen: the earlier split followed by them is the current split when it extends the earlier one |
| WordStream.StartedAfterWordIff | ryzen-ai/example/transformers/models/llm/ryzen_message_processor.py:168-169 | sending starts at the first word holding the assistant marker and never stops |
| WordStream.SentForm | ryzen-ai/example/transformers/models/llm/ryzen_message_processor.py:162-167 | a word is sent as the last one exactly when it holds the end tag |
| WordStream.SentFormFacts | ryzen-ai/example/transformers/models/llm/ryzen_message_processor.py:163-167 | the text sent never holds the end tag and is a prefix of the word |
| WordStream.EmitNoEndTag | ryzen-ai/example/transformers/models/llm/ryzen_message_processor.py:161-169 | no word of a run reaches the extension with the end tag in it |
| WordStream.NothingBeforeMarker | ryzen-ai/example/transformers/models/llm/ryzen_message_processor.py:161-169 | before the marker word nothing is sent |
| WordStream.MarkerStartsSending | ryzen-ai/example/transformers/models/llm/ryzen_message_processor.py:161-169 | the marker word itself is not sent; everything after it is sent as if sending had been on from the start |
| WordStream.EmitWhileSending | ryzen-ai/example/transformers/models/llm/ryzen_message_processor.py:161-169 | once sending is on, every word is sent, one response per word, in order |
| WordStream.EmitWords | ryzen-ai/example/transformers/models/llm/ryzen_message_processor.py:161-169 | at most one response per word |
| WordStream.EmitAppend | ryzen-ai/example/transformers/models/llm/ryzen_message_processor.py:161-169 | handling words in two runs sends what one run over both sends |
| WordStream.SendWords | ryzen-ai/example/transformers/models/llm/ryzen_message_processor.py:161-170 | the inner loop sends the responses of the specification and leaves `start_sending` as it says |
| WordStream.StreamFrom | ryzen-ai/example/transformers/models/llm/ryzen_message_processor.py:157-172 | no response of the remaining updates holds the end tag |
| WordStream.Stream | ryzen-ai/example/transformers/models/llm/ryzen_message_processor.py:154-172 | no response `generate_llm_output` sends holds the end tag |
| WordStream.GenerateLlmOutput | ryzen-ai/example/transformers/models/llm/ryzen_message_processor.py:154-172 | the method sends exactly the stream the specification gives for the updates |
| WordStream.StreamOfGrowingText | ryzen-ai/example/transformers/models/llm/ryzen_message_processor.py:154-172 | when every update only adds words, the stream is one pass over the words of the final text past the starting ones |
| WordStream.GrowingStream | ryzen-ai/example/transformers/models/llm/ryzen_message_processor.py:154-172 | from the start of a growing answer, no word is sent twice and none is left out |

## Left out

- `windowSize`: it is stored by the constructor (textrank.js:4) and never read, so the model has no such field.
- `Math.log` and all JavaScript arithmetic are on IEEE doubles. The model uses exact reals and a logarithm parameter, so rounding is not modelled.
- Similarity.Weight: it defines the zero-denominator case as 0, where the source yields NaN or Infinity. `WeightAsWritten` keeps the source's behaviour (see Findings). The NaN that would then spread through the scores and the sort is not modelled.
- Text.AsciiLower: `toLowerCase` is modelled on ASCII letters only. Other characters are kept as they are.
- Lengths and offsets count `char`s, not UTF-16 code units.
- The sort comparator in textrank.js:58-59 is modelled as a strict order on scores, with ties in ascending index. This is what a stable sort of the ascending keys yields. A NaN score would make the comparator inconsistent, and that case does not arise with `Weight`.
- `Object.keys` of a `map<nat, _>` is in ascending index order, as JavaScript orders integer keys.
- The DOM is not modelled:
  - `range.setStart`, `collapse`, `removeAllRanges`, `addRange` and `focus` in content.js:79-84 and 91;
  - the `console.log` in content.js:94;
  - the `return true` of the listener.
- `getPageContent`, `extractMeta`, `extractText` and `extractMainContent` in content.js are not part of this model.
- Content.Truncate: `maxLength` is a natural number. A negative or fractional `maxLength` is not modelled.
- Standard I/O is a byte sequence, and `read(n)` returns fewer bytes at its end. A prefix of fewer than 4 bytes, where `struct.unpack` raises, is a reported exception.
- `struct.pack('I')` is modelled as little-endian, which is the native order of the machines the backend runs on.
- `json.dumps`, `json.loads` and the UTF-8 codec are parameters. The JSON syntax itself is not modelled.
- The text of Python exceptions (`"Error: " + str(e)`) is not modelled:
  - `ExceptionError` stands for such an error text from `process_message`;
  - `ReportException` stands for one from `message_handler`.
- Threads (a message is processed on its own thread in the source), `time.sleep` and all logging are left out. The order of messages that different threads send is not modelled.
- `generate` is not modelled; it runs the model in ryzen_message_processor.py:96-118. Its output is the sequence of texts it yields.
- `send_info` and `prepare_ryzen_ai` are not part of this model. The bridge script chrome_native_bridge.py is not part of this model either.
- In the source, `send_response` for each word is a `send_message` of a response object. The model stops at the `Response` value.

Two places where this model follows the code rather than the documented design:

- The weight is not symmetric: the overlap counts occurrences in the first sentence only (`WeightNotSymmetric`).
- The short-text test of `summarizeTextRank` counts the pieces of `split(' ')`, that is the blanks plus one, not whitespace-separated words.

## Findings

| source | as written | input that shows it | evidently intended | confidence | as-written member | corrected member |
|---|---|---|---|---|---|---|
| privaid-chrome-extension/textrank.js:32 | the overlap is divided by the sum of the logarithms of the two word counts, which is 0 when both sentences are single words | the text `"Hi.Yo."` gives the sentences `"Hi."` and `"Yo."` (`TwoAdjacentSentences`); their weight is 0/0 = NaN, and a one-word sentence against an equal one gives Infinity | a finite, non-negative weight; 0 when the denominator is 0 | not executed | Similarity.WeightAsWritten, Similarity.OneWordSentencesBreakWeight | Similarity.Weight, Similarity.WeightFacts |
| privaid-chrome-extension/content.js:69-77 | a content-editable element has no `selectionStart`/`selectionEnd`, so both substrings take the whole text | a content-editable element with text `"ab"` and the request text `"X"` ends up with `"abXab"` (`SpliceWithoutOffsets`) | the reply inserted at the caret, the rest of the text unchanged | not executed | Content.FocusedElement.InsertText, Content.SpliceWithoutOffsets | Content.FocusedElement.InsertAtCaret |
