# Math problem solver backend, modelled in Dafny

The backend takes an uploaded picture of a math problem. It turns the picture
grey, increases its contrast, sharpens it and binarises it. It reads the text
with an OCR engine, sends that text to a chat-completion service, and cuts the
service's reply into numbered steps and a final answer. This project models
the logic of `backend/app.py` that decides what comes out:

- `Preprocess` (`preprocess.dfy`): the threshold step `p > 150 and 255`.
- `LineAssembly` (`assembly.dfy`): `ocr_image` after the engine call. It
  sorts the first page's lines by the top edge of their boxes and joins them
  with a loop. It collapses whitespace runs and strips the result. An engine
  exception, or a page the engine reports as `None`, is an OCR failure.
- `AnswerParser` (`reply.dfy`): the reply parser of `solve_math_problem`.
  - With the marker "答案：", it splits the reply on the marker. The
    answer is the text between the first marker and the second one, or the
    end of the reply when there is no second marker. It cuts the text before
    the first marker at every `\n<digits>.`, drops blank fragments and
    renumbers the rest in a loop.
  - Without the marker, every non-blank line becomes a step and the answer
    is "未找到答案".
- `Service` (`solve.dfy`): the request handler. It runs the checks in the
  source's order: the image field, decoding, OCR, empty text, the API key
  guard of `call_siliconflow_api`, then the request and the reply lookup. It
  maps each failure to its response and HTTP status. It also records which
  outside services were called, in order.
- `Text` (`text.dfy`): the Python string primitives these depend on:
  - `str.strip`
  - `re.sub(r'\s+', ' ', s)`
  - `t in s`, through `IndexOf`, the leftmost occurrence of `t` in `s`
  - `s.split(sep)`, which also uses `IndexOf`
  - `str(n)`

  `Join` is Python's `sep.join`. The backend never calls it: the model uses
  it to state what `Split` returns, and what the line assembly builds.

The PIL decoder, the OCR engine and the chat service are function-typed
parameters of the handler. The API key is a parameter too.

The parser is modelled as the code is written, not as its prompt suggests.
The code splits `"1. x\n2. y\n答案：z"` at `\n2.` only, because the first
step has no newline in front of it. So the first fragment keeps its own
label and the renumbering gives `"1. 1. x"` (`AnswerParser.ParsedTwoSteps`).
Text after a second marker is dropped (`AnswerParser.ParsedIgnoresAfterSecondMarker`).

## Model

| member | source | states |
|---|---|---|
| Preprocess.BinarizePixel | backend/app.py:50-51 | A pixel becomes 0 or 255. It becomes 255 exactly when it is brighter than the threshold 150. |
| Preprocess.Binarize | backend/app.py:51 | `point` keeps the image size and maps every pixel with the threshold map. |
| Preprocess.BinarizeIsBilevel | backend/app.py:50-51 | The binarised image is black and white only. A pixel is white iff the input pixel lies above 150. |
| Preprocess.BinarizeFixesBilevel | backend/app.py:51 | A black-and-white image is left unchanged. |
| Preprocess.BinarizeIdempotent | backend/app.py:51 | Binarising twice is binarising once. |
| Preprocess.BinarizeMonotone | backend/app.py:51 | A brighter pixel never ends up darker than a dimmer one. |
| Text.StripLeft | backend/app.py:99 | Drops leading whitespace only. The result does not start with whitespace. |
| Text.StripLeftSuffix | backend/app.py:99 | What is left is the rest of the string after the leading whitespace. |
| Text.StripRight | backend/app.py:99 | Drops trailing whitespace only. The result is a prefix that does not end with whitespace. |
| Text.Strip | backend/app.py:211-212 | `str.strip`: the result neither starts nor ends with whitespace, and everything cut off is whitespace. |
| Text.StripInfix | backend/app.py:211-212 | The stripped text is the infix of the input that follows the leading whitespace. |
| Text.StripTrimmed | backend/app.py:215 | Stripping text that has no whitespace at either end leaves it unchanged. |
| Text.StripTrailingSpace | backend/app.py:99 | Stripping trimmed text with one trailing whitespace character gives the trimmed text. |
| Text.StripLeadingSpace | backend/app.py:215 | Stripping trimmed text with one leading whitespace character gives the trimmed text. |
| Text.NonSpaceStrip | backend/app.py:211-212 | Stripping removes only whitespace: the non-whitespace characters are kept in order. |
| Text.StripEmptyIffBlank | backend/app.py:215 | `s.strip()` is empty iff `s` is all whitespace. This is the `if step.strip()` filter. |
| Text.Collapse | backend/app.py:99 | `re.sub(r'\s+', ' ', s)`: the result has no two whitespace characters in a row and only plain spaces. It is empty iff the input is, and starts with whitespace iff the input does. Where each run goes is stated by CollapseBlank, CollapseAppend and CollapseRun. |
| Text.CollapseFixes | backend/app.py:99 | Already collapsed text is left as it is. |
| Text.NonSpaceCollapse | backend/app.py:99 | Collapsing keeps every non-whitespace character, in order. |
| Text.CollapseBlank | backend/app.py:99 | A non-empty whitespace run on its own becomes a single space; the empty text stays empty. |
| Text.CollapseAppend | backend/app.py:99 | Where no whitespace run crosses the boundary, collapsing a concatenation collapses each side. |
| Text.CollapseRun | backend/app.py:99 | A whitespace run between two non-whitespace characters becomes one space in place: `a + w + b` collapses to the collapsed `a`, one space, the collapsed `b`. |
| Text.CollapseTrimmed | backend/app.py:99 | Collapsing text with no whitespace at either end leaves none there. |
| Text.StripAround | backend/app.py:99 | Stripping trimmed text with any whitespace before and after it gives the trimmed text. |
| Text.StripParts | backend/app.py:211-212 | Every text is its leading whitespace, its stripped text and its trailing whitespace. |
| Text.Normalize | backend/app.py:99 | Definition of `re.sub(r'\s+', ' ', text).strip()`: collapse, then strip. Its properties are the Normalize lemmas below. |
| Text.NormalizeIsCollapseOfStrip | backend/app.py:99 | Collapsing then stripping is stripping then collapsing. |
| Text.NormalizeSpaceJoin | backend/app.py:96-99 | Cleaning `x + " " + y` gives the cleaned x, one space and the cleaned y. A blank side is dropped with its space. |
| Text.NormalizeSpaceAfter | backend/app.py:96-99 | A trailing space, as the loop leaves after the last line, changes nothing once the text is cleaned. |
| Text.NormalizeWellSpaced | backend/app.py:99 | The cleaned text is trimmed, has no double whitespace and uses only plain spaces. |
| Text.NormalizeKeepsText | backend/app.py:99 | Cleaning keeps every non-whitespace character, in order. |
| Text.NormalizeEmptyIffBlank | backend/app.py:99 | The cleaned text is empty iff the input was all whitespace. |
| Text.NormalizeTrailingSpace | backend/app.py:96-99 | Cleaning well-spaced text followed by the loop's last separator space gives the text back. |
| Text.Contains | backend/app.py:209 | Definition of `"答案：" in answer_content`: `IndexOf` finds an occurrence. |
| Text.IndexOf | backend/app.py:209 | The leftmost occurrence: the result is an occurrence and none lies before it. None means there is no occurrence at all. |
| Text.PrefixBeforeFirstOccurrence | backend/app.py:210 | The text is the part before the first occurrence, the separator and the rest. The part before does not contain the separator. |
| Text.NoOccurrenceAcross | backend/app.py:209 | A text absent from both sides of a boundary is absent from the whole when one of the two characters at the boundary is not in it. |
| Text.Split | backend/app.py:210 | `s.split(sep)`: joining the parts with `sep` gives `s` back. No part contains `sep`. There is one part iff `sep` does not occur. |
| Text.DecimalString | backend/app.py:218 | `str(n)`: a non-empty run of digits with no leading zero unless n is 0. |
| Text.DecimalRoundTrip | backend/app.py:218 | Reading the digits of `str(n)` back gives n. |
| LineAssembly.SortByTop | backend/app.py:92 | Definition of `sorted(result[0], key=lambda x: x[0][0][1])` as an insertion sort. SortByTopSorted and SortByTopStable state what it computes. |
| LineAssembly.InsertByTopSorted | backend/app.py:92 | Inserting a line into lines sorted by top edge keeps them sorted. |
| LineAssembly.InsertByTopCount | backend/app.py:92 | Inserting adds exactly that line and loses none. |
| LineAssembly.SortByTopSorted | backend/app.py:92 | `sorted(result[0], key=...)` is ascending by the top-left y and is a permutation of the lines. |
| LineAssembly.SortByTopStable | backend/app.py:92 | The sort is stable: lines with equal top edges keep their detection order. |
| LineAssembly.Joined | backend/app.py:93-96 | Definition of the text the `text += line_text + " "` loop builds: each line text followed by one space, in order. |
| LineAssembly.JoinedNonSpace | backend/app.py:93-96 | The loop adds only whitespace between and after the line texts. |
| LineAssembly.TextsBlank | backend/app.py:93-96 | The concatenated line texts are blank iff every line is blank. |
| LineAssembly.Cleaned | backend/app.py:93-99 | The cleaned texts of the non-blank lines, in order. None of them is empty. |
| LineAssembly.NormalizeJoined | backend/app.py:93-99 | Cleaning what the loop builds is joining the cleaned texts of the non-blank lines with single spaces. |
| LineAssembly.AssembledText | backend/app.py:89-99 | Definition of the text `ocr_image` returns for a page: sort, join in the loop, clean. |
| LineAssembly.AssembledIsJoin | backend/app.py:89-99 | The text of a page is the cleaned texts of its non-blank lines, top edge first, joined with single spaces. |
| LineAssembly.AssembledWellSpaced | backend/app.py:89-99 | The text of a page is trimmed and single-spaced. |
| LineAssembly.AssembledKeepsText | backend/app.py:89-99 | Apart from whitespace, the text of a page is the line texts in ascending order of their top edges. |
| LineAssembly.AssembledEmptyIff | backend/app.py:89-99 | The text of a page is empty iff every line on it is blank, including a page with no lines. |
| LineAssembly.AssembledExample | backend/app.py:89-99 | Two lines detected bottom first come out top first, single-spaced and trimmed. |
| LineAssembly.OcrOutcome | backend/app.py:86-102 | Definition of what `ocr_image` returns for the engine's output. An exception or a `None` first page is a failure. No page gives "". Otherwise it is the text of the first page. |
| LineAssembly.OcrImage | backend/app.py:86-102 | The method with the `text += line_text + " "` loop computes the `ocr_image` outcome. An engine exception or a `None` first page is an OCR failure. |
| LineAssembly.OcrEmptyIff | backend/app.py:89-100 | `ocr_image` returns "" iff the engine returned no page, or a first page whose lines are all blank. |
| AnswerParser.BreakAt | backend/app.py:215 | The length of the match of `\n\d+\.` at the start of the text, 0 if there is none. A non-zero result covers a newline, digits only and a dot. |
| AnswerParser.BreakAtMatch | backend/app.py:215 | Conversely, a newline, one or more digits and a dot at the start are matched, and the match takes all the digits. |
| AnswerParser.SplitAtBreaks | backend/app.py:215 | `re.split(r'\n\d+\.', s)` gives at least one piece. SplitAtBreaksWhole, SplitAtLeadingBreak and SplitAtBreaksAppend together fix the pieces of every text. |
| AnswerParser.SplitAtLeadingBreak | backend/app.py:215 | A break at the very start gives an empty first piece, followed by the pieces of the rest. |
| AnswerParser.SplitAtBreaksNoBreak | backend/app.py:215 | `re.split(r'\n\d+\.', s)` leaves no step break in any piece. |
| AnswerParser.SplitAtBreaksNoNewline | backend/app.py:215 | Text without a newline is a single piece. |
| AnswerParser.SplitAtBreaksWhole | backend/app.py:215 | Text without a break is a single piece, even when it has newlines, so a step that runs over several lines stays one step. |
| AnswerParser.SplitAtBreaksAppend | backend/app.py:215 | Splitting text around one break gives the pieces of the left side followed by the pieces of the right side. |
| AnswerParser.NonBlankStripped | backend/app.py:215 | `[p.strip() for p in parts if p.strip()]`: no more steps than pieces, and every step is non-empty and trimmed. NonBlankStrippedAppend and NonBlankStrippedSingle pin down the result exactly. |
| AnswerParser.NonBlankStrippedAppend | backend/app.py:215 | The comprehension works piece by piece: filtering a concatenation filters each part. |
| AnswerParser.NonBlankStrippedSingle | backend/app.py:215 | A blank piece is dropped; any other piece is kept, stripped. |
| AnswerParser.NonBlankStrippedKeepsText | backend/app.py:215 | The filter drops only whitespace: the non-whitespace of the steps is that of the pieces. |
| AnswerParser.NonBlankStrippedLacks | backend/app.py:221 | A character missing from every piece is missing from every step. |
| AnswerParser.NonBlankStrippedTrimmed | backend/app.py:215 | Pieces that are already trimmed pass through unchanged. |
| AnswerParser.Numbered | backend/app.py:217-218 | The renumbering keeps the number of steps. NumberedReadsBack states what each step becomes. |
| AnswerParser.NumberedReadsBack | backend/app.py:217-218 | Step i (from 0) reads back as the label `i+1` followed by ". " and the fragment. |
| AnswerParser.Renumber | backend/app.py:217-218 | The renumbering loop rewrites every step to `f"{i+1}. {step}"`. |
| AnswerParser.Parsed | backend/app.py:206-221 | Definition of the parsed reply on both branches. The lemmas below state what it gives. |
| AnswerParser.ParseReply | backend/app.py:206-221 | The method computes the parsed reply of lines 206-221 on both branches. |
| AnswerParser.SplitFirst | backend/app.py:210 | Splitting `a + "答案：" + b` when `a` has no marker gives `a` followed by the pieces of `b`. |
| AnswerParser.ParsedWithMarker | backend/app.py:209-218 | With one marker, the steps come from the text before it and the answer is the trimmed text after it. |
| AnswerParser.ParsedIgnoresAfterSecondMarker | backend/app.py:210-212 | Only `parts[0]` and `parts[1]` are read, so text after a second marker changes nothing. |
| AnswerParser.MarkerStepsNumbered | backend/app.py:209-218 | With the marker, step i reads as number i+1 followed by a non-empty, trimmed fragment without a step break. |
| AnswerParser.ParsedWithoutMarker | backend/app.py:206-221 | Without the marker, the answer is "未找到答案". Every step is non-empty and trimmed and has no newline. Together the steps keep every non-whitespace character of the reply, in order. |
| AnswerParser.ParsedOneLine | backend/app.py:219-221 | A reply of one line without the marker gives that line stripped as the only step, or no step if it is blank. |
| AnswerParser.ParsedLineCons | backend/app.py:219-221 | Without the marker, the first line gives its stripped text as a step, unless it is blank, and the other lines give the steps of the rest. |
| AnswerParser.ParsedEmpty | backend/app.py:206-221 | An empty reply gives no steps and the fallback answer. |
| AnswerParser.ParsedTwoLines | backend/app.py:219-221 | Two trimmed lines, neither containing the marker, become the two steps, unnumbered. |
| AnswerParser.TwoStepFragments | backend/app.py:211-215 | In `1. x`, newline, `2. y`, newline, the first fragment keeps its "1. " and the second loses its number. |
| AnswerParser.ParsedTwoSteps | backend/app.py:209-218 | For trimmed x, y and z without the marker, and x and y on one line each, the reply `1. x\n2. y\n答案：z` parses to steps `1. 1. x` and `2. y` with answer z. |
| AnswerParser.ParsedStepsExample | backend/app.py:209-218 | The parse of a sample reply with two steps and an answer. |
| AnswerParser.ParsedLinesExample | backend/app.py:219-221 | The parse of a sample reply without the marker. |
| Service.Status | backend/app.py:180-203 | The status is 200, 400 or 500. It is 200 iff solved, and 400 iff the failure is a client error. |
| Service.StatusOfFailures | backend/app.py:180-234 | The missing image, the unreadable image and the text-less image are 400. Every other failure is 500. |
| Service.KeyConfigured | backend/app.py:107-108 | Definition of the key guard: an unset key and an empty key both count as missing. |
| Service.TokensUsed | backend/app.py:230 | Definition of `result.get('usage', {}).get('total_tokens', 0)`: 0 when either key is absent, no value when `usage` is not an object. |
| Service.Answered | backend/app.py:199-231 | Definition of the response once the chat service has answered. AnsweredCases states its cases. |
| Service.AfterRecognition | backend/app.py:192-203 | Definition of the handler after `ocr_image`: empty text, then the key guard, then the request. |
| Service.Recognition | backend/app.py:192-203 | Definition of the OCR call on the binarised image, recorded as a call, followed by the rest. |
| Service.Handle | backend/app.py:176-234 | Definition of the handler, stage by stage. The lemmas below and SolveMathProblem state what it does. |
| Service.SolveMathProblem | backend/app.py:176-231 | The handler method, with early returns in source order, computes the modelled outcome: the response and the calls made. |
| Service.HandleStages | backend/app.py:180-192 | The OCR engine is reached iff the image field is present and the image opens and converts. Otherwise the handler fails with no call. |
| Service.AnsweredCases | backend/app.py:199-231 | A failed request or a missing content is an API error. Non-string content is an internal error. The result is solved iff the content is text and the token count is readable. A solved response carries the parsed reply. None of these is a 400. |
| Service.AfterRecognitionSends | backend/app.py:193-200 | A request is sent only for non-empty text with a configured key, and it carries that text. |
| Service.AfterRecognitionSolved | backend/app.py:193-200 | A solution after OCR implies non-empty text, a configured key and exactly one request. |
| Service.CallsInOrder | backend/app.py:186-200 | At most two outside calls are made. The engine is called first, on a black-and-white image, iff the image is readable. The chat service is called only after it. |
| Service.ChatOnlyWithKeyAndText | backend/app.py:192-200 | The chat request is made only with a configured key. Its text is the non-empty, well-spaced text assembled from the first page of the binarised image. |
| Service.NoTextNoChat | backend/app.py:193-194 | If the first page has no lines or only blank lines, the response is the 400 "no problem text" and only the engine was called. |
| Service.MissingKeyNoChat | backend/app.py:107-108 | Without a key no request is sent. The response is an earlier failure or the missing-key 500. |
| Service.FirstFailureWins | backend/app.py:180-203 | Each check, in source order, decides the response when it fails, whatever the later stages would give. |
| Service.ChatFailures | backend/app.py:199-203 | Once the request is sent, the response is what the reply gives. It is never a 400. |
| Service.SolvedMeans | backend/app.py:224-231 | A solved response carries the recognised problem, and the steps and answer parsed from the reply text. The token count is `usage.total_tokens`, or 0 when it is absent. |

## Left out

- The grey conversion, contrast enhancement and sharpening (`preprocess_image`, lines 40-47) are PIL image filters. They are folded into the decoder parameter, which yields the grey levels that are binarised.
- The OCR engine (PaddleOCR) is a parameter. The model sees only its output: the lines of each page with their box tops and texts. Box coordinates are integers here; the engine gives floats.
- A result of `None` from the engine is treated like an empty page list. Both give the empty text.
- `\s` and `\d` are modelled as Python's whitespace set and the ASCII digits. Unicode digits other than 0-9 are not matched by the modelled `\d`.
- `image_to_base64`, the PNG re-encoding inside `ocr_image`, the HTTP request itself, its headers, payload, timeout and timing, and `processing_time` are I/O and clock code. They are not modelled.
- Error messages are not modelled. Each failure is an error kind whose comment gives the message text; the exception text appended to it is left out.
- `tokens_used` is modelled as an integer; any other JSON value in `total_tokens` is not.
- The Flask routes `/` and `/frontend`, CORS, the environment loading, `mcp_entry.py` and the frontend are not part of this model.
- Concurrency between requests is not modelled: each request is handled on its own.
