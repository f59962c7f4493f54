# Cancer research paper explainer: the page logic, verified

The explainer's front end (`script.js`) lets a reader upload a PDF, or type a topic, and sends it
to a summarising server. It then shows the returned markdown-like summary as HTML. This project
models the two pieces of that script that carry logic, and proves what they promise.

- **The summary formatter** (`displayResults`, script.js:186-201). A fixed chain of global
  regular-expression replacements runs in this order:
  1. `### ` and `## ` headings become `<h3>`;
  2. lazy `**bold**` becomes `<strong>`;
  3. `\n\n` becomes `</p><p>`;
  4. `- ` items become `<li>`;
  5. one greedy `<ul>` goes around the list items.

  Then, unless the text starts with `<h3>`, it is wrapped in `<p>…</p>`. Each replacement is written
  as the left-to-right scan a global JavaScript regex performs, with JavaScript's meaning of `.`
  (any character but `\n`, `\r`, U+2028 and U+2029). Each scan is proved equal to, or described by,
  an independent reading: line by line for the heading and item markers, and by first and last
  occurrence for the list wrap.
- **The input gate and the submission state** (script.js:26-27, 32-46, 81-166).
  - File selection keeps only a file whose type is exactly `application/pdf` and whose size is at
    most 50 × 1024 × 1024 bytes.
  - Submission is refused without a file on the PDF tab, or with blank text on the text tab.
    Otherwise it sends a form with exactly one field: `pdf` or `topic`.
  - The server's reply is shown as a formatted summary or reported as `Failed to process: …`.

  The decisions are pure functions (`Submission`, `Response`). The mutable page state
  (`selectedFile`, `currentTab`, the error banner, the loading indicator and the results panel)
  is the class `Controller.Page`, whose methods are the event handlers.

Files:

- `Wrappers.dfy`: `Option` and `Result`.
- `JsText.dfy`: the JavaScript string primitives the script relies on: line terminators,
  `String.prototype.trim`, searching for a substring, and the decimal form of a number.
- `Formatter.dfy`: `displayResults`.
- `Submission.dfy`: the file gate and the submit validation.
- `Response.dfy`: the classification of the server's reply.
- `Controller.dfy`: the page state and its handlers.

The code checks `size > 50 * 1024 * 1024` while its message says "less than 50MB". A file of
exactly 52428800 bytes is therefore accepted, and the model follows the code
(`Submission.SizeLimitBoundary`).

## Model

| member | source | states |
|---|---|---|
| JsText.TrimIsCore | script.js:125 | `trim()` returns a contiguous slice of the input; everything cut before and after it is white space or a line terminator, and a non-empty result neither starts nor ends with one |
| JsText.Trim | script.js:125 | `trim()` never lengthens the text; a non-empty result neither starts nor ends with white space or a line terminator; the result is empty exactly when every character is one of those, the `!textInput.value.trim()` test |
| JsText.TrimIdempotent | script.js:136 | trimming the already trimmed topic changes nothing |
| JsText.FirstFromSpec | script.js:189-196 | the search from `i` finds the first occurrence of a pattern at or after `i`, and finds nothing only when there is none |
| JsText.LastFromSpec | script.js:196 | the search finds the last occurrence of a pattern, and nothing only when there is none |
| JsText.DecimalString | script.js:149 | `${response.status}` is a non-empty string of decimal digits, with no leading zero except for 0 itself |
| JsText.DecimalRoundTrip | script.js:149 | reading the digits of `${status}` back gives the status |
| Formatter.LineEndSpec | script.js:189 | `(.*)` without the `s` flag runs exactly to the first line terminator or the end of the text |
| Formatter.LineEndWithin | script.js:189 | every position before a line's end belongs to that same line |
| Formatter.MarkLinesByLine | script.js:189-193 | a marker replacement equals the line-by-line reading: on each line, the first marker (anywhere on the line, not only at its start) and the rest of the line are wrapped; later markers on that line stay as text; the terminators are kept |
| Formatter.Headings | script.js:189-190 | the heading step equals the line-by-line reading of `### ` and then `## `: each pass treats every line by its first marker, which with the rest of the line becomes `<h3>…</h3>` |
| Formatter.ListItems | script.js:193 | the item step equals the line-by-line reading: every line's first `- ` and the rest of that line become `<li>…</li>` |
| Formatter.StarsAtOccurs | script.js:191 | the bold scan's character test is exactly an occurrence of `**` |
| Formatter.CloseFromSpec | script.js:191 | the lazy `(.*?)**` closes at the first `**` on the same line, and fails only when the line holds none |
| Formatter.StrongContent | script.js:191 | the content of a strong span holds no `**` and no line terminator |
| Formatter.EmphasizeFirstSpan | script.js:191 | at the first `**`, with another `**` on the line, the text before it is kept and the span runs to the nearest closing `**` |
| Formatter.CloseFromReaches | script.js:191 | over characters that are neither `*` nor line terminators, the lazy close reaches the next `**` |
| Formatter.Emphasize | script.js:191 | the bold step never shortens the text, and a text in which no span opens (no `**`, or none with a closing `**` on its line) comes out unchanged |
| Formatter.EmphasizeLonger | script.js:191 | the bold scan's output is at least as long as the text it scans |
| Formatter.EmphasizeShift | script.js:191 | the global scan resumed at a position gives the same output as a fresh scan of the text from there: nothing before it plays a part |
| Formatter.EmphasizeFirstOpen | script.js:191 | the bold step over any text, span by span: at the first `**` that has a closing `**` on its line, the text before is kept, the span to the nearest close becomes `<strong>…</strong>`, and the step repeats on the rest; a `**` with no close on its line stays as text |
| Formatter.TwoStrongSpans | script.js:191 | `**a**mid**b**` becomes `<strong>a</strong>mid<strong>b</strong>` for any `a`, `b` without `*` or line breaks and `mid` without `*`: two spans, not one from the first `**` to the last |
| Formatter.BreaksNoBlankLine | script.js:192 | the paragraph scan's output holds no `\n\n`, and starts with a line feed only where the input has a lone one |
| Formatter.ParagraphBreaks | script.js:192 | after the `\n\n` → `</p><p>` step the text contains no `\n\n`, including after a run of three line feeds; the step never shortens the text, and it leaves the text unchanged exactly when the text holds no `\n\n` |
| Formatter.BreaksShift | script.js:192 | the paragraph scan resumed at a position gives the same output as a fresh scan of the text from there |
| Formatter.ParagraphBreaksFirst | script.js:192 | the paragraph step over any text, match by match: without `\n\n` the text is unchanged; otherwise the text before the first `\n\n` is kept, that `\n\n` becomes `</p><p>`, and the step repeats on the rest |
| Formatter.WrapLists | script.js:196 | the list wrap inserts at most one `<ul>`…`</ul>` pair, from the first `<li>` to the end of the last `</li>`, keeping every other character in order, and inserts nothing when no `</li>` follows the first `<li>` |
| Formatter.WrapParagraph | script.js:199-201 | the text is left unchanged exactly when it starts with `<h3>`, and is otherwise exactly `<p>` + text + `</p>`, the empty text included; so the result starts with `<h3>`, or starts with `<p>` and ends with `</p>` |
| Formatter.FormatSummary | script.js:186-201 | the formatted summary starts with `<h3>`, or starts with `<p>` and ends with `</p>` |
| Formatter.PlainTextIsOneParagraph | script.js:188-201 | text without any of the patterns, and not opening with `<h3>`, comes out as exactly `<p>` + text + `</p>` |
| Formatter.HeadingFirstNotWrapped | script.js:188-201 | a summary opening with `### ` still starts with `<h3>` after every replacement, so it is not wrapped in `<p>` |
| Submission.FileRejection | script.js:85-95 | a file is refused exactly when it is not acceptable; "Please select a PDF file" exactly when its type is not `application/pdf`, whatever its size; "File size must be less than 50MB" exactly when it is a PDF over 50 × 1024 × 1024 bytes |
| Submission.SizeLimitBoundary | script.js:91-92 | the limit is 52428800; a PDF of exactly that size is kept, one byte more is refused |
| Submission.Validate | script.js:119-137 | refused exactly when the PDF tab has no file or the text tab has blank text, with the source's two messages; otherwise a form of exactly one field: `pdf` with the selected file on the PDF tab, otherwise `topic` with the trimmed text |
| Submission.TopicIsTrimmed | script.js:125-136 | a topic sent from the text tab is non-empty and has no white space at either end |
| Submission.ValidateIgnoresOtherTab | script.js:119-137 | the selected file plays no part on the text tab, and the text plays no part on the PDF tab once a file is selected |
| Submission.ValidateTopicStable | script.js:136 | submitting the topic the page sent gives the same form again |
| Response.Classify | script.js:142-166 | the summary is shown exactly for a 2xx reply whose JSON has no truthy `error` and has a `summary`, and it is then the formatted summary; every other outcome is a message starting with `Failed to process: ` |
| Response.ServerErrorNamesStatus | script.js:148-150 | a non-2xx status is reported before the body is looked at, as `Failed to process: Server error: ` followed by digits whose value is the status |
| Response.ServerReportedError | script.js:154-156 | a non-empty `error` field is reported after the prefix, even when a summary came with it |
| Response.FailureCarriesMessage | script.js:143-163 | a failed `fetch`, an unreadable 2xx body and a body without `summary` are each reported as `Failed to process: ` followed by that failure's own message |
| Response.EmptyErrorIgnored | script.js:154 | an empty `error` string is falsy and behaves as an absent one |
| Controller.Page.constructor | script.js:26-27 | the page starts with no file and on the `pdf` tab; the display state it also starts with (button enabled, banner, indicator and results hidden, empty texts) is not set by the script but taken as the page's HTML has it |
| Controller.Page.ShowError | script.js:210-218 | the banner shows the given message |
| Controller.Page.HideError | script.js:220-222 | the banner is hidden and its text kept |
| Controller.Page.SetLoadingState | script.js:172-184 | loading disables the button, shows the indicator and hides the results; ending it re-enables the button and hides the indicator, and leaves the results as they were |
| Controller.Page.SwitchTab | script.js:32-46 | the tab becomes the clicked one and the error is hidden; the file selection is untouched |
| Controller.Page.HandleFileSelect | script.js:81-102 | no file changes nothing; a refused file leaves the selection as it was and shows the reason; an accepted file becomes the selection and hides the error; every selection stays acceptable |
| Controller.Page.RemoveFile | script.js:105-111 | the selection becomes null and no other state changes |
| Controller.Page.Submit | script.js:116-140 | a form is returned exactly when `Validate` accepts, and it is `Validate`'s one-field form, with the page then loading; a PDF it sends is always one the file gate accepted, since every selection is; otherwise no form is built, the loading state and the results are as they were, and the banner shows `Validate`'s message; neither the file nor the tab changes |
| Controller.Page.Complete | script.js:142-166 | the loading state always ends; a delivered summary is put into the results panel and shown; any other reply shows `Classify`'s message, which starts with `Failed to process: `, and leaves the results panel as it was |

## Left out

- The DOM is not modelled: element lookups, `classList` changes, the upload zone and file preview
  displays, `fileName.textContent`, `pdfInput.value = ''`, `scrollIntoView`, and the drag-and-drop
  and click wiring (script.js:9-23, 37-41, 52-78, 98-100, 108-110). The page state keeps only the
  values the handlers decide on.
- `Controller.Page.SwitchTab`: accepts any tab value. The script looks up the `${targetTab}-tab`
  panel and throws at script.js:41, before `currentTab` is set, when the page has no such panel; that
  lookup is DOM and is not modelled.
- `Controller.Page.constructor`: the initial display state (button enabled, banner, loading indicator
  and results hidden) comes from the page's HTML, which is not part of this model; the constructor
  assumes it.
- `fetch`, `await response.json()` and the network are not modelled. The reply is a parameter of
  `Complete`/`Classify`: a failure with its message, or a status and a decoded body (script.js:143-152).
- `Response.Classify`: the body's `error` and `summary` are strings or absent. JSON numbers,
  objects and `null` there, which JavaScript would coerce or fail on differently, are not modelled.
  A body that is JSON `null` as a whole fails at `data.error` (script.js:154) and is written as
  `Malformed`, with the engine's `TypeError` message as its reason.
- `Response.Classify`: the engine's `TypeError` message for a missing `summary`, and the message of
  a failed `fetch` or `json()`, are parameters. Their wording belongs to the browser.
- `Controller.Page.ShowError`: the five-second `setTimeout` that hides the banner again
  (script.js:215-217) is a timer, and is not modelled.
- `console.error`, the copy-to-clipboard button and the keyboard shortcut (script.js:162,
  227-273) are browser I/O with no logic of the page.
- The handler runs asynchronously, and a second click while loading cannot start a new request
  only because the button is disabled. The model splits the handler into `Submit` and `Complete`
  and does not model interleavings.
- `app.py` (the FastAPI endpoint over PyMuPDF and the Groq model) and `API_CONFIG.js` (one URL
  constant) are not part of this model.
- Strings are sequences of characters, not of UTF-16 code units. Surrogate pairs, and how the
  regular expressions treat them, are not modelled.
