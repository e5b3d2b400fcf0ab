# PDF summariser: the text handling of `app.py`, in Dafny

The application takes an uploaded PDF and sends its text to a chat model for a
summary in four labelled sections (Abstract, Introduction, Results,
Discussion). It then has a second model write an image prompt from that
summary, copies a placeholder image under a timestamped name, and saves the
summary as a Markdown file and a DOCX file. This project models the local,
deterministic logic between those service calls and proves what it promises.

- `pystr.dfy` (`PyStr`): the Python `str` operations the code relies on:
  - `strip`, with Python's whitespace set;
  - `split` and `split(sep, 1)`;
  - `" ".join`, `startswith`, `in`, `split(marker)[-1]`;
  - `lower`, on ASCII letters only.

  Each comes with the lemmas that relate it to the others.
- `ordered_dict.dfy` (`OrderedDicts`): a Python `dict` as a sequence of
  entries in insertion order. Assigning a new key appends it; assigning an
  existing key overwrites it in place.
- `summary_parser.dfy` (`SummaryParser`): `parse_structured_summary`.
  - The loop of the source is the method `ParseStructuredSummary` and its scanning loop `ScanLines`.
  - Both are proved equal to `Parse`, a declarative reading. Each label line opens a block: the text after its colon plus the stripped lines up to the next label line. The blocks are then stored one after the other.
  - `AssembleSpec` says what that storing yields. There is one key per distinct label, in order of first appearance, and each key holds the text of the label's last block.
- `summary_facts.dfy` (`SummaryFacts`): the parser's properties stated on the input text:
  - when the whole text comes back under "Full Summary";
  - that keys are always labels;
  - which lines make up each section.
- `upload.dfy` (`Upload`): `allowed_file`.
- `prompt.dfy` (`PromptGen`): the text side of `generate_visualization_prompt_with_anthropic`.
  - Default prompts are returned without a call.
  - A parsed dict is linearised by a loop (`LinearizeSections`).
  - The request text is built.
  - The model's reply is cleaned: the text after the last marker is kept, then a "here's a prompt:" preamble is dropped.
- `roundtrip.dfy` (`RoundTrip`): linearising a parsed summary and parsing it again gives the same dict back.
- `summarizer.dfy` (`Summarizer`): `summarize_text_with_ai`.
  - Without an OpenAI key it returns the fixed mock summary, which parses into all four sections.
  - With a key, the service's reply (or failure) is a parameter. Every one-line error message parses as one unlabelled "Full Summary".
- `artifacts.dfy` (`Artifacts`): the files `save_summary_to_files` and `generate_image_with_ai` produce:
  - the `strftime("%Y%m%d_%H%M%S")` timestamp, posix `os.path.splitext` and `os.path.join`;
  - the Markdown, DOCX and image names;
  - the placeholder image step;
  - the DOCX block layout, built through a `Document` class whose methods append headings and paragraphs.
- `wrappers.dfy` and `config.dfy`: `Option`, the API-failure kinds, and what counts as a set API key (present and non-empty, as `if not key` tests).

The clock, whether files exist, whether a write or a copy succeeds, and every reply of an AI service are parameters of the model.

The "Full Summary" fallback returns the input exactly as given, not stripped (app.py:81), and so does `Parse`.

## Model

| member | source | states |
|---|---|---|
| SummaryParser.Parse | app.py:53-83 | the declarative parse: the `Error` entry for a non-string, the untrimmed text under "Full Summary" when the text has no blocks, otherwise the blocks stored in order; its properties are the `SummaryFacts` rows |
| SummaryParser.ParseStructuredSummary | app.py:53-83 | the scanner's result is `Parse(summary)`: the `Error` entry for a non-string, the whole untrimmed text under "Full Summary" when no block was opened, otherwise the blocks stored in order |
| SummaryParser.ScanLines | app.py:62-78 | after the loop, the entries stored so far are the assembly of every closed block, and the section still open is the last block of the text, so that storing it gives `Assemble` of all blocks |
| SummaryParser.LabelOf | app.py:64-67 | a label line starts with one of the four labels followed by its colon, and that label is returned |
| SummaryParser.Scan | app.py:63-75 | a line opens a section exactly when its stripped form is a label line, the section is one of the four labels, and any other line contributes its stripped text |
| SummaryParser.ScanLabelLine | app.py:71-73 | on a label line, `split(":", 1)` yields two parts, the section is the stripped first part (never empty) and the first fragment the stripped second part |
| SummaryParser.AssembleSpec | app.py:68-69 | storing blocks one by one gives distinct keys, exactly the labels of the blocks, ordered by each label's first block, each holding the joined and stripped text of its label's last block |
| SummaryParser.FlushStores | app.py:77-78 | storing the still-open section after the loop yields the assembly of all blocks of the text |
| SummaryParser.ReservedKeys | app.py:60 | neither "Full Summary" nor "Error" is a section label, so the fallback and error entries never collide with a section |
| SummaryParser.BodySnoc | app.py:74-75 | the leading run of plain lines, which no section takes, grows by a plain line only while no label line has been seen, and is otherwise unchanged |
| SummaryParser.BlocksSnoc | app.py:64-75 | a label line appends a new block; a plain line extends the last block, or changes nothing before the first label |
| SummaryFacts.ParseFallback | app.py:62-81 | the parse is exactly `{"Full Summary": text}`, with the original text, if and only if no stripped line starts with a label and its colon |
| SummaryFacts.NoLabelLines | app.py:62-67 | a text has no blocks if and only if none of its stripped lines is a label line |
| SummaryFacts.NotFallback | app.py:80-83 | once a label line is present, the result is never the "Full Summary" fallback |
| SummaryFacts.ParseSections | app.py:64-78 | a text with a label line parses to a dict that summarises its blocks (first-occurrence order, last value wins) and whose keys are all labels |
| SummaryFacts.BlocksAt | app.py:62-75 | the k-th block starts at the k-th label line and holds the text after its colon followed by the stripped lines up to the next label line |
| SummaryFacts.LeadingPlainDropped | app.py:74-75 | lines before the first label line contribute nothing |
| SummaryFacts.NoBlocksIff | app.py:62-75 | there are no blocks if and only if every line is plain |
| SummaryFacts.BlockNamesAreLabels | app.py:71-72 | every block is named by one of the four labels |
| OrderedDicts.PutSpec | app.py:69 | assigning a key keeps the key order when the key is present and appends it otherwise, keeps keys distinct, leaves other entries unchanged and stores the new value |
| OrderedDicts.Position | app.py:69 | the position found is the first entry with that key, and none exists exactly when the key is absent |
| Upload.AllowedFile | app.py:49-51 | the check as written: a dot is present and the lowercased text after the last dot is in the allowed set; `AllowedFileIff` characterises it |
| Upload.AllowedFileIff | app.py:49-51 | a name is accepted if and only if it ends in '.' followed by the letters p, d, f in any case |
| Upload.AllowedExtension | app.py:51 | the lowercased extension is in the allowed set exactly when it is "pdf" in some mix of cases |
| Upload.UpperCaseAccepted | app.py:49-51 | "a.PDF" is accepted |
| Upload.NoDotRejected | app.py:50 | "pdf", which has no dot, is rejected |
| Upload.LastExtensionCounts | app.py:51 | "a.pdf.txt" is rejected: only the text after the last dot counts |
| PromptGen.LinearizeSections | app.py:95-100 | the linearising loop yields the stripped concatenation of `key: value\n` for every entry in dict order |
| PromptGen.RenderLines | app.py:98-99 | the k-th entry's line appears in the rendering right after the lines of the entries before it |
| PromptGen.VisualizationPrompt | app.py:90-156 | the generator as a function of the key, the input and the service's reply: the three defaults, else the request and the cleaned reply or the error text; `NoRequestIff` states when no call is made |
| PromptGen.ReplyPrompt | app.py:132-156 | the cleaned first content text when there is a non-empty one, the empty-reply message otherwise, and each failure kind's fixed prefix followed by the exception message |
| PromptGen.CleanReply | app.py:133-139 | strip, then cut after the marker, then drop the preamble; `CleanReplyClean` states the result is stripped and marker-free |
| PromptGen.AfterMarker | app.py:136-137 | `split(marker)[-1].strip()` when the marker occurs, the text unchanged otherwise; `AfterMarkerSpec` states which text is kept |
| PromptGen.DropPreamble | app.py:138-139 | the text after the first colon, stripped, when the lowercased text starts with a preamble; `DropPreambleIff` states the exact result |
| PyStr.LastCut | app.py:137 | the last piece of a split starts just after an occurrence of the separator and holds no further separator; without a separator it starts at 0 |
| PyStr.LastPiece | app.py:137 | `split(m)[-1]` is a suffix holding no `m`, the whole text when `m` does not occur, and otherwise is preceded directly by an occurrence of `m` |
| PromptGen.GenerateVisualizationPrompt | app.py:85-156 | the generator returns the defaults without a request, or sends the summary and returns the cleaned reply or the error text, as `VisualizationPrompt` defines |
| PromptGen.NoRequestIff | app.py:90-109 | no request is sent exactly when the key is unset, the input is neither dict nor string, or the summary is blank; the prompt is then one of the three defaults, and an empty dict gives the empty-summary default |
| PromptGen.BlankSummaryDefault | app.py:107-109 | a whitespace-only string summary returns the empty-summary default without a call |
| PromptGen.RequestText | app.py:114-121 | the request holds the summary right after the fixed instructions and ends with the marker line |
| PromptGen.CleanReplyClean | app.py:133-139 | the cleaned reply is stripped and never contains "Generated Image Prompt:" |
| PromptGen.AfterMarkerSpec | app.py:136-137 | when the marker occurs, the result is the stripped text that follows an occurrence of the marker, the one the split consumes last, and that text holds no further marker; without a marker the text is unchanged; either way the result is a stripped, marker-free slice of the text |
| PromptGen.AfterColonSpec | app.py:139 | the text after the first colon, stripped, is a stripped slice of the input and gains no new marker |
| PromptGen.DropPreambleSpec | app.py:138-139 | dropping the preamble keeps a slice of the text, preserves strippedness and never introduces the marker |
| PromptGen.DropPreambleIff | app.py:138-139 | a reply starting, in any case, with "here's a prompt:" or "here is a prompt:" loses exactly that prefix and is stripped; any other reply is unchanged |
| PromptGen.PreambleColon | app.py:139 | when the lowercased text starts with a preamble ending in its only colon, the text after the first colon is the text after the preamble |
| PromptGen.LowerColon | app.py:138 | lowercasing maps a character to ':' exactly when it is ':' |
| RoundTrip.RenderParse | app.py:53-100 | a dict whose keys are distinct labels and whose values are stripped single lines parses back to itself from its linearisation, stripped or not |
| RoundTrip.ParseIsSectionsDict | app.py:62-78 | every non-fallback parse has distinct label keys and stripped single-line values |
| RoundTrip.LinearizedParseIsStable | app.py:53-100 | parsing the linearisation of a parse gives that parse again |
| RoundTrip.AssembleSingles | app.py:68-69 | storing one single-fragment block per entry rebuilds the dict |
| RoundTrip.RenderJoin | app.py:98-99 | the rendering of a non-empty dict is its entry lines joined by newlines plus a final newline |
| RoundTrip.ScanRender | app.py:62-73 | every line of a linearised dict opens the section of its entry, with the entry's value as first fragment |
| Summarizer.Summarize | app.py:288-345 | the mock summary and no request without a key; with a key, the request built from the paper text and the summary made of the service's reply; its properties are `NoKeyGivesFourSections`, `AnswerIsStripped` and `FailureIsFullSummary` |
| Summarizer.ChatSummary | app.py:325-345 | the stripped first choice when it has content, the empty-response message otherwise, and for each failure kind its fixed prefix followed by the exception message |
| Summarizer.MockIsRendered | app.py:297-301 | the mock summary is the linearisation of the four mock sections in label order |
| Summarizer.MockParses | app.py:295-301 | the mock summary parses to its four sections, keyed by exactly the four labels in order |
| Summarizer.NoKeyGivesFourSections | app.py:294-301 | without an OpenAI key no request is sent and the summary parses to the four mock sections |
| Summarizer.SummaryRequest | app.py:306-313 | the request holds the paper text right after the fixed instructions, followed by one newline |
| Summarizer.FailureIsFullSummary | app.py:325-345 | with a key, an empty reply or a failure whose message is one line yields an error text that parses as one "Full Summary" entry holding that text |
| Summarizer.ErrorTextIsFullSummary | app.py:80-81 | a one-line text starting with "E" parses as the "Full Summary" fallback |
| Summarizer.AnswerIsStripped | app.py:325-329 | with a key and a non-empty first choice, the request carries the paper text and the summary is that choice stripped |
| Summarizer.FailureTextShape | app.py:334-345 | each failure prefix starts with "Error: " and is one line |
| Artifacts.Timestamp | app.py:242 | the timestamp has 15 characters, an underscore at index 8 and digits elsewhere |
| Artifacts.TimestampRoundTrip | app.py:242 | reading back the timestamp's digits recovers the date and time |
| Artifacts.TimestampInjective | app.py:242 | distinct times give distinct timestamps |
| Artifacts.SplitExt | app.py:243 | posix `os.path.splitext`: split at the last dot of the last path component, unless only dots precede it in that component; `SplitExtParts` and `SplitExtSuffix` state its behaviour |
| Artifacts.PathJoin | app.py:251 | posix `os.path.join` of two parts: an absolute second part replaces the first; otherwise the parts are joined, with a slash between them unless the first is empty or already ends in '/' |
| Artifacts.SplitExtParts | app.py:243 | the root and the extension concatenate to the path, and the extension is empty or a dot followed by no dot and no slash |
| Artifacts.SplitExtSuffix | app.py:243 | appending an extension to a stem ending in neither '.' nor '/' splits back into that stem and extension |
| Artifacts.PathJoinRelative | app.py:251 | joining a folder and a relative name inserts exactly one slash, and the name follows it |
| Artifacts.DocumentNamesShareBase | app.py:242-261 | the Markdown and DOCX names split into the same base `root(prefix)_timestamp` with ".md" and ".docx", and differ |
| Artifacts.NamesDifferAcrossSeconds | app.py:242-261 | names made at different times differ, for documents and images alike |
| Artifacts.ImageNameShape | app.py:172-175 | the image name splits into `root(prefix)_visualization_timestamp` and ".png", and its web path is "images/" followed by it |
| Artifacts.CopyPlaceholder | app.py:178-189 | the image's web path when the placeholder exists and the copy succeeds, nothing otherwise |
| Artifacts.GenerateImage | app.py:158-238 | without a Gemini key the placeholder is copied; with one, the attempt raises and either a handler copies the placeholder or matching the `BlockedPromptException` clause raises; `ImageIsPlaceholder` states it |
| Artifacts.ImageIsPlaceholder | app.py:158-238 | the step raises out of its handlers exactly when there is a Gemini key and the lookup of `genai.generation_types.BlockedPromptException` fails; whenever it returns, the key makes no difference; an image path comes back exactly when the placeholder exists and the copy succeeds, and it is the timestamped PNG under "images/" |
| Artifacts.SectionBlocks | app.py:271-274 | a level-1 heading and a paragraph for each entry, in dict order, skipping an `Error` entry; `SectionBlocksSpec` states the layout |
| Artifacts.DocxLayout | app.py:266-274 | one paragraph holding the text when the only key is "Full Summary", otherwise the section blocks; `FallbackDocument` and `SectionedDocument` state both cases |
| Artifacts.Document.constructor | app.py:264 | a new document holds no blocks |
| Artifacts.Document.AddHeading | app.py:273 | appends one heading with its level |
| Artifacts.Document.AddParagraph | app.py:274 | appends one paragraph |
| Artifacts.AddSections | app.py:271-274 | the loop appends a heading and a paragraph for every non-Error entry, in dict order |
| Artifacts.BuildDocument | app.py:264-274 | the document built from a summary is a fresh one holding the DOCX layout of its parse |
| Artifacts.SectionBlocksSpec | app.py:271-274 | without an Error entry, block 2k is the k-th key as a level-1 heading and block 2k+1 its value as a paragraph |
| Artifacts.FallbackDocument | app.py:267-269 | a summary without label lines becomes one paragraph holding the original text |
| Artifacts.SectionedDocument | app.py:270-274 | a summary with label lines becomes alternating headings and paragraphs, one pair per parsed section in parse order |
| Artifacts.DocumentHasParagraph | app.py:276-277 | every summary text, including the empty one, yields at least one paragraph |
| Artifacts.SaveSummary | app.py:240-285 | the report of both files: for each format whose write succeeded, its path under "docs/" and its timestamped name; `SaveSummaryReports` states it |
| Artifacts.SaveSummaryReports | app.py:240-285 | each format is reported exactly when its write succeeded, its path is "docs/" followed by its file name, and the names share the base with ".md" and ".docx" |

## Left out

- The Flask routes, sessions, redirects, templates and downloads (app.py:347-433) are web plumbing; only `allowed_file` among them is modelled.
- PDF text extraction with PyMuPDF is a foreign library; the extracted text is a parameter.
- The OpenAI, Anthropic and Gemini clients are network I/O. Their replies and exceptions are parameters (`ChatReply`, `Reply`). The model name, temperature, token limit and the system message are not modelled. Only the user text of each request is.
- Exception messages (`{e}`) are opaque strings supplied with the failure.
- File writes, `os.path.exists`, `shutil.copy`, `os.makedirs` and `Document.save` are filesystem effects; each becomes a boolean saying whether it succeeded.
- `datetime.now()` is a parameter. Years outside 1000–9999, where `%Y` would not give four digits, are excluded by `ValidTime`.
- `print` logging is not modelled.
- `PyStr.Lower` changes ASCII letters only, while Python's `lower()` also maps other scripts. The only comparisons made with it are against ASCII text.
- The DOCX fallback at app.py:276-277 is not modelled as a step. `Artifacts.DocumentHasParagraph` proves every layout already holds a paragraph, so the fallback can never fire.
- Artifacts.ImageNameShape, Artifacts.ImageIsPlaceholder and Artifacts.SaveSummaryReports require a prefix that does not start with '/'. The prefixes come from `secure_filename`, which is not part of this model and removes slashes.
- Summarizer.FailureIsFullSummary requires a one-line exception message; a message with a label line on a later line would be parsed as a section.
- PromptGen.CleanReplyClean states strippedness and the absence of the marker, not the full text. The text kept by the marker cut is stated by `AfterMarkerSpec`, and the text left by the preamble drop by `DropPreambleIff`.
- The undefined `prompt_text` read at app.py:205 is modelled by its effect: the `NameError` passes the `NotImplementedError` clause and is matched by the generic handler, so with a Gemini key the placeholder is copied, provided the clause at app.py:232 evaluates. Whether the Gemini library has the `generation_types.BlockedPromptException` attribute depends on its version, which is not part of this model; it is the parameter `blockedClauseResolves` of `Artifacts.GenerateImage`, and when the lookup fails the `AttributeError` leaves the function (`HandlerRaised`).
