# Terraform Well-Architected analyser, modelled in Dafny

`cli_analyzer.py` walks a Terraform directory and asks a hosted language
model to review every `.tf` file once per AWS Well-Architected pillar. It
then collects the answers into one JSON report. This project models the core
of that script and proves what it does:

- **Chunker** (`chunk_text`): cuts a text into windows of at most 2000
  characters, left to right. `ChunkText` is the loop of the script. It is
  proved equal to a reference definition `Chunks`. The windows join back to
  the text, and there are `ceil(len / size)` of them.
- **Prompt** (`load_prompt`): derives the template file name from the pillar
  name (lower-cased, spaces to underscores, `.txt`) and fails with the
  file-not-found message when the file is missing. It replaces every `{code}`
  in the template with the code under review.
- **Normalizer** (the reply handling of `analyze_with_bedrock`):
  - joins the `text` fields of the reply's text blocks;
  - removes code fences with the regular expression `^```json|```$` under
    MULTILINE, modelled as a left-to-right scanner `ReSub` and proved equal
    to a per-line reading `StripFences`;
  - strips whitespace, parses, and falls back to a single synthetic issue.
- **Invoker** (`analyze_with_bedrock`): builds the request body and chains
  prompt loading, the model call, text extraction and normalisation. Every
  exception that escapes is a `Failure` carrying its message.
- **Orchestrator** (the loops of `main`): `AnalyzePillar`, `AnalyzeFile` and
  `AnalyzeFiles` are the three nested loops. Each is proved equal to a
  specification function: `PillarOutcomes`, `FileReport` and `Report`.
  Lemmas describe the report those functions build.

The pieces the script takes from its environment are parameters:
- the template files are a map from path to text;
- the model call, together with decoding its HTTP response, is a function
  from the request body to the reply's `content` list or an error message;
- `json.loads` on the cleaned text is a function returning `None` where it
  raises;
- the directory walk is the sequence of files it yields, in walk order.

Behaviours of the code a reader might not expect, which the model follows:
- `{code}` is replaced at every occurrence, not at a single one.
- An opening fence is removed only at the start of a line, and a closing
  fence only at the end of a line. A fence in the middle of a line stays.
- Cleaning is not idempotent. "```json```json" becomes "```json" in one pass
  (`Normalizer.CleanTextNotIdempotent`).
- The report is keyed by base name. Two `.tf` files with the same name in
  different directories share one entry, and the later one in walk order
  wins. A later file of that name that cannot be read leaves the earlier
  entry in place.
- A reply block without `type`, or a text block without `text`, raises
  `KeyError`. This is recorded as the error outcome `'type'` or `'text'`.

## Model

| member | source | states |
|---|---|---|
| Chunker.Chunks | cli_analyzer.py:9-13 | The reference windows; no contract of its own. `ChunkText` is proved equal to it, and `ChunksConcat`, `ChunksCount`, `ChunksSizes` and `ChunkAt` state what it yields |
| Chunker.ChunkText | cli_analyzer.py:9-13 | The loop's windows are the reference windows `Chunks`, they join back to the text, and there are `ceil(len / size)` of them |
| Chunker.ChunksConcat | cli_analyzer.py:9-13 | Joining the windows in order gives back the text exactly |
| Chunker.ChunksCount | cli_analyzer.py:11 | The number of windows is `ceil(len(text) / size)`; the empty text has none |
| Chunker.ChunksSizes | cli_analyzer.py:11-12 | Every window is non-empty and at most `size` long; all but the last are exactly `size` long |
| Chunker.ChunkAt | cli_analyzer.py:11-12 | Window `i` is `text[i*size : (i+1)*size]`, cut short at the end of the text |
| Strings.TrimStart | cli_analyzer.py:52 | The result is a suffix of the input; what was removed is whitespace, and the result does not start with whitespace |
| Strings.TrimEnd | cli_analyzer.py:52 | The result is a prefix of the input; what was removed is whitespace, and the result does not end with whitespace |
| Strings.Strip | cli_analyzer.py:52 | The result has no whitespace at either end and is no longer than the input |
| Strings.StripRemovesPadding | cli_analyzer.py:52 | The stripped text is a contiguous slice of the input |
| Strings.StripPadded | cli_analyzer.py:52 | Stripping whitespace padding around a trimmed core gives the core back |
| Strings.StripIdempotent | cli_analyzer.py:52 | Stripping twice is stripping once |
| Strings.Lower | cli_analyzer.py:16 | Lower-casing keeps the length and maps every character on its own |
| Strings.ReplaceAll | cli_analyzer.py:16-20 | `str.replace`; no contract of its own. `ReplaceAllAbsent` and `ReplaceAllFirst` describe it fully, and `ReplaceCharAt` describes it for one character |
| Strings.ReplaceAllAbsent | cli_analyzer.py:20 | Replacing a pattern that does not occur leaves the text unchanged |
| Strings.ReplaceAllFirst | cli_analyzer.py:20 | Replacement works left to right: the first occurrence is replaced and the scan resumes after it |
| Strings.ReplaceCharAt | cli_analyzer.py:16 | Replacing one character by another keeps the length and changes exactly the positions holding it |
| Prompt.TemplateFileName | cli_analyzer.py:16 | The template file name; no contract of its own. `TemplateFileNameAt` states it character by character |
| Prompt.LoadPrompt | cli_analyzer.py:15-20 | It fails exactly when the template file is missing, and the failure is the file-not-found message naming `prompts/<file>` |
| Prompt.TemplateFileNameAt | cli_analyzer.py:16 | The file name is the pillar name, lower-cased with spaces made underscores, followed by `.txt` |
| Prompt.CostOptimizationFileName | cli_analyzer.py:16 | "Cost Optimization" reads `cost_optimization.txt` |
| Prompt.LoadPromptFillsPlaceholder | cli_analyzer.py:18-20 | A template with `{code}` once becomes the template with the code in its place |
| Prompt.LoadPromptWithoutPlaceholder | cli_analyzer.py:18-20 | A template without `{code}` is returned unchanged |
| Normalizer.ExtractText | cli_analyzer.py:49 | The join of the text blocks; no contract of its own. `ExtractTextSucceeds` states when it fails, and `ExtractTextIsTextFields` states its value against a separate definition |
| Normalizer.ReplyText | cli_analyzer.py:49 | `data.get("content", [])` followed by the join: a reply without `content` gives the empty text; no contract of its own, and `AnalyzeEmptyReply` states the outcome |
| Normalizer.ExtractTextSucceeds | cli_analyzer.py:49 | Text extraction succeeds exactly when every block has `type` and every text block has `text` |
| Normalizer.ExtractTextAppend | cli_analyzer.py:49 | The text of two block lists in a row is the two texts in a row |
| Normalizer.ExtractTextIsTextFields | cli_analyzer.py:49 | The reply text is the in-order join of the `text` fields of exactly the text blocks |
| Normalizer.ReSub | cli_analyzer.py:52 | The regular-expression substitution as a left-to-right scan; no contract of its own. It is equal to `StripFences` by `ReSubIsStripFences` |
| Normalizer.StripFences | cli_analyzer.py:52 | The per-line reading of the substitution, the independent definition `ReSub` is proved equal to; no contract of its own |
| Normalizer.LineEnd | cli_analyzer.py:52 | The line ends at the first line feed, or at the end of the text |
| Normalizer.ReSubInLine | cli_analyzer.py:52 | Inside a line, the substitution only removes a closing fence at the line's end |
| Normalizer.ReSubOpeningFence | cli_analyzer.py:52 | A line opening with the JSON fence loses it and is then cleaned inside the line |
| Normalizer.ReSubNoOpeningFence | cli_analyzer.py:52 | A line not opening with the JSON fence is cleaned inside the line |
| Normalizer.ReSubIsStripFences | cli_analyzer.py:52 | The multiline substitution equals cleaning every line on its own with the line feeds kept |
| Normalizer.ReSubWithoutBacktick | cli_analyzer.py:52 | A text without a backtick passes the substitution unchanged |
| Normalizer.StripFencesOneLine | cli_analyzer.py:52 | A text without a line feed is cleaned as one line |
| Normalizer.StripFencesFirstLine | cli_analyzer.py:52 | The first line is cleaned on its own and the rest follows its line feed |
| Normalizer.StripFencesThreeLines | cli_analyzer.py:52 | Three lines are cleaned each on its own |
| Normalizer.StripFencesFenced | cli_analyzer.py:52 | A body between a JSON fence line and a closing fence line keeps only its two line feeds around it |
| Normalizer.CleanText | cli_analyzer.py:52 | Strip, substitute, strip; no contract of its own. `CleanTextTrimmed`, `CleanTextWithoutBacktick`, `CleanTextFencedReply` and `CleanTextNotIdempotent` state its results |
| Normalizer.CleanTextWithoutBacktick | cli_analyzer.py:52 | A reply without a backtick is cleaned to its stripped self |
| Normalizer.CleanTextOneLine | cli_analyzer.py:52 | A trimmed one-line reply is cleaned to its cleaned line when that line is trimmed |
| Normalizer.CleanTextTrimmed | cli_analyzer.py:52 | A trimmed reply is cleaned line by line and then stripped |
| Normalizer.CleanTextFencedReply | cli_analyzer.py:52 | A fenced one-line JSON body comes out as the body alone |
| Normalizer.CleanTextNotIdempotent | cli_analyzer.py:52 | Cleaning "```json```json" gives "```json", and cleaning that again gives the empty text |
| Normalizer.EnvelopeRoundTrip | cli_analyzer.py:58 | Reading the issues of an envelope gives back the findings it was built from |
| Normalizer.FindingsRoundTrip | cli_analyzer.py:58 | Reading the list of encoded findings gives back the findings |
| Normalizer.Normalize | cli_analyzer.py:55-58 | A value the parser accepts is returned unchanged; otherwise the result is exactly `{"issues": [{"description": <cleaned text>, "severity": "UNKNOWN", "recommendation": "Check manually", "pillar": <pillar>}]}`, whose issues read back as that one finding |
| Normalizer.CleanTextPlain | cli_analyzer.py:52 | A trimmed reply without a backtick is cleaned to itself |
| Normalizer.FallbackObject | cli_analyzer.py:58 | The fallback is the literal `{"issues": [{description, severity, recommendation, pillar}]}` object |
| Normalizer.NormalizeFreeText | cli_analyzer.py:52-58 | Free text that does not parse becomes the fallback object with the text as its description |
| Normalizer.NormalizeFencedJson | cli_analyzer.py:52-56 | A fenced JSON reply is parsed without its fences and the parsed value is returned as it is |
| Normalizer.NormalizeNotJson | cli_analyzer.py:52-58 | "not json at all" under Security gives the fallback object describing that text |
| Invoker.AnalyzeWithBedrock | cli_analyzer.py:22-60 | The whole analysis of one text; no contract of its own. `AnalyzeSucceeds` states when it succeeds, `AnalyzeMissingTemplate` and `AnalyzeTransportError` state its failures, and `AnalyzeResult` states its value |
| Invoker.RequestBodyCarriesPrompt | cli_analyzer.py:25-36 | The request body carries the prompt as its one user text block, with version "bedrock-2023-05-31" and 4000 tokens |
| Invoker.AnalyzeMissingTemplate | cli_analyzer.py:22-23 | Without the template file the analysis fails with the file-not-found message |
| Invoker.AnalyzeTransportError | cli_analyzer.py:38-46 | A failing model call fails the analysis with the same message |
| Invoker.AnalyzeSucceeds | cli_analyzer.py:22-60 | The analysis succeeds exactly when the template exists, the call succeeds and the blocks are well-formed; parsing never makes it fail |
| Invoker.AnalyzeResult | cli_analyzer.py:45-60 | On success the result is the normalised join of the text blocks of the reply to the filled-in template |
| Invoker.AnalyzeEmptyReply | cli_analyzer.py:49-58 | A reply without `content` gives the fallback issue with an empty description |
| Orchestrator.PillarOutcomes | cli_analyzer.py:132-151 | The list stored under one pillar; no contract of its own. `AnalyzePillar` computes it, and `RequestsCoverContent`, `OutcomeOfWindow` and `ThresholdBoundary` state what it holds |
| Orchestrator.FileReport | cli_analyzer.py:128-151 | The report of one file; no contract of its own. `AnalyzeFile` computes it, and `FileReportPillars` states that it maps exactly the six pillars to their outcomes |
| Orchestrator.Report | cli_analyzer.py:115-153 | The report of the walk; no contract of its own. `AnalyzeFiles` computes it, and `ReportKeys` and `ReportLastWins` state its keys and entries |
| Orchestrator.AnalyzePillar | cli_analyzer.py:132-151 | The pillar's outcome list is one outcome per window, in order, or one outcome for a short file |
| Orchestrator.AnalyzeFile | cli_analyzer.py:128-151 | The pillar loop builds the file's report `FileReport` |
| Orchestrator.AnalyzeFiles | cli_analyzer.py:115-153 | The file loop builds the report `Report` over the walk |
| Orchestrator.RequestsCoverContent | cli_analyzer.py:134-148 | The texts sent for a pillar join to the content, none exceeds 2000 characters, and there is one for a short file and `ceil(len/2000)` for a long one |
| Orchestrator.OutcomeOfWindow | cli_analyzer.py:134-143 | Outcome `i` of a long file is the analysis of window `i`; a failure there is its error object at that position |
| Orchestrator.ThresholdBoundary | cli_analyzer.py:134-148 | Up to 2000 characters gives one outcome; 2001 characters gives two, for the first 2000 and the last one |
| Orchestrator.OneMediumFileReport | cli_analyzer.py:99-153 | A walk with one 3500-character `.tf` file reports only that file, with two ordered outcomes under each of the six pillars |
| Orchestrator.PillarReportsAt | cli_analyzer.py:128-151 | The file report's keys are exactly the pillars analysed, each holding that pillar's outcomes |
| Orchestrator.FileReportPillars | cli_analyzer.py:101-151 | Every file report has exactly the six pillars as keys |
| Orchestrator.ReportKeys | cli_analyzer.py:115-153 | The report has an entry for a name exactly when some readable `.tf` file of the walk has that name |
| Orchestrator.ReportLastWins | cli_analyzer.py:115-153 | A name's entry is the report of the last readable `.tf` file with that name |
| Orchestrator.MissingTemplateRecordsErrors | cli_analyzer.py:132-151 | A pillar without a template records only file-not-found errors, at least one |

## Left out

- Repository setup (`setup_repository`, `--force-clone`) and the check for the Terraform directory: they are file-system and git operations outside the analysis.
- The boto3 session and client, the inference profile from the environment, and the serialisation and decoding of the HTTP exchange: the model call is a parameter.
- `json.loads`, `json.dumps` and `json.dump`: the parser is a parameter and JSON text is not modelled. Numbers are integers only.
- The directory walk and its order, and file reading: the walk is given as a sequence of base names with their text or a read failure.
- The timestamped output file and every `print`.
- `str.lower` and `str.strip` beyond ASCII: `Strings.Lower` lower-cases only `A`-`Z`. `Strings.IsSpace` covers code points 9-13 and 28-32, not the other Unicode spaces.
- Key order of the Python dictionaries: the report is made of Dafny maps.
- Reply shapes beyond a list of blocks with optional `type` and `text`: a block that is not a dictionary, or a `text` that is not a string, raises in Python and is not modelled.
- The contents of the template files: they are a map parameter.
