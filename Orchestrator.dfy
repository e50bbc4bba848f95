/** The analysis loop of `main`: every readable `.tf` file found by the walk
    is analysed once per Well-Architected pillar, in whole when it is short
    and window by window when it is long, and every failure is recorded in
    place of the result it would have produced. */
module Orchestrator {
  import opened Wrappers
  import opened Strings
  import opened Json
  import opened Prompt
  import opened Invoker
  import Chunker

  /** The six pillars, in the order they are analysed. */
  const Pillars: seq<string> := [
    "Operational Excellence",
    "Security",
    "Reliability",
    "Performance Efficiency",
    "Cost Optimization",
    "Sustainability"
  ]

  /** Files longer than this many characters are cut into windows of this size. */
  const Threshold: nat := 2000

  /** A file as the walk reports it: its base name, and its text, or `None`
      when opening or decoding it failed. */
  datatype WalkedFile = WalkedFile(name: string, content: Option<string>)

  /** One analysis: the text and the pillar go in, a JSON value or the
      message of the exception comes out. */
  type Analyze = (string, string) -> Result<Json, string>

  /** A file takes part when its name ends in `.tf` and it could be read. */
  predicate Eligible(f: WalkedFile) {
    EndsWith(f.name, ".tf") && f.content.Some?
  }

  /** `{"error": str(e)}`. */
  function ErrorObject(message: string): Json {
    JObject(map["error" := JString(message)])
  }

  /** What is recorded for one analysis: its value, or the error object. */
  function Outcome(r: Result<Json, string>): Json {
    match r
    case Success(v) => v
    case Failure(e) => ErrorObject(e)
  }

  /** The texts sent for one pillar: the whole content when it is at most
      `Threshold` characters long, its windows otherwise. */
  function PillarRequests(content: string): seq<string> {
    if |content| > Threshold then Chunker.Chunks(content, Threshold) else [content]
  }

  /** The list stored under one pillar: one outcome per request, in order. */
  function PillarOutcomes(content: string, pillar: string, analyze: Analyze): seq<Json> {
    var requests := PillarRequests(content);
    seq(|requests|, i requires 0 <= i < |requests| => Outcome(analyze(requests[i], pillar)))
  }

  /** The report of one file after the given pillars, each one added in turn. */
  function PillarReports(content: string, pillars: seq<string>, analyze: Analyze): map<string, seq<Json>> {
    if pillars == [] then map[]
    else
      var last := pillars[|pillars| - 1];
      PillarReports(content, pillars[..|pillars| - 1], analyze)[last := PillarOutcomes(content, last, analyze)]
  }

  /** The report of one file: `file_results`. */
  function FileReport(content: string, analyze: Analyze): map<string, seq<Json>> {
    PillarReports(content, Pillars, analyze)
  }

  /** The report after the given files, in walk order; a later file with the
      same base name replaces the entry of an earlier one. */
  function Report(files: seq<WalkedFile>, analyze: Analyze): map<string, map<string, seq<Json>>> {
    if files == [] then map[]
    else
      var last := files[|files| - 1];
      var before := Report(files[..|files| - 1], analyze);
      if Eligible(last) then before[last.name := FileReport(last.content.value, analyze)] else before
  }

  // ---------------------------------------------------------------------
  // The loops
  // ---------------------------------------------------------------------

  /** The body of the pillar loop: the whole content in one call, or one call
      per window with each window's failure caught on its own. */
  method AnalyzePillar(content: string, pillar: string, analyze: Analyze) returns (outcomes: seq<Json>)
    ensures outcomes == PillarOutcomes(content, pillar, analyze)
  {
    if |content| > Threshold {
      var chunks := Chunker.ChunkText(content, Threshold);
      outcomes := [];
      for i := 0 to |chunks|
        invariant |outcomes| == i
        invariant forall k :: 0 <= k < i ==> outcomes[k] == Outcome(analyze(chunks[k], pillar))
      {
        var output := analyze(chunks[i], pillar);
        outcomes := outcomes + [Outcome(output)];
      }
    } else {
      var output := analyze(content, pillar);
      outcomes := [Outcome(output)];
    }
  }

  /** The pillar loop for one file. */
  method AnalyzeFile(content: string, analyze: Analyze) returns (fileResults: map<string, seq<Json>>)
    ensures fileResults == FileReport(content, analyze)
  {
    fileResults := map[];
    for i := 0 to |Pillars|
      invariant fileResults == PillarReports(content, Pillars[..i], analyze)
    {
      var pillar := Pillars[i];
      var outcomes := AnalyzePillar(content, pillar, analyze);
      assert Pillars[..i + 1][..i] == Pillars[..i];
      fileResults := fileResults[pillar := outcomes];
    }
    assert Pillars[..|Pillars|] == Pillars;
  }

  /** The file loop: files in walk order, skipping the ones that are not
      `.tf` files and the ones that cannot be read. */
  method AnalyzeFiles(files: seq<WalkedFile>, analyze: Analyze)
    returns (results: map<string, map<string, seq<Json>>>)
    ensures results == Report(files, analyze)
  {
    results := map[];
    for i := 0 to |files|
      invariant results == Report(files[..i], analyze)
    {
      assert files[..i + 1][..i] == files[..i];
      var file := files[i];
      if EndsWith(file.name, ".tf") {
        match file.content {
          case None =>
          case Some(content) =>
            var fileResults := AnalyzeFile(content, analyze);
            results := results[file.name := fileResults];
        }
      }
    }
    assert files[..|files|] == files;
  }

  // ---------------------------------------------------------------------
  // What the report holds
  // ---------------------------------------------------------------------

  /** The requests for a pillar cover the content exactly once, in order,
      and none is longer than `Threshold`. */
  lemma RequestsCoverContent(content: string)
    ensures Chunker.Concat(PillarRequests(content)) == content
    ensures forall i :: 0 <= i < |PillarRequests(content)| ==> |PillarRequests(content)[i]| <= Threshold
    ensures |PillarRequests(content)| == if |content| <= Threshold then 1 else Chunker.CeilDiv(|content|, Threshold)
  {
    if |content| > Threshold {
      Chunker.ChunksConcat(content, Threshold);
      Chunker.ChunksSizes(content, Threshold);
      Chunker.ChunksCount(content, Threshold);
    } else {
      assert Chunker.Concat([content]) == content + Chunker.Concat([]);
    }
  }

  /** Outcome `i` of a long file is the analysis of characters
      `i*2000 .. (i+1)*2000` (cut short at the end); a failure there is
      recorded as its error object at that position. */
  lemma OutcomeOfWindow(content: string, pillar: string, analyze: Analyze, i: nat)
    requires |content| > Threshold
    requires i < |PillarOutcomes(content, pillar, analyze)|
    ensures i * Threshold < |content|
    ensures var hi := if (i + 1) * Threshold < |content| then (i + 1) * Threshold else |content|;
            PillarOutcomes(content, pillar, analyze)[i]
            == Outcome(analyze(content[i * Threshold .. hi], pillar))
    ensures var hi := if (i + 1) * Threshold < |content| then (i + 1) * Threshold else |content|;
            analyze(content[i * Threshold .. hi], pillar).Failure? ==>
              PillarOutcomes(content, pillar, analyze)[i]
              == ErrorObject(analyze(content[i * Threshold .. hi], pillar).error)
  {
    Chunker.ChunkAt(content, Threshold, i);
  }

  /** A file of at most 2000 characters is analysed once per pillar; one
      character more and it is analysed in two windows. */
  lemma ThresholdBoundary(content: string, pillar: string, analyze: Analyze)
    ensures |content| <= 2000 ==>
              PillarOutcomes(content, pillar, analyze) == [Outcome(analyze(content, pillar))]
    ensures |content| == 2001 ==>
              PillarOutcomes(content, pillar, analyze)
              == [Outcome(analyze(content[..2000], pillar)), Outcome(analyze(content[2000..], pillar))]
  {
    if |content| == 2001 {
      var rest := content[2000..];
      assert |rest| == 1;
      assert Chunker.Chunks(rest, Threshold) == [rest];
      assert PillarRequests(content) == [content[..2000], rest];
    }
  }

  /** A walk that finds one readable `.tf` file of 3500 characters reports
      that file alone, with two outcomes under each of the six pillars
      (twelve analyses in all): first the analysis of the first 2000
      characters, then that of the remaining 1500. */
  lemma OneMediumFileReport(name: string, content: string, analyze: Analyze)
    requires EndsWith(name, ".tf") && |content| == 3500
    ensures Report([WalkedFile(name, Some(content))], analyze).Keys == {name}
    ensures forall p :: p in Pillars ==>
              p in Report([WalkedFile(name, Some(content))], analyze)[name] &&
              Report([WalkedFile(name, Some(content))], analyze)[name][p]
              == [Outcome(analyze(content[..2000], p)), Outcome(analyze(content[2000..], p))]
  {
    var files := [WalkedFile(name, Some(content))];
    assert files[..0] == [];
    FileReportPillars(content, analyze);
    var rest := content[2000..];
    assert Chunker.Chunks(rest, Threshold) == [rest];
    assert PillarRequests(content) == [content[..2000], rest];
  }

  /** The entries of a file's report are the outcomes of the pillars named,
      and nothing else. */
  lemma {:induction false} PillarReportsAt(content: string, pillars: seq<string>, analyze: Analyze)
    ensures forall p :: p in PillarReports(content, pillars, analyze) <==> p in pillars
    ensures forall p :: p in PillarReports(content, pillars, analyze) ==>
              PillarReports(content, pillars, analyze)[p] == PillarOutcomes(content, p, analyze)
  {
    if pillars != [] {
      var init := pillars[..|pillars| - 1];
      PillarReportsAt(content, init, analyze);
      assert pillars == init + [pillars[|pillars| - 1]];
      forall p ensures p in pillars <==> p in init || p == pillars[|pillars| - 1] {
        if p in pillars {
          var k :| 0 <= k < |pillars| && pillars[k] == p;
          if k < |pillars| - 1 { assert init[k] == p; }
        }
      }
    }
  }

  /** A file's report has exactly the six pillars as keys, each holding the
      outcomes of that pillar. */
  lemma FileReportPillars(content: string, analyze: Analyze)
    ensures FileReport(content, analyze).Keys == set p | p in Pillars
    ensures |FileReport(content, analyze)| == 6
    ensures forall p :: p in FileReport(content, analyze) ==>
              FileReport(content, analyze)[p] == PillarOutcomes(content, p, analyze)
  {
    PillarReportsAt(content, Pillars, analyze);
    var keys := set p | p in Pillars;
    assert keys == {Pillars[0], Pillars[1], Pillars[2], Pillars[3], Pillars[4], Pillars[5]};
    assert FileReport(content, analyze).Keys == keys;
  }

  /** The report has an entry for a base name exactly when some eligible file
      of the walk has that name. */
  lemma {:induction false} ReportKeys(files: seq<WalkedFile>, analyze: Analyze)
    ensures Report(files, analyze).Keys == set i | 0 <= i < |files| && Eligible(files[i]) :: files[i].name
  {
    if files != [] {
      var init := files[..|files| - 1];
      ReportKeys(init, analyze);
      var last := files[|files| - 1];
      var before := set i | 0 <= i < |init| && Eligible(init[i]) :: init[i].name;
      var after := set i | 0 <= i < |files| && Eligible(files[i]) :: files[i].name;
      forall n ensures n in after <==> n in before || (Eligible(last) && n == last.name) {
        if n in after {
          var i :| 0 <= i < |files| && Eligible(files[i]) && files[i].name == n;
          if i < |init| { assert init[i] == files[i]; }
        }
        if n in before {
          var i :| 0 <= i < |init| && Eligible(init[i]) && init[i].name == n;
          assert files[i] == init[i];
        }
      }
    }
  }

  /** The entry of a name is the report of the last eligible file with that
      name: earlier files of the same name are overwritten, and later files
      that are skipped leave it alone. */
  lemma {:induction false} ReportLastWins(files: seq<WalkedFile>, analyze: Analyze, i: nat)
    requires i < |files| && Eligible(files[i])
    requires forall j :: i < j < |files| && files[j].name == files[i].name ==> !Eligible(files[j])
    ensures files[i].name in Report(files, analyze)
    ensures Report(files, analyze)[files[i].name] == FileReport(files[i].content.value, analyze)
    decreases |files|
  {
    var init := files[..|files| - 1];
    if i < |files| - 1 {
      forall j | i < j < |init| && init[j].name == init[i].name ensures !Eligible(init[j]) {
        assert init[j] == files[j];
      }
      ReportLastWins(init, analyze, i);
      assert init[i] == files[i];
    }
  }

  // ---------------------------------------------------------------------
  // The loop over the real analysis
  // ---------------------------------------------------------------------

  /** Every analysis of the run, with the template files, the model call and
      the JSON parser fixed. */
  function Bedrock(templates: map<string, string>, invoke: Transport, parse: string -> Option<Json>): Analyze {
    (text, pillar) => AnalyzeWithBedrock(templates, invoke, parse, text, pillar)
  }

  /** A pillar whose template file is missing records, for every request,
      the file-not-found error naming that file, and no result. */
  lemma MissingTemplateRecordsErrors(templates: map<string, string>, invoke: Transport,
                                     parse: string -> Option<Json>, content: string, pillar: string)
    requires TemplatePath(pillar) !in templates
    ensures var outcomes := PillarOutcomes(content, pillar, Bedrock(templates, invoke, parse));
            |outcomes| >= 1 &&
            forall i :: 0 <= i < |outcomes| ==> outcomes[i] == ErrorObject(NotFoundMessage(TemplatePath(pillar)))
  {
    RequestsCoverContent(content);
    var requests := PillarRequests(content);
    forall i | 0 <= i < |requests|
      ensures Bedrock(templates, invoke, parse)(requests[i], pillar) == Failure(NotFoundMessage(TemplatePath(pillar)))
    {
      AnalyzeMissingTemplate(templates, invoke, parse, requests[i], pillar);
    }
  }
}
