/** `load_prompt`: find the template of a pillar and put the code into it. */
module Prompt {
  import opened Wrappers
  import opened Strings

  /** The placeholder every template carries for the code under analysis. */
  const Placeholder := "{code}"

  /** `pillar.lower().replace(" ", "_") + ".txt"`. */
  function TemplateFileName(pillar: string): string {
    ReplaceAll(Lower(pillar), " ", "_") + ".txt"
  }

  /** `os.path.join("prompts", filename)` on a POSIX path separator. */
  function TemplatePath(pillar: string): string {
    "prompts/" + TemplateFileName(pillar)
  }

  /** The message `str(e)` of the `FileNotFoundError` that `open` raises. */
  function NotFoundMessage(path: string): string {
    "[Errno 2] No such file or directory: '" + path + "'"
  }

  /** `load_prompt(pillar, code)`, with the template files given as a map from
      path to file text: a missing file is a failure, otherwise every
      `{code}` in the template is replaced by `code`. */
  function LoadPrompt(templates: map<string, string>, pillar: string, code: string): (r: Result<string, string>)
    ensures r.Failure? <==> TemplatePath(pillar) !in templates
    ensures r.Failure? ==> r.error == NotFoundMessage(TemplatePath(pillar))
  {
    var path := TemplatePath(pillar);
    if path in templates then Success(ReplaceAll(templates[path], Placeholder, code))
    else Failure(NotFoundMessage(path))
  }

  /** The file name is the pillar name lower-cased, spaces turned into
      underscores, followed by `.txt`. */
  lemma TemplateFileNameAt(pillar: string)
    ensures |TemplateFileName(pillar)| == |pillar| + 4
    ensures EndsWith(TemplateFileName(pillar), ".txt")
    ensures forall i :: 0 <= i < |pillar| ==>
              TemplateFileName(pillar)[i] == if pillar[i] == ' ' then '_' else LowerChar(pillar[i])
  {
    ReplaceCharAt(Lower(pillar), ' ', '_');
    var name := TemplateFileName(pillar);
    assert name[|name| - 4..] == ".txt";
  }

  /** The pillar "Cost Optimization" reads its template from `cost_optimization.txt`. */
  lemma CostOptimizationFileName(pillar: string)
    requires pillar == "Cost Optimization"
    ensures TemplateFileName(pillar) == "cost_optimization.txt"
  {
    var lower := Lower(pillar);
    ReplaceCharAt(lower, ' ', '_');
    var name := ReplaceAll(lower, " ", "_");
    forall k | 0 <= k < |pillar| ensures name[k] == "cost_optimization"[k] {
    }
  }

  /** `{code}` cannot overlap itself, so a template holding it once is
      filled in at exactly that place. */
  lemma {:induction false} LoadPromptFillsPlaceholder(templates: map<string, string>, pillar: string,
                                                       before: string, after: string, code: string)
    requires TemplatePath(pillar) in templates
    requires templates[TemplatePath(pillar)] == before + Placeholder + after
    requires forall i: nat :: !OccursAt(before, Placeholder, i)
    requires forall i: nat :: !OccursAt(after, Placeholder, i)
    ensures LoadPrompt(templates, pillar, code) == Success(before + code + after)
  {
    var s := before + Placeholder + after;
    forall i: nat | i < |before| ensures !OccursAt(s, Placeholder, i) {
      if i + 6 <= |before| {
        assert !OccursAt(before, Placeholder, i);
        assert s[i..i + 6] == before[i..i + 6];
      } else if i + 6 <= |s| {
        var k := |before| - i;
        assert s[i..i + 6][k] == '{';
        assert Placeholder[k] != '{';
      }
    }
    ReplaceAllFirst(before, Placeholder, after, code);
    ReplaceAllAbsent(after, Placeholder, code);
  }

  /** A template without `{code}` comes back unchanged. */
  lemma LoadPromptWithoutPlaceholder(templates: map<string, string>, pillar: string, code: string)
    requires TemplatePath(pillar) in templates
    requires forall i: nat :: !OccursAt(templates[TemplatePath(pillar)], Placeholder, i)
    ensures LoadPrompt(templates, pillar, code) == Success(templates[TemplatePath(pillar)])
  {
    ReplaceAllAbsent(templates[TemplatePath(pillar)], Placeholder, code);
  }
}
