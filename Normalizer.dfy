/** The reply handling of `analyze_with_bedrock`: gather the text of the
    reply, strip Markdown code fences, parse, and fall back to a single
    synthetic issue when the text is not JSON. */
module Normalizer {
  import opened Wrappers
  import opened Strings
  import opened Json
  import Chunker

  // ---------------------------------------------------------------------
  // Text extraction
  // ---------------------------------------------------------------------

  /** One entry of the reply's `content` list; `None` is a missing key. */
  datatype ContentBlock = ContentBlock(kind: Option<string>, text: Option<string>)

  /** Every block has a `type`, and every text block has a `text`: nothing
      in the extraction raises `KeyError`. */
  predicate WellFormedBlocks(blocks: seq<ContentBlock>) {
    forall i :: 0 <= i < |blocks| ==>
      blocks[i].kind.Some? && (blocks[i].kind.value == "text" ==> blocks[i].text.Some?)
  }

  /** `"".join([c["text"] for c in blocks if c["type"] == "text"])`: blocks are
      visited in order, `c["type"]` is read first, `c["text"]` only for text
      blocks; a missing key raises `KeyError`, whose message is the quoted key. */
  function ExtractText(blocks: seq<ContentBlock>): Result<string, string> {
    if blocks == [] then Success("")
    else
      var b := blocks[0];
      if b.kind.None? then Failure("'type'")
      else if b.kind.value != "text" then ExtractText(blocks[1..])
      else if b.text.None? then Failure("'text'")
      else
        var rest :- ExtractText(blocks[1..]);
        Success(b.text.value + rest)
  }

  /** `data.get("content", [])`: a reply without `content` yields no text. */
  function ReplyText(content: Option<seq<ContentBlock>>): Result<string, string> {
    match content
    case None => Success("")
    case Some(blocks) => ExtractText(blocks)
  }

  /** The `text` fields of the text blocks, in order (collected from the back). */
  function TextFields(blocks: seq<ContentBlock>): seq<string>
    requires WellFormedBlocks(blocks)
  {
    if blocks == [] then []
    else
      var last := blocks[|blocks| - 1];
      var init := TextFields(blocks[..|blocks| - 1]);
      if last.kind.value == "text" then init + [last.text.value] else init
  }

  /** Extraction fails exactly when some block lacks a key it needs. */
  lemma {:induction false} ExtractTextSucceeds(blocks: seq<ContentBlock>)
    ensures ExtractText(blocks).Success? <==> WellFormedBlocks(blocks)
  {
    if blocks != [] {
      ExtractTextSucceeds(blocks[1..]);
      assert WellFormedBlocks(blocks) <==>
        blocks[0].kind.Some? && (blocks[0].kind.value == "text" ==> blocks[0].text.Some?)
        && WellFormedBlocks(blocks[1..]) by {
        if WellFormedBlocks(blocks[1..]) && blocks[0].kind.Some?
           && (blocks[0].kind.value == "text" ==> blocks[0].text.Some?) {
          forall i | 0 <= i < |blocks|
            ensures blocks[i].kind.Some? && (blocks[i].kind.value == "text" ==> blocks[i].text.Some?)
          {
            if i > 0 { assert blocks[i] == blocks[1..][i - 1]; }
          }
        }
      }
    }
  }

  /** The reply text of two block lists in a row is the two texts in a row. */
  lemma {:induction false} ExtractTextAppend(a: seq<ContentBlock>, b: seq<ContentBlock>)
    requires WellFormedBlocks(a) && WellFormedBlocks(b)
    ensures WellFormedBlocks(a + b)
    ensures ExtractText(a).Success? && ExtractText(b).Success? && ExtractText(a + b).Success?
    ensures ExtractText(a + b).value == ExtractText(a).value + ExtractText(b).value
  {
    ExtractTextSucceeds(a);
    ExtractTextSucceeds(b);
    assert WellFormedBlocks(a + b);
    ExtractTextSucceeds(a + b);
    if a != [] {
      assert (a + b)[1..] == a[1..] + b;
      assert WellFormedBlocks(a[1..]);
      ExtractTextAppend(a[1..], b);
    } else {
      assert a + b == b;
    }
  }

  /** The reply text is the in-order concatenation of the `text` fields of
      exactly the blocks whose `type` is `"text"`. */
  lemma {:induction false} ExtractTextIsTextFields(blocks: seq<ContentBlock>)
    requires WellFormedBlocks(blocks)
    ensures ExtractText(blocks) == Success(Chunker.Concat(TextFields(blocks)))
  {
    ExtractTextSucceeds(blocks);
    if blocks != [] {
      var init, last := blocks[..|blocks| - 1], blocks[|blocks| - 1];
      assert blocks == init + [last];
      assert WellFormedBlocks(init);
      assert WellFormedBlocks([last]);
      ExtractTextIsTextFields(init);
      ExtractTextAppend(init, [last]);
      if last.kind.value == "text" {
        Chunker.ConcatAppend(TextFields(init), [last.text.value]);
        assert Chunker.Concat([last.text.value]) == last.text.value + Chunker.Concat([]);
      } else {
        assert [last][1..] == [];
        assert ExtractText([last]) == Success("");
        assert TextFields(blocks) == TextFields(init);
        assert Chunker.Concat(TextFields(init)) + "" == Chunker.Concat(TextFields(init));
      }
    }
  }

  // ---------------------------------------------------------------------
  // Fence stripping: re.sub(r"^```json|```$", "", text, flags=re.MULTILINE)
  // ---------------------------------------------------------------------

  const JsonFence := "```json"
  const Fence := "```"

  /** `$` under MULTILINE: at the end of the text or just before a line feed. */
  predicate AtLineEnd(rest: string) {
    rest == [] || rest[0] == '\n'
  }

  /** Python's `re.sub` of the pattern above, scanning left to right; `bol`
      tells whether the scan stands at the start of a line (where `^` matches
      under MULTILINE). At each position the first alternative is tried, then
      the second; a match is deleted and the scan resumes after it, otherwise
      one character is copied. */
  function ReSub(t: string, bol: bool): string
    decreases |t|
  {
    if t == [] then []
    else if bol && StartsWith(t, JsonFence) then ReSub(t[|JsonFence|..], false)
    else if StartsWith(t, Fence) && AtLineEnd(t[|Fence|..]) then ReSub(t[|Fence|..], false)
    else [t[0]] + ReSub(t[1..], t[0] == '\n')
  }

  /** The index of the first line feed of `t`, or `|t|` if it has none. */
  function LineEnd(t: string): (k: nat)
    ensures k <= |t| && (k < |t| ==> t[k] == '\n')
    ensures forall i :: 0 <= i < k ==> t[i] != '\n'
  {
    if t == [] || t[0] == '\n' then 0 else 1 + LineEnd(t[1..])
  }

  lemma LineEndAfter(t: string, j: nat)
    requires j <= LineEnd(t)
    ensures LineEnd(t[j..]) == LineEnd(t) - j
  {
  }

  /** Drop a `"```json"` that opens a line. */
  function DropLeadingFence(line: string): string {
    if StartsWith(line, JsonFence) then line[|JsonFence|..] else line
  }

  /** Drop a `"```"` that closes a line. */
  function DropTrailingFence(line: string): string {
    if EndsWith(line, Fence) then line[..|line| - |Fence|] else line
  }

  /** The per-line reading of the substitution. */
  function CleanLine(line: string): string {
    DropTrailingFence(DropLeadingFence(line))
  }

  /** Each line (split at line feeds) cleaned on its own, line feeds kept. */
  function StripFences(t: string): string
    decreases |t|
  {
    var k := LineEnd(t);
    CleanLine(t[..k]) + (if k < |t| then "\n" + StripFences(t[k + 1..]) else "")
  }

  /** What follows the current line: its line feed and the rest, scanned
      from the start of a line. */
  function LineRest(t: string): string
    decreases |t|, 0
  {
    var k := LineEnd(t);
    if k < |t| then "\n" + ReSub(t[k + 1..], true) else ""
  }

  /** Inside a line, past any opening fence, the substitution only drops a
      closing fence at the line's end. */
  lemma {:induction false} ReSubInLine(t: string, bol: bool)
    requires !(bol && StartsWith(t, JsonFence))
    ensures ReSub(t, bol) == DropTrailingFence(t[..LineEnd(t)]) + LineRest(t)
    decreases |t|
  {
    if t == [] {
    } else if t[0] == '\n' {
      assert !StartsWith(t, Fence);
    } else if StartsWith(t, Fence) && AtLineEnd(t[|Fence|..]) {
      ReSubInLine(t[3..], false);
      ReSubClosingFence(t);
    } else {
      ReSubInLine(t[1..], false);
      ReSubCopy(t, bol);
    }
  }

  /** Step of ReSubInLine: a closing fence is deleted. */
  lemma ReSubClosingFence(t: string)
    requires StartsWith(t, Fence) && AtLineEnd(t[|Fence|..])
    requires ReSub(t[3..], false) == DropTrailingFence(t[3..][..LineEnd(t[3..])]) + LineRest(t[3..])
    ensures ReSub(t, false) == DropTrailingFence(t[..LineEnd(t)]) + LineRest(t)
  {
    var k := LineEnd(t);
    assert k == 3;
    LineEndAfter(t, 3);
    assert t[..k] == Fence;
    if k < |t| { assert t[3..][LineEnd(t[3..]) + 1..] == t[k + 1..]; }
  }

  /** Step of ReSubInLine: a character other than a line feed is copied. */
  lemma ReSubCopy(t: string, bol: bool)
    requires t != [] && t[0] != '\n'
    requires !(bol && StartsWith(t, JsonFence))
    requires !(StartsWith(t, Fence) && AtLineEnd(t[|Fence|..]))
    requires ReSub(t[1..], false) == DropTrailingFence(t[1..][..LineEnd(t[1..])]) + LineRest(t[1..])
    ensures ReSub(t, bol) == DropTrailingFence(t[..LineEnd(t)]) + LineRest(t)
  {
    var k := LineEnd(t);
    var body, rest := DropTrailingFence(t[1..k]), LineRest(t);
    calc {
      ReSub(t, bol);
      [t[0]] + ReSub(t[1..], false);
      { LineAfterFirst(t); }
      [t[0]] + (body + rest);
      ([t[0]] + body) + rest;
      { LineAfterFirst(t); LineIsNotFence(t); DropTrailingFenceCons(t[0], t[1..k]); }
      DropTrailingFence(t[..k]) + rest;
    }
  }

  lemma LineIsNotFence(t: string)
    requires !(StartsWith(t, Fence) && AtLineEnd(t[|Fence|..]))
    ensures t[..LineEnd(t)] != Fence
  {
    var k := LineEnd(t);
    if k == 3 {
      assert StartsWith(t, Fence) ==> AtLineEnd(t[3..]);
    }
  }

  /** Dropping a first character that is not a line feed shortens the line by it. */
  lemma LineAfterFirst(t: string)
    requires t != [] && t[0] != '\n'
    ensures t[1..][..LineEnd(t[1..])] == t[1..LineEnd(t)]
    ensures t[..LineEnd(t)] == [t[0]] + t[1..LineEnd(t)]
    ensures LineRest(t[1..]) == LineRest(t)
  {
    var k := LineEnd(t);
    LineEndAfter(t, 1);
    if k < |t| { assert t[1..][k..] == t[k + 1..]; }
  }

  lemma DropTrailingFenceCons(c: char, line: string)
    requires [c] + line != Fence
    ensures DropTrailingFence([c] + line) == [c] + DropTrailingFence(line)
  {
    var s := [c] + line;
    if EndsWith(s, Fence) {
      assert |s| > 3;
      assert line[|line| - 3..] == s[|s| - 3..];
      assert s[..|s| - 3] == [c] + line[..|line| - 3];
    }
  }

  /** A line opening with "```json": the scan skips the fence and goes on
      inside the line. */
  lemma ReSubOpeningFence(t: string)
    requires StartsWith(t, JsonFence)
    ensures LineEnd(t) >= |JsonFence|
    ensures ReSub(t, true) == CleanLine(t[..LineEnd(t)]) + LineRest(t)
  {
    var k := LineEnd(t);
    OpeningFenceLine(t);
    var u := t[7..];
    calc {
      ReSub(t, true);
      ReSub(u, false);
      { ReSubInLine(u, false); }
      DropTrailingFence(u[..LineEnd(u)]) + LineRest(u);
      { SkipOpeningFence(t); }
      DropTrailingFence(t[..k][7..]) + LineRest(t);
      { assert StartsWith(t[..k], JsonFence); }
      CleanLine(t[..k]) + LineRest(t);
    }
  }

  /** The opening fence lies inside the first line. */
  lemma OpeningFenceLine(t: string)
    requires StartsWith(t, JsonFence)
    ensures LineEnd(t) >= 7
  {
    assert forall i :: 0 <= i < 7 ==> t[i] == JsonFence[i];
  }

  /** Past the opening fence, the line and what follows it are unchanged. */
  lemma SkipOpeningFence(t: string)
    requires StartsWith(t, JsonFence)
    ensures LineEnd(t) >= 7
    ensures t[7..][..LineEnd(t[7..])] == t[..LineEnd(t)][7..]
    ensures LineRest(t[7..]) == LineRest(t)
  {
    OpeningFenceLine(t);
    var k := LineEnd(t);
    var u := t[7..];
    LineEndAfter(t, 7);
    if k < |t| { assert u[k - 7 + 1..] == t[k + 1..]; }
  }

  /** A line not opening with "```json": the scan works inside the line. */
  lemma ReSubNoOpeningFence(t: string)
    requires !StartsWith(t, JsonFence)
    ensures ReSub(t, true) == CleanLine(t[..LineEnd(t)]) + LineRest(t)
  {
    var k := LineEnd(t);
    assert !StartsWith(t[..k], JsonFence);
    ReSubInLine(t, true);
  }

  /** The regular expression strips, on every line, an opening "```json"
      and then a closing "```": it is the per-line reading. */
  lemma {:induction false} ReSubIsStripFences(t: string)
    ensures ReSub(t, true) == StripFences(t)
    decreases |t|
  {
    var k := LineEnd(t);
    if StartsWith(t, JsonFence) {
      ReSubOpeningFence(t);
    } else {
      ReSubNoOpeningFence(t);
    }
    if k < |t| {
      ReSubIsStripFences(t[k + 1..]);
    }
  }

  /** A text without a backtick passes the substitution unchanged. */
  lemma {:induction false} ReSubWithoutBacktick(t: string, bol: bool)
    requires '`' !in t
    ensures ReSub(t, bol) == t
    decreases |t|
  {
    if t != [] {
      assert t[0] != '`';
      ReSubWithoutBacktick(t[1..], t[0] == '\n');
    }
  }

  /** A text without a line feed is one line. */
  lemma StripFencesOneLine(line: string)
    requires '\n' !in line
    ensures StripFences(line) == CleanLine(line)
  {
    assert LineEnd(line) == |line|;
    assert line[..|line|] == line;
  }

  /** The first line is cleaned on its own, the line feed kept. */
  lemma StripFencesFirstLine(line: string, rest: string)
    requires '\n' !in line
    ensures StripFences(line + "\n" + rest) == CleanLine(line) + "\n" + StripFences(rest)
  {
    var t := line + "\n" + rest;
    assert t[|line|] == '\n';
    assert LineEnd(t) == |line|;
    assert t[..|line|] == line;
    assert t[|line| + 1..] == rest;
  }

  // ---------------------------------------------------------------------
  // Cleaning and the tolerant parse
  // ---------------------------------------------------------------------

  /** `re.sub(r"^```json|```$", "", text_out.strip(), flags=re.MULTILINE).strip()`. */
  function CleanText(reply: string): string {
    Strip(ReSub(Strip(reply), true))
  }

  /** A reply without a backtick comes out as its stripped self. */
  lemma CleanTextWithoutBacktick(reply: string)
    requires '`' !in reply
    ensures CleanText(reply) == Strip(reply)
  {
    var t := TrimStart(reply);
    assert '`' !in t by {
      forall i | 0 <= i < |t| ensures t[i] != '`' { assert t[i] == reply[|reply| - |t| + i]; }
    }
    var r := TrimEnd(t);
    assert '`' !in r by {
      forall i | 0 <= i < |r| ensures r[i] != '`' { assert r[i] == t[i]; }
    }
    ReSubWithoutBacktick(r, true);
    StripIdempotent(reply);
  }

  /** A trimmed one-line reply whose cleaned line is trimmed too is just
      that cleaned line. */
  lemma CleanTextOneLine(line: string)
    requires '\n' !in line && Trimmed(line) && Trimmed(CleanLine(line))
    ensures CleanText(line) == CleanLine(line)
  {
    StripPadded([], line, []);
    assert [] + line + [] == line;
    ReSubIsStripFences(line);
    StripFencesOneLine(line);
    StripPadded([], CleanLine(line), []);
    assert [] + CleanLine(line) + [] == CleanLine(line);
  }

  /** A reply with no surrounding whitespace is cleaned line by line, then stripped. */
  lemma CleanTextTrimmed(t: string)
    requires Trimmed(t)
    ensures CleanText(t) == Strip(StripFences(t))
  {
    StripPadded([], t, []);
    assert [] + t + [] == t;
    ReSubIsStripFences(t);
  }

  /** Three lines are cleaned each on its own. */
  lemma StripFencesThreeLines(a: string, b: string, c: string)
    requires '\n' !in a && '\n' !in b && '\n' !in c
    ensures StripFences(a + "\n" + b + "\n" + c)
            == CleanLine(a) + "\n" + CleanLine(b) + "\n" + CleanLine(c)
  {
    var bc := b + "\n" + c;
    calc {
      StripFences(a + "\n" + b + "\n" + c);
      { assert a + "\n" + b + "\n" + c == a + "\n" + bc; }
      StripFences(a + "\n" + bc);
      { StripFencesFirstLine(a, bc); }
      CleanLine(a) + "\n" + StripFences(bc);
      { StripFencesFirstLine(b, c); }
      CleanLine(a) + "\n" + (CleanLine(b) + "\n" + StripFences(c));
      { StripFencesOneLine(c); }
      CleanLine(a) + "\n" + (CleanLine(b) + "\n" + CleanLine(c));
      CleanLine(a) + "\n" + CleanLine(b) + "\n" + CleanLine(c);
    }
  }

  lemma StripFencesFenced(open: string, body: string, close: string)
    requires open == JsonFence && close == Fence && '\n' !in body
    requires !StartsWith(body, JsonFence) && !EndsWith(body, Fence)
    ensures StripFences(open + "\n" + body + "\n" + close) == "\n" + body + "\n"
  {
    JsonFenceLine(open);
    FenceLine(close);
    calc {
      StripFences(open + "\n" + body + "\n" + close);
      { StripFencesThreeLines(open, body, close); }
      CleanLine(open) + "\n" + CleanLine(body) + "\n" + CleanLine(close);
      [] + "\n" + body + "\n" + [];
      "\n" + body + "\n";
    }
  }

  /** The line "```" is cleaned to nothing. */
  lemma FenceLine(line: string)
    requires line == Fence
    ensures '\n' !in line && CleanLine(line) == []
  {
    assert !StartsWith(line, JsonFence);
    assert DropLeadingFence(line) == Fence;
  }

  /** The fenced reply of a well-behaved model loses its fences: a line of
      JSON between a "```json" line and a "```" line becomes that line. */
  lemma CleanTextFencedReply(body: string)
    requires '\n' !in body && Trimmed(body)
    requires !StartsWith(body, JsonFence) && !EndsWith(body, Fence)
    ensures CleanText(JsonFence + "\n" + body + "\n" + Fence) == body
  {
    var reply := JsonFence + "\n" + body + "\n" + Fence;
    assert Trimmed(reply) by {
      assert reply[0] == JsonFence[0];
      assert reply[|reply| - 1] == Fence[|Fence| - 1];
    }
    calc {
      CleanText(reply);
      { CleanTextTrimmed(reply); }
      Strip(StripFences(reply));
      { StripFencesFenced(JsonFence, body, Fence); }
      Strip("\n" + body + "\n");
      { StripPadded("\n", body, "\n"); }
      body;
    }
  }

  /** Cleaning is a single pass and not idempotent: "```json```json" loses
      its opening fence, and the remaining "```json" would lose it again. */
  lemma CleanTextNotIdempotent(reply: string)
    requires reply == JsonFence + JsonFence
    ensures CleanText(reply) == JsonFence
    ensures CleanText(CleanText(reply)) == ""
  {
    JsonFenceLine(JsonFence);
    DoubleJsonFenceLine(reply);
    CleanTextOneLine(reply);
    CleanTextOneLine(JsonFence);
  }

  /** The line "```json" is trimmed and cleans to nothing. */
  lemma JsonFenceLine(line: string)
    requires line == JsonFence
    ensures '\n' !in line && Trimmed(line) && CleanLine(line) == []
  {
    assert DropLeadingFence(line) == [];
  }

  /** The line "```json```json" is trimmed and cleans to "```json". */
  lemma DoubleJsonFenceLine(line: string)
    requires line == JsonFence + JsonFence
    ensures '\n' !in line && Trimmed(line) && CleanLine(line) == JsonFence
  {
    assert line[..7] == JsonFence;
    assert DropLeadingFence(line) == JsonFence;
    assert JsonFence[4..] != Fence;
  }

  /** One reported issue (a "finding"). */
  datatype Finding = Finding(description: string, severity: string, recommendation: string, pillar: string)

  function FindingToJson(f: Finding): Json {
    JObject(map[
      "description" := JString(f.description),
      "severity" := JString(f.severity),
      "recommendation" := JString(f.recommendation),
      "pillar" := JString(f.pillar)])
  }

  /** `{"issues": [...]}`, the shape the prompts ask the model for. */
  function Envelope(findings: seq<Finding>): Json {
    JObject(map["issues" := JArray(seq(|findings|, i requires 0 <= i < |findings| => FindingToJson(findings[i])))])
  }

  /** Read one issue back: an object whose four fields are strings. */
  function FindingOf(j: Json): Option<Finding> {
    if j.JObject? && "description" in j.fields && "severity" in j.fields
       && "recommendation" in j.fields && "pillar" in j.fields
       && j.fields["description"].JString? && j.fields["severity"].JString?
       && j.fields["recommendation"].JString? && j.fields["pillar"].JString?
    then Some(Finding(j.fields["description"].s, j.fields["severity"].s,
                      j.fields["recommendation"].s, j.fields["pillar"].s))
    else None
  }

  function FindingsOf(items: seq<Json>): Option<seq<Finding>> {
    if items == [] then Some([])
    else
      var f :- FindingOf(items[0]);
      var rest :- FindingsOf(items[1..]);
      Some([f] + rest)
  }

  /** Read an envelope back: its `issues` list, if every entry is a finding. */
  function IssuesOf(j: Json): Option<seq<Finding>> {
    if j.JObject? && "issues" in j.fields && j.fields["issues"].JArray?
    then FindingsOf(j.fields["issues"].items)
    else None
  }

  /** Reading an envelope gives back the findings it was built from. */
  lemma {:induction false} EnvelopeRoundTrip(findings: seq<Finding>)
    ensures IssuesOf(Envelope(findings)) == Some(findings)
  {
    FindingsRoundTrip(findings);
  }

  lemma {:induction false} FindingsRoundTrip(findings: seq<Finding>)
    ensures FindingsOf(seq(|findings|, i requires 0 <= i < |findings| => FindingToJson(findings[i])))
            == Some(findings)
  {
    var items := seq(|findings|, i requires 0 <= i < |findings| => FindingToJson(findings[i]));
    if findings != [] {
      var tail := findings[1..];
      FindingsRoundTrip(tail);
      assert items[1..] == seq(|tail|, i requires 0 <= i < |tail| => FindingToJson(tail[i]));
      assert FindingOf(items[0]) == Some(findings[0]);
      assert [findings[0]] + tail == findings;
    }
  }

  /** The synthetic issue for a reply that is not JSON. */
  function Fallback(clean: string, pillar: string): Json {
    Envelope([Finding(clean, "UNKNOWN", "Check manually", pillar)])
  }

  /** The `try: json.loads(clean_text) except: fallback` step, with the JSON
      parser given as `parse` (`None` where `json.loads` raises). It never
      fails: a parsed value is passed through unchecked, anything else becomes
      one issue describing the cleaned text. */
  function Normalize(clean: string, pillar: string, parse: string -> Option<Json>): (r: Json)
    ensures parse(clean).Some? ==> r == parse(clean).value
    ensures parse(clean).None? ==>
              r == JObject(map["issues" := JArray([JObject(map[
                     "description" := JString(clean),
                     "severity" := JString("UNKNOWN"),
                     "recommendation" := JString("Check manually"),
                     "pillar" := JString(pillar)])])])
    ensures parse(clean).None? ==>
              IssuesOf(r) == Some([Finding(clean, "UNKNOWN", "Check manually", pillar)])
  {
    FallbackObject(clean, pillar);
    EnvelopeRoundTrip([Finding(clean, "UNKNOWN", "Check manually", pillar)]);
    match parse(clean)
    case Some(parsed) => parsed
    case None => Fallback(clean, pillar)
  }

  /** The whole reply handling, from the reply text to the returned value. */
  function NormalizeReply(reply: string, pillar: string, parse: string -> Option<Json>): Json {
    Normalize(CleanText(reply), pillar, parse)
  }

  /** A trimmed reply without a backtick is left as it is. */
  lemma CleanTextPlain(reply: string)
    requires '`' !in reply && Trimmed(reply)
    ensures CleanText(reply) == reply
  {
    CleanTextWithoutBacktick(reply);
    StripPadded([], reply, []);
    assert [] + reply + [] == reply;
  }

  /** The fallback is the literal object of the source. */
  lemma FallbackObject(clean: string, pillar: string)
    ensures Fallback(clean, pillar)
            == JObject(map["issues" := JArray([JObject(map[
                 "description" := JString(clean),
                 "severity" := JString("UNKNOWN"),
                 "recommendation" := JString("Check manually"),
                 "pillar" := JString(pillar)])])])
  {
    var f := Finding(clean, "UNKNOWN", "Check manually", pillar);
    assert seq(1, i requires 0 <= i < 1 => FindingToJson([f][i])) == [FindingToJson(f)];
  }

  /** Free text becomes exactly the documented fallback object, with the
      reply as its description. */
  lemma NormalizeFreeText(parse: string -> Option<Json>, reply: string, pillar: string)
    requires '`' !in reply && Trimmed(reply)
    requires parse(reply) == None
    ensures NormalizeReply(reply, pillar, parse)
            == JObject(map["issues" := JArray([JObject(map[
                 "description" := JString(reply),
                 "severity" := JString("UNKNOWN"),
                 "recommendation" := JString("Check manually"),
                 "pillar" := JString(pillar)])])])
  {
    CleanTextPlain(reply);
    FallbackObject(reply, pillar);
  }

  /** A fenced JSON reply is parsed after its fences are removed, and the
      parsed value is returned as it is. */
  lemma NormalizeFencedJson(parse: string -> Option<Json>, body: string, pillar: string, parsed: Json)
    requires '\n' !in body && body != [] && Trimmed(body)
    requires !StartsWith(body, JsonFence) && !EndsWith(body, Fence)
    requires parse(body) == Some(parsed)
    ensures NormalizeReply(JsonFence + "\n" + body + "\n" + Fence, pillar, parse) == parsed
  {
    CleanTextFencedReply(body);
  }

  /** The free-text reply "not json at all" under the Security pillar. */
  lemma NormalizeNotJson(parse: string -> Option<Json>, reply: string)
    requires reply == "not json at all" && parse(reply) == None
    ensures NormalizeReply(reply, "Security", parse)
            == JObject(map["issues" := JArray([JObject(map[
                 "description" := JString("not json at all"),
                 "severity" := JString("UNKNOWN"),
                 "recommendation" := JString("Check manually"),
                 "pillar" := JString("Security")])])])
  {
    NormalizeFreeText(parse, reply, "Security");
  }
}
