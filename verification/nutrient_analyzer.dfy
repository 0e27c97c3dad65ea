/**
 * The nutrient analyser's reply parser (`parseNutrientResult`), its score
 * colour, and the guard of its analyse action.
 */
module NutrientAnalyzer {
  import opened Text
  import opened Numbers
  import opened Remote
  import opened ReportParser

  /** The record `parseNutrientResult` builds. */
  datatype NutrientReport = NutrientReport(
    deficiency: string, severity: string, healthScore: int,
    visualIndicators: seq<string>, correctiveMeasures: seq<string>, raw: string)

  function FromReport(r: Report): NutrientReport
    requires |r.fields| == 2 && |r.lists| == 2
  {
    NutrientReport(r.fields[0], r.fields[1], r.score, r.lists[0], r.lists[1], r.raw)
  }

  /** `parseNutrientResult(text)`. */
  function ParseNutrientResult(text: string): (r: NutrientReport)
    ensures r.raw == text
    ensures r.healthScore != 0
    ensures IsTrimmed(r.deficiency) && IsTrimmed(r.severity)
    ensures CleanItems(r.visualIndicators) && CleanItems(r.correctiveMeasures)
  {
    GrammarsWellFormed();
    var rep := Parse(NutrientGrammar, text);
    assert Sound(NutrientGrammar, Cursor(rep, None));
    assert CleanItems(rep.lists[0]) && CleanItems(rep.lists[1]);
    FromReport(rep)
  }

  /** A reply with no labelled line gives the documented defaults. */
  lemma ParseNutrientResultDefaults(text: string)
    requires forall i :: 0 <= i < |Split(text, '\n')| ==> !Recognized(NutrientGrammar, Split(text, '\n')[i])
    ensures ParseNutrientResult(text) == NutrientReport("Unknown", "Medium", 50, [], [], text)
  {
    GrammarsWellFormed();
    DefaultsWhenNothingRecognized(NutrientGrammar, text);
  }

  /** The whole record described line by line. */
  lemma ParseNutrientResultIsLastWrite(text: string)
    ensures var lines := Split(text, '\n');
      var r := ParseNutrientResult(text);
      && r.deficiency == LastFieldWrite(NutrientGrammar, lines, 0, "Unknown")
      && r.severity == LastFieldWrite(NutrientGrammar, lines, 1, "Medium")
      && r.healthScore == LastScoreWrite(NutrientGrammar, lines, DefaultScore)
      && r.visualIndicators == Collected(NutrientGrammar, lines, 0, None)
      && r.correctiveMeasures == Collected(NutrientGrammar, lines, 1, None)
  {
    GrammarsWellFormed();
    ParseFieldIsLastWrite(NutrientGrammar, text, 0);
    ParseFieldIsLastWrite(NutrientGrammar, text, 1);
    ParseScoreIsLastWrite(NutrientGrammar, text);
    ParseListIsCollected(NutrientGrammar, text, 0);
    ParseListIsCollected(NutrientGrammar, text, 1);
  }

  // ---------------------------------------------------------------------------
  // the severity and score lines

  const SeverityTag: string := "Severity Level:"
  const ScoreTag: string := "Health Score:"

  /** `Severity Level:`, some white space, a value. */
  function SeverityLineOf(ws: string, v: string): string {
    SeverityTag + ws + v
  }

  /** `Health Score:`, some white space, a number. */
  function ScoreLineOf(ws: string, n: nat): string {
    ScoreTag + ws + Decimal(n)
  }

  lemma SeverityLineTrimmed(ws: string, v: string)
    requires v != [] && IsTrimmed(v)
    ensures Trim(SeverityLineOf(ws, v)) == SeverityLineOf(ws, v)
  {
    var line := SeverityLineOf(ws, v);
    assert line[0] == 'S';
    assert line[|line| - 1] == v[|v| - 1];
    TrimOfPadded("", line, "");
    assert "" + line + "" == line;
  }

  lemma SeverityLineFirstRule(ws: string, v: string)
    ensures FirstRule(NutrientGrammar.rules, SeverityLineOf(ws, v)) == Some(Rule(SeverityTag, Field(1)))
  {
    var rules := NutrientGrammar.rules;
    var line := SeverityLineOf(ws, v);
    assert line[0] == 'S';
    OtherInitial(line, rules[0].tag);
    assert line == SeverityTag + (ws + v);
    PrefixOf(SeverityTag, ws + v);
    FirstRuleAt(rules, line, 1);
  }

  lemma SeverityRest(ws: string, v: string)
    requires AllSpace(ws) && v != [] && IsTrimmed(v)
    ensures Trim(SeverityLineOf(ws, v)[|SeverityTag|..]) == v
  {
    var line := SeverityLineOf(ws, v);
    assert line == SeverityTag + (ws + v);
    assert line[|SeverityTag|..] == ws + v;
    TrimOfPadded(ws, v, "");
    assert ws + v + "" == ws + v;
  }

  /** Unlike the disease scanner, the nutrient parser does not strip
      emphasis: a severity line stores whatever follows the label, only
      trimmed, `**` included. */
  lemma SeverityKeepsEmphasis(ws: string, v: string)
    requires AllSpace(ws) && v != [] && IsTrimmed(v)
    ensures FieldWrite(NutrientGrammar, SeverityLineOf(ws, v), 1) == Some(v)
    ensures FieldWrite(NutrientGrammar, SeverityLineOf(ws, v), 0) == None
    ensures ScoreWrite(NutrientGrammar, SeverityLineOf(ws, v)) == None
    ensures HeaderOf(NutrientGrammar, SeverityLineOf(ws, v)) == None
  {
    var line := SeverityLineOf(ws, v);
    SeverityLineTrimmed(ws, v);
    SeverityLineFirstRule(ws, v);
    RuleOfTrimmedLine(NutrientGrammar, line);
    WritesOfRule(NutrientGrammar, line, SeverityTag, Field(1));
    SeverityRest(ws, v);
  }

  lemma ScoreLineTrimmed(ws: string, n: nat)
    ensures Trim(ScoreLineOf(ws, n)) == ScoreLineOf(ws, n)
  {
    var line := ScoreLineOf(ws, n);
    var d := Decimal(n);
    assert line[0] == 'H';
    assert line[|line| - 1] == d[|d| - 1];
    TrimOfPadded("", line, "");
    assert "" + line + "" == line;
  }

  lemma ScoreLineFirstRule(ws: string, n: nat)
    ensures FirstRule(NutrientGrammar.rules, ScoreLineOf(ws, n)) == Some(Rule(ScoreTag, Score))
  {
    var rules := NutrientGrammar.rules;
    var line := ScoreLineOf(ws, n);
    assert line[0] == 'H';
    OtherInitial(line, rules[0].tag);
    OtherInitial(line, rules[1].tag);
    assert line == ScoreTag + (ws + Decimal(n));
    PrefixOf(ScoreTag, ws + Decimal(n));
    FirstRuleAt(rules, line, 2);
  }

  lemma ScoreRest(ws: string, n: nat)
    requires AllSpace(ws)
    ensures ScoreOf(ScoreLineOf(ws, n)[|ScoreTag|..]) == if n == 0 then DefaultScore else n
  {
    var line := ScoreLineOf(ws, n);
    assert line == ScoreTag + (ws + Decimal(n));
    assert line[|ScoreTag|..] == ws + Decimal(n);
    assert ws + Decimal(n) == ws + Decimal(n) + "";
    ScoreOfDecimal(ws, n, "");
  }

  /** A score line stores its number, and a literal 0 stores the default
      50. */
  lemma ScoreLineValue(ws: string, n: nat)
    requires AllSpace(ws)
    ensures ScoreWrite(NutrientGrammar, ScoreLineOf(ws, n)) == Some(if n == 0 then DefaultScore else n)
    ensures FieldWrite(NutrientGrammar, ScoreLineOf(ws, n), 0) == None
    ensures FieldWrite(NutrientGrammar, ScoreLineOf(ws, n), 1) == None
  {
    var line := ScoreLineOf(ws, n);
    ScoreLineTrimmed(ws, n);
    ScoreLineFirstRule(ws, n);
    ScoreLineWrites(NutrientGrammar, line, ScoreTag);
    ScoreRest(ws, n);
  }

  // ---------------------------------------------------------------------------
  // score colour

  /** The three ring colours of `getScoreColor`, worst first. */
  datatype Band = Rose | Amber | Emerald

  function BandClass(b: Band): string {
    match b
    case Emerald => "text-emerald-500 border-emerald-500"
    case Amber => "text-amber-500 border-amber-500"
    case Rose => "text-rose-500 border-rose-500"
  }

  function Rank(b: Band): nat {
    match b
    case Rose => 0
    case Amber => 1
    case Emerald => 2
  }

  /** `getScoreColor`: 80 and up is emerald, 50 to 79 amber, below 50
      rose. */
  function ScoreColor(score: int): (b: Band)
    ensures b == Emerald <==> score >= 80
    ensures b == Amber <==> 50 <= score < 80
    ensures b == Rose <==> score < 50
  {
    if score >= 80 then Emerald
    else if score >= 50 then Amber
    else Rose
  }

  /** A higher score never gets a worse colour. */
  lemma ScoreColorMonotone(a: int, b: int)
    requires a <= b
    ensures Rank(ScoreColor(a)) <= Rank(ScoreColor(b))
  {
  }

  /** The default score is shown amber. */
  lemma DefaultScoreIsAmber()
    ensures ScoreColor(DefaultScore) == Amber
  {
  }

  // ---------------------------------------------------------------------------
  // analyse

  /** The state the analyse action reads and writes: the uploaded image (a
      data URL), the busy flag, and the parsed result. */
  datatype AnalyzerState = AnalyzerState(image: Option<string>, loading: bool, result: Option<NutrientReport>)

  /** `if (!image) return;`: an image is present and is not the empty
      string. */
  predicate HasImage(st: AnalyzerState) {
    st.image.Some? && st.image.value != []
  }

  /** `handleAction()`, with the service's answer as a parameter: without an
      image (none, or an empty one) nothing happens; an answer (an empty one
      as "") is parsed into the result; a failure keeps the previous result.
      The busy flag is cleared either way. */
  function Analyze(st: AnalyzerState, reply: Reply): (st': AnalyzerState)
    ensures !HasImage(st) ==> st' == st
    ensures HasImage(st) ==> !st'.loading && st'.image == st.image
    ensures HasImage(st) && reply.Answered? ==> st'.result == Some(ParseNutrientResult(reply.text))
    ensures reply.Failed? ==> st'.result == st.result
  {
    if !HasImage(st) then st
    else
      match reply
      case Answered(t) => st.(loading := false, result := Some(ParseNutrientResult(OrElse(t, ""))))
      case Failed => st.(loading := false)
  }

  /** Analysing twice with the same answer is analysing once. */
  lemma AnalyzeIdempotent(st: AnalyzerState, reply: Reply)
    ensures Analyze(Analyze(st, reply), reply) == Analyze(st, reply)
  {
  }
}
