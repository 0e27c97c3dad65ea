/**
 * The disease scanner's reply parser (`parseAIResult`), its severity colour,
 * and the language switch of its translate action.
 */
module DiseaseScanner {
  import opened Text
  import opened Numbers
  import opened Markup
  import opened Remote
  import opened ReportParser

  /** The record `parseAIResult` builds. */
  datatype Diagnosis = Diagnosis(
    plantName: string, diagnosis: string, severity: string, healthScore: int,
    symptoms: seq<string>, prevention: seq<string>, organic: seq<string>, chemical: seq<string>,
    raw: string)

  function FromReport(r: Report): Diagnosis
    requires |r.fields| == 3 && |r.lists| == 4
  {
    Diagnosis(r.fields[0], r.fields[1], r.fields[2], r.score,
              r.lists[0], r.lists[1], r.lists[2], r.lists[3], r.raw)
  }

  /** `parseAIResult(text)`. */
  function ParseAIResult(text: string): (r: Diagnosis)
    ensures r.raw == text
    ensures r.healthScore != 0
    ensures IsTrimmed(r.plantName) && IsTrimmed(r.diagnosis) && IsTrimmed(r.severity)
    ensures CleanItems(r.symptoms) && CleanItems(r.prevention)
    ensures CleanItems(r.organic) && CleanItems(r.chemical)
  {
    GrammarsWellFormed();
    var rep := Parse(DiseaseGrammar, text);
    assert Sound(DiseaseGrammar, Cursor(rep, None));
    assert CleanItems(rep.lists[0]) && CleanItems(rep.lists[1]);
    assert CleanItems(rep.lists[2]) && CleanItems(rep.lists[3]);
    FromReport(rep)
  }

  /** A reply with no labelled line gives the documented defaults. */
  lemma ParseAIResultDefaults(text: string)
    requires forall i :: 0 <= i < |Split(text, '\n')| ==> !Recognized(DiseaseGrammar, Split(text, '\n')[i])
    ensures ParseAIResult(text)
            == Diagnosis("Unknown Plant", "Unknown Condition", "Medium", 50, [], [], [], [], text)
  {
    GrammarsWellFormed();
    DefaultsWhenNothingRecognized(DiseaseGrammar, text);
  }

  /** The whole record described line by line: each scalar is its last
      write, the score is its last write, and each list collects the items
      under its header. */
  lemma ParseAIResultIsLastWrite(text: string)
    ensures var lines := Split(text, '\n');
      var r := ParseAIResult(text);
      && r.plantName == LastFieldWrite(DiseaseGrammar, lines, 0, "Unknown Plant")
      && r.diagnosis == LastFieldWrite(DiseaseGrammar, lines, 1, "Unknown Condition")
      && r.severity == LastFieldWrite(DiseaseGrammar, lines, 2, "Medium")
      && r.healthScore == LastScoreWrite(DiseaseGrammar, lines, DefaultScore)
      && r.symptoms == Collected(DiseaseGrammar, lines, 0, None)
      && r.prevention == Collected(DiseaseGrammar, lines, 1, None)
      && r.organic == Collected(DiseaseGrammar, lines, 2, None)
      && r.chemical == Collected(DiseaseGrammar, lines, 3, None)
  {
    GrammarsWellFormed();
    ParseFieldIsLastWrite(DiseaseGrammar, text, 0);
    ParseFieldIsLastWrite(DiseaseGrammar, text, 1);
    ParseFieldIsLastWrite(DiseaseGrammar, text, 2);
    ParseScoreIsLastWrite(DiseaseGrammar, text);
    ParseListIsCollected(DiseaseGrammar, text, 0);
    ParseListIsCollected(DiseaseGrammar, text, 1);
    ParseListIsCollected(DiseaseGrammar, text, 2);
    ParseListIsCollected(DiseaseGrammar, text, 3);
  }

  // ---------------------------------------------------------------------------
  // a reply made of a score line and a severity line

  const ScoreTag: string := "HEALTH_SCORE:"
  const SeverityTag: string := "SEVERITY:"

  /** `HEALTH_SCORE:`, some white space, a number. */
  function ScoreLineOf(ws: string, n: nat): string {
    ScoreTag + ws + Decimal(n)
  }

  /** `SEVERITY:`, some white space, a value. */
  function SeverityLineOf(ws: string, v: string): string {
    SeverityTag + ws + v
  }

  lemma ScoreLineTrimmed(ws: string, n: nat)
    ensures Trim(ScoreLineOf(ws, n)) == ScoreLineOf(ws, n)
  {
    var line := ScoreLineOf(ws, n);
    var d := Decimal(n);
    assert line[0] == 'H';
    assert line[|line| - 1] == d[|d| - 1];
    TrimOfPadded("", line, "");
    assert "" + line + "" == line;
  }

  lemma ScoreLineFirstRule(ws: string, n: nat)
    ensures FirstRule(DiseaseGrammar.rules, ScoreLineOf(ws, n)) == Some(Rule(ScoreTag, Score))
  {
    var rules := DiseaseGrammar.rules;
    var line := ScoreLineOf(ws, n);
    assert line[0] == 'H';
    OtherInitial(line, rules[0].tag);
    OtherInitial(line, rules[1].tag);
    OtherInitial(line, rules[2].tag);
    assert line == ScoreTag + (ws + Decimal(n));
    PrefixOf(ScoreTag, ws + Decimal(n));
    FirstRuleAt(rules, line, 3);
  }

  /** A score line followed by a positive number stores that number. */
  lemma ScoreLineValue(ws: string, n: nat)
    requires AllSpace(ws) && n > 0
    ensures ScoreWrite(DiseaseGrammar, ScoreLineOf(ws, n)) == Some(n)
    ensures FieldWrite(DiseaseGrammar, ScoreLineOf(ws, n), 0) == None
    ensures FieldWrite(DiseaseGrammar, ScoreLineOf(ws, n), 1) == None
    ensures ItemOf(DiseaseGrammar, ScoreLineOf(ws, n)) == None
  {
    var line := ScoreLineOf(ws, n);
    ScoreLineTrimmed(ws, n);
    ScoreLineFirstRule(ws, n);
    ScoreLineWrites(DiseaseGrammar, line, ScoreTag);
    ScoreLineRest(ws, n);
  }

  lemma ScoreLineRest(ws: string, n: nat)
    requires AllSpace(ws) && n > 0
    ensures ScoreOf(ScoreLineOf(ws, n)[|ScoreTag|..]) == n
  {
    var line := ScoreLineOf(ws, n);
    assert line == ScoreTag + (ws + Decimal(n));
    assert line[|ScoreTag|..] == ws + Decimal(n);
    assert ws + Decimal(n) == ws + Decimal(n) + "";
    ScoreOfDecimal(ws, n, "");
  }

  lemma SeverityLineTrimmed(ws: string, v: string)
    requires v != [] && IsTrimmed(v)
    ensures Trim(SeverityLineOf(ws, v)) == SeverityLineOf(ws, v)
  {
    var line := SeverityLineOf(ws, v);
    assert line[0] == 'S';
    assert line[|line| - 1] == v[|v| - 1];
    TrimOfPadded("", line, "");
    assert "" + line + "" == line;
  }

  lemma SeverityLineFirstRule(ws: string, v: string)
    ensures FirstRule(DiseaseGrammar.rules, SeverityLineOf(ws, v)) == Some(Rule(SeverityTag, Field(2)))
  {
    var rules := DiseaseGrammar.rules;
    var line := SeverityLineOf(ws, v);
    assert line[0] == 'S';
    OtherInitial(line, rules[0].tag);
    OtherInitial(line, rules[1].tag);
    assert line == SeverityTag + (ws + v);
    PrefixOf(SeverityTag, ws + v);
    FirstRuleAt(rules, line, 2);
  }

  /** A severity line stores its value, cleaned, in the severity field and
      nowhere else. */
  lemma SeverityLineValue(ws: string, v: string)
    requires AllSpace(ws) && v != [] && IsTrimmed(v)
    requires '*' !in v && '#' !in v && '-' !in v
    ensures FieldWrite(DiseaseGrammar, SeverityLineOf(ws, v), 2) == Some(v)
    ensures FieldWrite(DiseaseGrammar, SeverityLineOf(ws, v), 0) == None
    ensures FieldWrite(DiseaseGrammar, SeverityLineOf(ws, v), 1) == None
    ensures ScoreWrite(DiseaseGrammar, SeverityLineOf(ws, v)) == None
    ensures ItemOf(DiseaseGrammar, SeverityLineOf(ws, v)) == None
  {
    var line := SeverityLineOf(ws, v);
    SeverityLineTrimmed(ws, v);
    SeverityLineFirstRule(ws, v);
    RuleOfTrimmedLine(DiseaseGrammar, line);
    WritesOfRule(DiseaseGrammar, line, SeverityTag, Field(2));
    SeverityValue(ws, v);
  }

  lemma SeverityValue(ws: string, v: string)
    requires AllSpace(ws) && v != [] && IsTrimmed(v)
    requires '*' !in v && '#' !in v && '-' !in v
    ensures CleanText(SeverityLineOf(ws, v)[|SeverityTag|..], DiseaseBullet) == v
  {
    assert SeverityLineOf(ws, v) == SeverityTag + (ws + v);
    assert SeverityLineOf(ws, v)[|SeverityTag|..] == ws + v;
    PaddedIsPlain(ws, v);
    CleanTextOfPlain(ws + v, DiseaseBullet);
    PaddedTrim(ws, v);
  }

  lemma PaddedIsPlain(ws: string, v: string)
    requires AllSpace(ws) && '*' !in v && '#' !in v && '-' !in v
    ensures '*' !in ws + v && '#' !in ws + v && '-' !in ws + v
  {
    forall c | c in ws
      ensures c != '*' && c != '#' && c != '-'
    {
      var i :| 0 <= i < |ws| && ws[i] == c;
      assert IsSpace(ws[i]);
    }
  }

  lemma PaddedTrim(ws: string, v: string)
    requires AllSpace(ws) && v != [] && IsTrimmed(v)
    ensures Trim(ws + v) == v
  {
    TrimOfPadded(ws, v, "");
    assert ws + v + "" == ws + v;
  }

  /** A reply with a score line and then a severity line sets exactly those
      two fields and keeps every other default. */
  lemma ScoreAndSeverityReply(ws1: string, n: nat, ws2: string, v: string)
    requires AllSpace(ws1) && '\n' !in ws1 && n > 0
    requires AllSpace(ws2) && '\n' !in ws2
    requires v != [] && IsTrimmed(v) && '\n' !in v
    requires '*' !in v && '#' !in v && '-' !in v
    ensures var r := ParseAIResult(ScoreLineOf(ws1, n) + "\n" + SeverityLineOf(ws2, v));
      && r.healthScore == n && r.severity == v
      && r.plantName == "Unknown Plant" && r.diagnosis == "Unknown Condition"
      && r.symptoms == [] && r.prevention == [] && r.organic == [] && r.chemical == []
  {
    var l1 := ScoreLineOf(ws1, n);
    var l2 := SeverityLineOf(ws2, v);
    var text := l1 + "\n" + l2;
    ScenarioLines(ws1, n, ws2, v);
    ParseAIResultIsLastWrite(text);
    ScoreLineValue(ws1, n);
    SeverityLineValue(ws2, v);
    TwoLineField(DiseaseGrammar, l1, l2, 0, "Unknown Plant");
    TwoLineField(DiseaseGrammar, l1, l2, 1, "Unknown Condition");
    TwoLineField(DiseaseGrammar, l1, l2, 2, "Medium");
    TwoLineScore(DiseaseGrammar, l1, l2, DefaultScore);
    TwoLinesNoItems(DiseaseGrammar, l1, l2, 0);
    TwoLinesNoItems(DiseaseGrammar, l1, l2, 1);
    TwoLinesNoItems(DiseaseGrammar, l1, l2, 2);
    TwoLinesNoItems(DiseaseGrammar, l1, l2, 3);
  }

  lemma ScenarioLines(ws1: string, n: nat, ws2: string, v: string)
    requires '\n' !in ws1 && '\n' !in ws2 && '\n' !in v
    ensures Split(ScoreLineOf(ws1, n) + "\n" + SeverityLineOf(ws2, v), '\n')
            == [ScoreLineOf(ws1, n), SeverityLineOf(ws2, v)]
  {
    var l1 := ScoreLineOf(ws1, n);
    var l2 := SeverityLineOf(ws2, v);
    NoNewline(ScoreTag, ws1, Decimal(n));
    NoNewline(SeverityTag, ws2, v);
    var pieces := [l1, l2];
    assert Join(pieces, '\n') == l1 + "\n" + l2;
    SplitJoin(pieces, '\n');
  }

  lemma NoNewline(tag: string, ws: string, v: string)
    requires '\n' !in tag && '\n' !in ws && '\n' !in v
    ensures '\n' !in tag + ws + v
  {
  }

  // ---------------------------------------------------------------------------
  // severity colour

  /** The three badge colours of `getSeverityColor`. */
  datatype Tone = Rose | Amber | Emerald

  /** The class string each colour stands for. */
  function ToneClass(t: Tone): string {
    match t
    case Rose => "bg-rose-100 text-rose-700"
    case Amber => "bg-amber-100 text-amber-700"
    case Emerald => "bg-emerald-100 text-emerald-700"
  }

  /** `getSeverityColor`: "high" anywhere, in any case, is rose; otherwise
      "medium" anywhere is amber; anything else is emerald. */
  function SeverityColor(severity: string): (t: Tone)
    ensures t == Rose <==> Contains(ToLower(severity), "high")
    ensures t == Amber <==> !Contains(ToLower(severity), "high") && Contains(ToLower(severity), "medium")
  {
    var s := ToLower(severity);
    if Contains(s, "high") then Rose
    else if Contains(s, "medium") then Amber
    else Emerald
  }

  /** The colour does not depend on letter case. */
  lemma SeverityColorIgnoresCase(severity: string)
    ensures SeverityColor(ToUpper(severity)) == SeverityColor(severity)
    ensures SeverityColor(ToLower(severity)) == SeverityColor(severity)
  {
    ToLowerOfUpper(severity);
    ToLowerIdempotent(severity);
  }

  /** "high" wins over "medium" when both occur. */
  lemma HighWinsOverMedium(severity: string)
    requires Contains(ToLower(severity), "high") && Contains(ToLower(severity), "medium")
    ensures SeverityColor(severity) == Rose
  {
  }

  // ---------------------------------------------------------------------------
  // translate

  /** The part of the scanner's state the translate action reads and
      writes. `originalRaw` is the untranslated reply, `null` before any
      analysis. */
  datatype ScanState = ScanState(result: Option<Diagnosis>, originalRaw: Option<string>, translating: bool)

  /** `handleTranslate(lang)`, with the translation service's answer as a
      parameter. Nothing happens without a non-empty original reply or while
      a translation runs. English re-parses the original; another language
      parses the translation (an empty one as ""); a failed translation
      leaves the result as it was. */
  function Translate(st: ScanState, lang: string, reply: Reply): (st': ScanState)
    ensures st'.originalRaw == st.originalRaw && st'.translating == st.translating
    ensures st.originalRaw.None? || st.originalRaw.value == [] || st.translating ==> st' == st
    ensures st.originalRaw.Some? && st.originalRaw.value != [] && !st.translating && lang == "English" ==>
              st'.result == Some(ParseAIResult(st.originalRaw.value))
    ensures st.originalRaw.Some? && st.originalRaw.value != [] && !st.translating && lang != "English" ==>
              st'.result == (if reply.Failed? then st.result else Some(ParseAIResult(reply.text)))
  {
    if st.originalRaw.None? || st.originalRaw.value == [] || st.translating then st
    else if lang == "English" then
      st.(result := Some(ParseAIResult(st.originalRaw.value)))
    else
      match reply
      case Answered(t) =>
        var parsed := ParseAIResult(OrElse(t, ""));
        st.(result := Some(parsed.(raw := OrElse(t, parsed.raw))))
      case Failed => st
  }

  /** Switching back to English after any translation restores the parse of
      the original reply, as if no translation had happened. */
  lemma EnglishUndoesTranslation(st: ScanState, lang: string, reply: Reply, reply2: Reply)
    ensures Translate(Translate(st, lang, reply), "English", reply2) == Translate(st, "English", reply2)
  {
  }
}
