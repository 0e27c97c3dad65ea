/**
 * The line-oriented reply parser behind the disease scanner's
 * `parseAIResult` and the nutrient analyser's `parseNutrientResult`.
 *
 * Both split the reply at '\n', trim each line and skip blank ones. A line
 * that starts with a known label either sets a scalar field, sets the health
 * score (`parseInt(..) || 50`), or selects the current list section; any
 * other line that starts with `-` or with digits and a dot is a list item,
 * appended to the current section when there is one and the cleaned item is
 * not empty. Everything else is ignored. The two parsers differ only in their
 * label table, their defaults, and how they clean values, so the parser is
 * written once over a `Dialect`.
 */
module ReportParser {
  import opened Text
  import opened Numbers
  import opened Markup

  datatype Dialect = Disease | Nutrient

  /** What a labelled line does: set scalar field `slot`, set the score, or
      make list `slot` the current section. */
  datatype Target = Field(slot: nat) | Score | Header(slot: nat)

  datatype Rule = Rule(tag: string, target: Target)

  /** A parser's configuration: its dialect (which decides how values are
      cleaned), its label tests in the order the source tries them, the
      initial value of each scalar field, and its number of lists. */
  datatype Grammar = Grammar(dialect: Dialect, rules: seq<Rule>, defaults: seq<string>, lists: nat)

  predicate RuleFits(g: Grammar, r: Rule) {
    match r.target
    case Field(k) => k < |g.defaults|
    case Score => true
    case Header(k) => k < g.lists
  }

  /** Every rule names a field or list the grammar has, and every default is
      already trimmed. */
  predicate WellFormed(g: Grammar) {
    && (forall i :: 0 <= i < |g.rules| ==> RuleFits(g, g.rules[i]))
    && (forall k :: 0 <= k < |g.defaults| ==> IsTrimmed(g.defaults[k]))
  }

  /** The disease scanner's table (`parseAIResult`). */
  const DiseaseGrammar: Grammar := Grammar(
    Disease,
    [ Rule("PLANT_NAME:", Field(0)), Rule("DIAGNOSIS:", Field(1)), Rule("SEVERITY:", Field(2)),
      Rule("HEALTH_SCORE:", Score),
      Rule("SYMPTOMS:", Header(0)), Rule("PREVENTION:", Header(1)),
      Rule("ORGANIC_TREATMENT:", Header(2)), Rule("CHEMICAL_TREATMENT:", Header(3)) ],
    ["Unknown Plant", "Unknown Condition", "Medium"],
    4)

  /** The nutrient analyser's table (`parseNutrientResult`). */
  const NutrientGrammar: Grammar := Grammar(
    Nutrient,
    [ Rule("Detected Nutrient Deficiency:", Field(0)), Rule("Severity Level:", Field(1)),
      Rule("Health Score:", Score),
      Rule("Visual Indicators Observed:", Header(0)),
      Rule("Recommended Corrective Measures:", Header(1)) ],
    ["Unknown", "Medium"],
    2)

  lemma GrammarsWellFormed()
    ensures WellFormed(DiseaseGrammar) && WellFormed(NutrientGrammar)
  {
    TrimmedDefault("Unknown Plant");
    TrimmedDefault("Unknown Condition");
    TrimmedDefault("Medium");
    TrimmedDefault("Unknown");
  }

  lemma TrimmedDefault(s: string)
    requires |s| > 0 && s[0] in "UM" && s[|s| - 1] in "tnm"
    ensures IsTrimmed(s)
  {
  }

  /** The value a scalar line stores: the disease scanner runs its
      `cleanText`, the nutrient analyser only trims. */
  function CleanScalar(g: Grammar, rest: string): (v: string)
    ensures IsTrimmed(v)
    ensures g.dialect == Disease ==> v == CleanText(rest, DiseaseBullet)
    ensures g.dialect == Nutrient ==> v == Trim(rest)
  {
    match g.dialect
    case Disease => CleanText(rest, DiseaseBullet)
    case Nutrient => Trim(rest)
  }

  /** The text an item line contributes: the leading marker run is dropped,
      then the disease scanner runs `cleanText` and the nutrient analyser
      trims. */
  function CleanItem(g: Grammar, t: string): (v: string)
    ensures IsTrimmed(v)
    ensures g.dialect == Disease ==> v == CleanText(StripItemMarker(t), DiseaseBullet)
    ensures g.dialect == Nutrient ==> v == Trim(StripItemMarker(t))
  {
    var body := StripItemMarker(t);
    match g.dialect
    case Disease => CleanText(body, DiseaseBullet)
    case Nutrient => Trim(body)
  }

  /** The parsed record, generic over the dialect: scalar fields by slot, the
      score, the lists by slot, and the reply it came from. */
  datatype Report = Report(fields: seq<string>, score: int, lists: seq<seq<string>>, raw: string)

  /** Parser state between lines: the record so far and the current section. */
  datatype Cursor = Cursor(report: Report, section: Option<nat>)

  /** The record and the section index have the dialect's shape. */
  predicate Fits(g: Grammar, c: Cursor) {
    && WellFormed(g)
    && |c.report.fields| == |g.defaults|
    && |c.report.lists| == g.lists
    && (c.section.Some? ==> c.section.value < g.lists)
  }

  /** What every reachable state satisfies: scalar values are trimmed, the
      score is never zero, and every list item is a non-empty trimmed
      string. */
  predicate Sound(g: Grammar, c: Cursor) {
    && Fits(g, c)
    && c.report.score != 0
    && (forall k :: 0 <= k < |c.report.fields| ==> IsTrimmed(c.report.fields[k]))
    && (forall k :: 0 <= k < |c.report.lists| ==> CleanItems(c.report.lists[k]))
  }

  /** Every entry is non-empty and trimmed. */
  predicate CleanItems(xs: seq<string>) {
    forall i :: 0 <= i < |xs| ==> xs[i] != [] && IsTrimmed(xs[i])
  }

  function EmptyLists(n: nat): (ls: seq<seq<string>>)
    ensures |ls| == n
    ensures forall k :: 0 <= k < n ==> ls[k] == []
  {
    seq(n, _ => [])
  }

  /** The all-defaults record for a reply. */
  function Defaults(g: Grammar, text: string): Report {
    Report(g.defaults, DefaultScore, EmptyLists(g.lists), text)
  }

  /** Before the first line: defaults and no section. */
  function Start(g: Grammar, text: string): (c: Cursor)
    requires WellFormed(g)
    ensures Sound(g, c)
  {
    Cursor(Defaults(g, text), None)
  }

  /** The first rule whose label the line starts with. */
  function FirstRule(rules: seq<Rule>, t: string): (r: Option<Rule>)
    ensures r.Some? ==> r.value in rules && StartsWith(t, r.value.tag)
    ensures r.None? <==> forall i :: 0 <= i < |rules| ==> !StartsWith(t, rules[i].tag)
    ensures r.Some? ==> exists i :: 0 <= i < |rules| && rules[i] == r.value
                          && forall j :: 0 <= j < i ==> !StartsWith(t, rules[j].tag)
  {
    if |rules| == 0 then None
    else if StartsWith(t, rules[0].tag) then Some(rules[0])
    else
      var r := FirstRule(rules[1..], t);
      if r.Some? then
        var i :| 0 <= i < |rules[1..]| && rules[1..][i] == r.value
                 && forall j :: 0 <= j < i ==> !StartsWith(t, rules[1..][j].tag);
        assert rules[i + 1] == r.value;
        r
      else
        r
  }

  /** The rule a line matches, after trimming. */
  function RuleOf(g: Grammar, line: string): (r: Option<Rule>)
    ensures r.Some? ==> Trim(line) != []
  {
    var t := Trim(line);
    if t == [] then None else FirstRule(g.rules, t)
  }

  /** `trimmed.startsWith('-') || trimmed.match(/^\d+\./)`. */
  predicate IsItemLine(t: string): (b: bool)
    ensures b ==> |t| > 0 && (t[0] == '-' || IsDigit(t[0]))
    ensures |t| > 0 && t[0] == '-' ==> b
  {
    StartsWith(t, "-") || StartsWithNumbering(t)
  }

  /** The item a line contributes, if it is an item line (checked after the
      labels) whose cleaned text is not empty. */
  function ItemOf(g: Grammar, line: string): (r: Option<string>)
    ensures r.Some? ==> r.value != [] && IsTrimmed(r.value)
  {
    var t := Trim(line);
    if t != [] && RuleOf(g, line).None? && IsItemLine(t) && CleanItem(g, t) != [] then
      Some(CleanItem(g, t))
    else
      None
  }

  /** A rule found in a well-formed grammar names a slot the grammar has. */
  lemma RuleOfFits(g: Grammar, line: string)
    requires WellFormed(g)
    ensures RuleOf(g, line).Some? ==> RuleFits(g, RuleOf(g, line).value)
  {
  }

  function Apply(g: Grammar, c: Cursor, rule: Rule, rest: string): (c': Cursor)
    requires Sound(g, c) && RuleFits(g, rule)
    ensures Sound(g, c')
    ensures c'.report.raw == c.report.raw
    ensures c'.report.lists == c.report.lists
    ensures !rule.target.Field? ==> c'.report.fields == c.report.fields
    ensures !rule.target.Score? ==> c'.report.score == c.report.score
    ensures !rule.target.Header? ==> c'.section == c.section
  {
    match rule.target
    case Field(k) => c.(report := c.report.(fields := c.report.fields[k := CleanScalar(g, rest)]))
    case Score => c.(report := c.report.(score := ScoreOf(rest)))
    case Header(k) => c.(section := Some(k))
  }

  /** `data[currentSection].push(item)`, when there is a current section. */
  function AddItem(g: Grammar, c: Cursor, item: string): (c': Cursor)
    requires Sound(g, c) && item != [] && IsTrimmed(item)
    ensures Sound(g, c')
    ensures c'.report.raw == c.report.raw
    ensures c'.report.fields == c.report.fields && c'.report.score == c.report.score
    ensures c'.section == c.section
  {
    if c.section.Some? then
      var k := c.section.value;
      var grown := c.report.lists[k] + [item];
      assert CleanItems(grown) by {
        forall i | 0 <= i < |grown|
          ensures grown[i] != [] && IsTrimmed(grown[i])
        {
          if i < |c.report.lists[k]| {
            assert grown[i] == c.report.lists[k][i];
          }
        }
      }
      c.(report := c.report.(lists := c.report.lists[k := grown]))
    else
      c
  }

  /** One line of the `forEach` loop. */
  function Step(g: Grammar, c: Cursor, line: string): (c': Cursor)
    requires Sound(g, c)
    ensures Sound(g, c')
    ensures c'.report.raw == c.report.raw
  {
    var t := Trim(line);
    if t == [] then c
    else
      match RuleOf(g, line)
      case Some(rule) =>
        RuleOfFits(g, line);
        Apply(g, c, rule, RemoveFirst(t, rule.tag))
      case None =>
        match ItemOf(g, line)
        case Some(item) => AddItem(g, c, item)
        case None => c
  }

  /** The `forEach` over the lines, first to last. */
  function Run(g: Grammar, c: Cursor, lines: seq<string>): (c': Cursor)
    requires Sound(g, c)
    ensures Sound(g, c')
    ensures c'.report.raw == c.report.raw
    decreases |lines|
  {
    if |lines| == 0 then c else Run(g, Step(g, c, lines[0]), lines[1..])
  }

  /** The whole parser: defaults, then every line of the reply. */
  function Parse(g: Grammar, text: string): (r: Report)
    requires WellFormed(g)
    ensures r.raw == text
    ensures Sound(g, Cursor(r, None))
  {
    Run(g, Start(g, text), Split(text, '\n')).report
  }

  // ---------------------------------------------------------------------------
  // running over concatenated lines

  lemma {:induction false} RunAppend(g: Grammar, c: Cursor, a: seq<string>, b: seq<string>)
    requires Sound(g, c)
    ensures Run(g, c, a + b) == Run(g, Run(g, c, a), b)
    decreases |a|
  {
    if |a| == 0 {
      assert a + b == b;
    } else {
      assert (a + b)[0] == a[0];
      assert (a + b)[1..] == a[1..] + b;
      RunAppend(g, Step(g, c, a[0]), a[1..], b);
    }
  }

  /** Running one more line is one more step. */
  lemma RunSnoc(g: Grammar, c: Cursor, a: seq<string>, line: string)
    requires Sound(g, c)
    ensures Run(g, c, a + [line]) == Step(g, Run(g, c, a), line)
  {
    RunAppend(g, c, a, [line]);
    assert [line][1..] == [];
  }

  // ---------------------------------------------------------------------------
  // one line at a time

  /** Blank and white-space-only lines change nothing, not even the section. */
  lemma BlankLineIgnored(g: Grammar, c: Cursor, line: string)
    requires Sound(g, c) && AllSpace(line)
    ensures Step(g, c, line) == c
  {
  }

  /** A scalar line sets its own field to the cleaned text after the label,
      and nothing else: not the other fields, the score, the lists, or the
      section. */
  lemma FieldLineSetsOnlyItsField(g: Grammar, c: Cursor, line: string, tag: string, k: nat)
    requires Sound(g, c)
    requires RuleOf(g, line) == Some(Rule(tag, Field(k)))
    ensures k < |c.report.fields|
    ensures Step(g, c, line)
            == c.(report := c.report.(fields := c.report.fields[k := CleanScalar(g, Trim(line)[|tag|..])]))
  {
    RuleOfFits(g, line);
    RemoveFirstOfPrefix(Trim(line), tag);
  }

  /** A score line stores `parseInt(rest) || 50` and nothing else. */
  lemma ScoreLineSetsOnlyScore(g: Grammar, c: Cursor, line: string, tag: string)
    requires Sound(g, c)
    requires RuleOf(g, line) == Some(Rule(tag, Score))
    ensures Step(g, c, line) == c.(report := c.report.(score := ScoreOf(Trim(line)[|tag|..])))
  {
    RemoveFirstOfPrefix(Trim(line), tag);
  }

  /** A header line only switches the current section. */
  lemma HeaderLineSelectsSection(g: Grammar, c: Cursor, line: string, tag: string, k: nat)
    requires Sound(g, c)
    requires RuleOf(g, line) == Some(Rule(tag, Header(k)))
    ensures k < |c.report.lists|
    ensures Step(g, c, line) == c.(section := Some(k))
  {
    RuleOfFits(g, line);
  }

  /** A line with no label appends its item to the current section; it
      changes nothing when it is not an item line, when its cleaned item is
      empty, or when there is no section yet. */
  lemma ItemLineAppends(g: Grammar, c: Cursor, line: string)
    requires Sound(g, c)
    requires RuleOf(g, line).None?
    ensures ItemOf(g, line).Some? && c.section.Some? ==>
      Step(g, c, line) == c.(report := c.report.(lists :=
        c.report.lists[c.section.value := c.report.lists[c.section.value] + [ItemOf(g, line).value]]))
    ensures ItemOf(g, line).None? || c.section.None? ==> Step(g, c, line) == c
  {
  }

  /** The value line `line` writes into scalar field `k`, if it writes one. */
  function FieldWrite(g: Grammar, line: string, k: nat): Option<string> {
    match RuleOf(g, line)
    case Some(Rule(tag, Field(j))) =>
      if j == k then Some(CleanScalar(g, Trim(line)[|tag|..])) else None
    case _ => None
  }

  /** The score line `line` writes, if it is one. */
  function ScoreWrite(g: Grammar, line: string): Option<int> {
    match RuleOf(g, line)
    case Some(Rule(tag, Score)) => Some(ScoreOf(Trim(line)[|tag|..]))
    case _ => None
  }

  /** The section a header line selects, if it is one. */
  function HeaderOf(g: Grammar, line: string): Option<nat> {
    match RuleOf(g, line)
    case Some(Rule(_, Header(k))) => Some(k)
    case _ => None
  }

  /** One step, seen component by component. */
  lemma StepEffects(g: Grammar, c: Cursor, line: string)
    requires Sound(g, c)
    ensures forall k :: 0 <= k < |c.report.fields| ==>
      Step(g, c, line).report.fields[k]
        == (if FieldWrite(g, line, k).Some? then FieldWrite(g, line, k).value else c.report.fields[k])
    ensures Step(g, c, line).report.score
        == (if ScoreWrite(g, line).Some? then ScoreWrite(g, line).value else c.report.score)
    ensures Step(g, c, line).section
        == (if HeaderOf(g, line).Some? then HeaderOf(g, line) else c.section)
    ensures forall k :: 0 <= k < |c.report.lists| ==>
      Step(g, c, line).report.lists[k]
        == c.report.lists[k]
           + (if ItemOf(g, line).Some? && c.section == Some(k) then [ItemOf(g, line).value] else [])
  {
    StepFields(g, c, line);
    StepScore(g, c, line);
    StepSection(g, c, line);
    StepLists(g, c, line);
  }

  /** What each kind of line leaves alone: a labelled line keeps the lists
      and every component its target does not name; any other line keeps
      the fields, the score and the section. */
  lemma StepFrame(g: Grammar, c: Cursor, line: string)
    requires Sound(g, c)
    ensures RuleOf(g, line).Some? ==> Step(g, c, line).report.lists == c.report.lists
    ensures RuleOf(g, line).Some? && !RuleOf(g, line).value.target.Field? ==>
      Step(g, c, line).report.fields == c.report.fields
    ensures RuleOf(g, line).Some? && !RuleOf(g, line).value.target.Score? ==>
      Step(g, c, line).report.score == c.report.score
    ensures RuleOf(g, line).Some? && !RuleOf(g, line).value.target.Header? ==>
      Step(g, c, line).section == c.section
    ensures RuleOf(g, line).None? ==>
      && Step(g, c, line).report.fields == c.report.fields
      && Step(g, c, line).report.score == c.report.score
      && Step(g, c, line).section == c.section
  {
  }

  /** The scalar part of one step: only the field the line's label names
      changes. */
  lemma StepFields(g: Grammar, c: Cursor, line: string)
    requires Sound(g, c)
    ensures forall k :: 0 <= k < |c.report.fields| ==>
      Step(g, c, line).report.fields[k]
        == (if FieldWrite(g, line, k).Some? then FieldWrite(g, line, k).value else c.report.fields[k])
  {
    StepFrame(g, c, line);
    var after := Step(g, c, line).report.fields;
    match RuleOf(g, line)
    case Some(Rule(tag, target)) =>
      WritesOfRule(g, line, tag, target);
      if target.Field? {
        FieldLineSetsOnlyItsField(g, c, line, tag, target.slot);
        var v := CleanScalar(g, Trim(line)[|tag|..]);
        assert after == c.report.fields[target.slot := v];
        forall k | 0 <= k < |c.report.fields|
          ensures after[k] == (if FieldWrite(g, line, k).Some? then FieldWrite(g, line, k).value else c.report.fields[k])
        {
          assert FieldWrite(g, line, k) == if k == target.slot then Some(v) else None;
        }
      } else {
        assert after == c.report.fields;
        forall k | 0 <= k < |c.report.fields|
          ensures after[k] == (if FieldWrite(g, line, k).Some? then FieldWrite(g, line, k).value else c.report.fields[k])
        {
          assert FieldWrite(g, line, k) == None;
        }
      }
    case None =>
      assert after == c.report.fields;
  }

  /** The score after one step. */
  lemma StepScore(g: Grammar, c: Cursor, line: string)
    requires Sound(g, c)
    ensures Step(g, c, line).report.score
        == (if ScoreWrite(g, line).Some? then ScoreWrite(g, line).value else c.report.score)
  {
    StepFrame(g, c, line);
    match RuleOf(g, line)
    case Some(Rule(tag, target)) =>
      WritesOfRule(g, line, tag, target);
      if target.Score? {
        ScoreLineSetsOnlyScore(g, c, line, tag);
      }
    case None =>
  }

  /** The section after one step. */
  lemma StepSection(g: Grammar, c: Cursor, line: string)
    requires Sound(g, c)
    ensures Step(g, c, line).section
        == (if HeaderOf(g, line).Some? then HeaderOf(g, line) else c.section)
  {
    StepFrame(g, c, line);
    match RuleOf(g, line)
    case Some(Rule(tag, target)) =>
      WritesOfRule(g, line, tag, target);
      if target.Header? {
        HeaderLineSelectsSection(g, c, line, tag, target.slot);
      }
    case None =>
  }

  /** The lists part of one step: only the current section can grow, by the
      line's item. */
  lemma StepLists(g: Grammar, c: Cursor, line: string)
    requires Sound(g, c)
    ensures forall k :: 0 <= k < |c.report.lists| ==>
      Step(g, c, line).report.lists[k]
        == c.report.lists[k]
           + (if ItemOf(g, line).Some? && c.section == Some(k) then [ItemOf(g, line).value] else [])
  {
    match RuleOf(g, line)
    case Some(Rule(tag, target)) =>
      WritesOfRule(g, line, tag, target);
      assert Step(g, c, line).report.lists == c.report.lists by {
        match target
        case Field(j) => FieldLineSetsOnlyItsField(g, c, line, tag, j);
        case Score => ScoreLineSetsOnlyScore(g, c, line, tag);
        case Header(j) => HeaderLineSelectsSection(g, c, line, tag, j);
      }
    case None =>
      ItemLineAppends(g, c, line);
  }

  // ---------------------------------------------------------------------------
  // whole replies, stated against independent descriptions

  /** True when a line carries one of the dialect's labels. */
  predicate Recognized(g: Grammar, line: string) {
    RuleOf(g, line).Some?
  }

  /** With no section selected, lines that carry no label change nothing. */
  lemma {:induction false} UnrecognizedLinesChangeNothing(g: Grammar, c: Cursor, lines: seq<string>)
    requires Sound(g, c) && c.section.None?
    requires forall i :: 0 <= i < |lines| ==> !Recognized(g, lines[i])
    ensures Run(g, c, lines) == c
    decreases |lines|
  {
    if |lines| > 0 {
      assert !Recognized(g, lines[0]);
      ItemLineAppends(g, c, lines[0]);
      UnrecognizedLinesChangeNothing(g, c, lines[1..]);
    }
  }

  /** A reply in which no line carries a label parses to the all-defaults
      record, items included: without a header they have nowhere to go. */
  lemma DefaultsWhenNothingRecognized(g: Grammar, text: string)
    requires WellFormed(g)
    requires forall i :: 0 <= i < |Split(text, '\n')| ==> !Recognized(g, Split(text, '\n')[i])
    ensures Parse(g, text) == Defaults(g, text)
  {
    UnrecognizedLinesChangeNothing(g, Start(g, text), Split(text, '\n'));
  }

  /** The value the LAST line writing field `k` wrote, or `initial`. */
  function LastFieldWrite(g: Grammar, lines: seq<string>, k: nat, initial: string): string
    decreases |lines|
  {
    if |lines| == 0 then initial
    else
      match FieldWrite(g, lines[|lines| - 1], k)
      case Some(v) => v
      case None => LastFieldWrite(g, lines[..|lines| - 1], k, initial)
  }

  /** Each scalar field ends up with the value of the last line carrying its
      label, whatever other lines come between; with no such line it keeps
      its value. */
  lemma {:induction false} FieldIsLastWrite(g: Grammar, c: Cursor, lines: seq<string>, k: nat)
    requires Sound(g, c) && k < |c.report.fields|
    ensures Run(g, c, lines).report.fields[k] == LastFieldWrite(g, lines, k, c.report.fields[k])
    decreases |lines|
  {
    if |lines| > 0 {
      var init := lines[..|lines| - 1];
      var line := lines[|lines| - 1];
      LastSplit(lines);
      RunSnoc(g, c, init, line);
      FieldIsLastWrite(g, c, init, k);
      StepEffects(g, Run(g, c, init), line);
    }
  }

  function LastScoreWrite(g: Grammar, lines: seq<string>, initial: int): int
    decreases |lines|
  {
    if |lines| == 0 then initial
    else
      match ScoreWrite(g, lines[|lines| - 1])
      case Some(v) => v
      case None => LastScoreWrite(g, lines[..|lines| - 1], initial)
  }

  /** The score comes from the last score line, or stays as it was. */
  lemma {:induction false} ScoreIsLastWrite(g: Grammar, c: Cursor, lines: seq<string>)
    requires Sound(g, c)
    ensures Run(g, c, lines).report.score == LastScoreWrite(g, lines, c.report.score)
    decreases |lines|
  {
    if |lines| > 0 {
      var init := lines[..|lines| - 1];
      var line := lines[|lines| - 1];
      LastSplit(lines);
      RunSnoc(g, c, init, line);
      ScoreIsLastWrite(g, c, init);
      StepEffects(g, Run(g, c, init), line);
    }
  }

  /** The section selected by the last header line, or `initial`. */
  function ActiveSection(g: Grammar, lines: seq<string>, initial: Option<nat>): Option<nat>
    decreases |lines|
  {
    if |lines| == 0 then initial
    else
      match HeaderOf(g, lines[|lines| - 1])
      case Some(k) => Some(k)
      case None => ActiveSection(g, lines[..|lines| - 1], initial)
  }

  /** The items of list `k`: every item line whose active section, given by
      the headers before it, is `k`, in source order. */
  function Collected(g: Grammar, lines: seq<string>, k: nat, initial: Option<nat>): seq<string>
    decreases |lines|
  {
    if |lines| == 0 then []
    else
      var init := lines[..|lines| - 1];
      var line := lines[|lines| - 1];
      Collected(g, init, k, initial)
        + (if ItemOf(g, line).Some? && ActiveSection(g, init, initial) == Some(k)
           then [ItemOf(g, line).value] else [])
  }

  /** The current section is the one the last header line selected. */
  lemma {:induction false} SectionIsLastHeader(g: Grammar, c: Cursor, lines: seq<string>)
    requires Sound(g, c)
    ensures Run(g, c, lines).section == ActiveSection(g, lines, c.section)
    decreases |lines|
  {
    if |lines| > 0 {
      var init := lines[..|lines| - 1];
      var line := lines[|lines| - 1];
      LastSplit(lines);
      RunSnoc(g, c, init, line);
      SectionIsLastHeader(g, c, init);
      StepEffects(g, Run(g, c, init), line);
    }
  }

  /** Each list grows by exactly the items collected for it, in order. */
  lemma {:induction false} ListIsCollected(g: Grammar, c: Cursor, lines: seq<string>, k: nat)
    requires Sound(g, c) && k < |c.report.lists|
    ensures Run(g, c, lines).report.lists[k] == c.report.lists[k] + Collected(g, lines, k, c.section)
    decreases |lines|
  {
    if |lines| == 0 {
      assert c.report.lists[k] + [] == c.report.lists[k];
    } else {
      var init := lines[..|lines| - 1];
      var line := lines[|lines| - 1];
      var before := Run(g, c, init);
      var extra := if ItemOf(g, line).Some? && ActiveSection(g, init, c.section) == Some(k)
                   then [ItemOf(g, line).value] else [];
      assert Collected(g, lines, k, c.section) == Collected(g, init, k, c.section) + extra;
      LastSplit(lines);
      RunSnoc(g, c, init, line);
      ListIsCollected(g, c, init, k);
      SectionIsLastHeader(g, c, init);
      StepEffects(g, before, line);
      assert Step(g, before, line).report.lists[k] == before.report.lists[k] + extra;
      AssocLists(c.report.lists[k], Collected(g, init, k, c.section), extra);
    }
  }

  lemma LastSplit(lines: seq<string>)
    requires |lines| > 0
    ensures lines == lines[..|lines| - 1] + [lines[|lines| - 1]]
  {
  }

  lemma AssocLists(a: seq<string>, b: seq<string>, c: seq<string>)
    ensures a + b + c == a + (b + c)
  {
  }

  /** `FieldIsLastWrite` for a whole reply. */
  lemma ParseFieldIsLastWrite(g: Grammar, text: string, k: nat)
    requires WellFormed(g) && k < |g.defaults|
    ensures Parse(g, text).fields[k] == LastFieldWrite(g, Split(text, '\n'), k, g.defaults[k])
  {
    FieldIsLastWrite(g, Start(g, text), Split(text, '\n'), k);
  }

  /** `ScoreIsLastWrite` for a whole reply: the default is 50. */
  lemma ParseScoreIsLastWrite(g: Grammar, text: string)
    requires WellFormed(g)
    ensures Parse(g, text).score == LastScoreWrite(g, Split(text, '\n'), DefaultScore)
  {
    ScoreIsLastWrite(g, Start(g, text), Split(text, '\n'));
  }

  /** `ListIsCollected` for a whole reply: lists start empty and no section
      is active before the first header. */
  lemma ParseListIsCollected(g: Grammar, text: string, k: nat)
    requires WellFormed(g) && k < g.lists
    ensures Parse(g, text).lists[k] == Collected(g, Split(text, '\n'), k, None)
  {
    ListIsCollected(g, Start(g, text), Split(text, '\n'), k);
  }

  /** On a line that is already trimmed and not blank, the rule is the first
      matching one. */
  lemma RuleOfTrimmedLine(g: Grammar, line: string)
    requires Trim(line) == line && line != []
    ensures RuleOf(g, line) == FirstRule(g.rules, line)
  {
  }

  /** What a labelled line writes, component by component: exactly the
      target of its rule, and no item. */
  lemma WritesOfRule(g: Grammar, line: string, tag: string, target: Target)
    requires RuleOf(g, line) == Some(Rule(tag, target))
    ensures ItemOf(g, line) == None
    ensures forall k :: (FieldWrite(g, line, k)
      == if target == Field(k) then Some(CleanScalar(g, Trim(line)[|tag|..])) else None)
    ensures ScoreWrite(g, line) == (if target == Score then Some(ScoreOf(Trim(line)[|tag|..])) else None)
    ensures HeaderOf(g, line) == (if target.Header? then Some(target.slot) else None)
  {
  }

  /** A trimmed line whose first matching label is a score label writes
      the score parsed after the label, and nothing else. */
  lemma ScoreLineWrites(g: Grammar, line: string, tag: string)
    requires Trim(line) == line && line != []
    requires FirstRule(g.rules, line) == Some(Rule(tag, Score))
    ensures ScoreWrite(g, line) == Some(ScoreOf(line[|tag|..]))
    ensures forall k :: FieldWrite(g, line, k) == None
    ensures ItemOf(g, line) == None
  {
    RuleOfTrimmedLine(g, line);
    WritesOfRule(g, line, tag, Score);
  }

  /** The descriptions unfolded for a two-line reply. */
  lemma TwoLineField(g: Grammar, l1: string, l2: string, k: nat, initial: string)
    ensures LastFieldWrite(g, [l1, l2], k, initial)
      == if FieldWrite(g, l2, k).Some? then FieldWrite(g, l2, k).value
         else if FieldWrite(g, l1, k).Some? then FieldWrite(g, l1, k).value
         else initial
  {
    var lines := [l1, l2];
    assert lines[..1] == [l1] && lines[1] == l2;
    assert [l1][..0] == [] && [l1][0] == l1;
    assert LastFieldWrite(g, [l1], k, initial)
      == if FieldWrite(g, l1, k).Some? then FieldWrite(g, l1, k).value else initial;
  }

  lemma TwoLineScore(g: Grammar, l1: string, l2: string, score: int)
    ensures LastScoreWrite(g, [l1, l2], score)
      == if ScoreWrite(g, l2).Some? then ScoreWrite(g, l2).value
         else if ScoreWrite(g, l1).Some? then ScoreWrite(g, l1).value
         else score
  {
    var lines := [l1, l2];
    assert lines[..1] == [l1] && lines[1] == l2;
    assert [l1][..0] == [] && [l1][0] == l1;
    assert LastScoreWrite(g, [l1], score)
      == if ScoreWrite(g, l1).Some? then ScoreWrite(g, l1).value else score;
  }

  /** A two-line reply without item lines collects nothing. */
  lemma TwoLinesNoItems(g: Grammar, l1: string, l2: string, k: nat)
    requires ItemOf(g, l1).None? && ItemOf(g, l2).None?
    ensures Collected(g, [l1, l2], k, None) == []
  {
    var lines := [l1, l2];
    assert lines[..1] == [l1] && lines[1] == l2;
    assert [l1][..0] == [] && [l1][0] == l1;
    assert Collected(g, [l1], k, None) == [];
  }

  /** The first rule is the one at the first index whose label matches. */
  lemma {:induction false} FirstRuleAt(rules: seq<Rule>, t: string, i: nat)
    requires i < |rules| && StartsWith(t, rules[i].tag)
    requires forall j :: 0 <= j < i ==> !StartsWith(t, rules[j].tag)
    ensures FirstRule(rules, t) == Some(rules[i])
    decreases i
  {
    if i > 0 {
      assert !StartsWith(t, rules[0].tag);
      assert forall j :: 0 <= j < i - 1 ==> rules[1..][j] == rules[j + 1];
      FirstRuleAt(rules[1..], t, i - 1);
    }
  }

  /** Items that come before any header are dropped. */
  lemma {:induction false} NoHeaderNoItems(g: Grammar, lines: seq<string>, k: nat)
    requires forall i :: 0 <= i < |lines| ==> HeaderOf(g, lines[i]).None?
    ensures ActiveSection(g, lines, None) == None
    ensures Collected(g, lines, k, None) == []
    decreases |lines|
  {
    if |lines| > 0 {
      NoHeaderNoItems(g, lines[..|lines| - 1], k);
    }
  }

  /** The item a line contributes, or nothing visible when it is not one. */
  function ItemText(g: Grammar, line: string): string {
    match ItemOf(g, line)
    case Some(t) => t
    case None => ""
  }

  /** The items of a run of item lines. */
  function ItemTexts(g: Grammar, lines: seq<string>): (r: seq<string>)
    ensures |r| == |lines|
    decreases |lines|
  {
    if |lines| == 0 then [] else [ItemText(g, lines[0])] + ItemTexts(g, lines[1..])
  }

  /** A header followed by N item lines adds exactly those N items, in
      order, to that header's list, and leaves the other lists alone. */
  lemma {:induction false} HeaderThenItems(g: Grammar, c: Cursor, header: string, items: seq<string>, k: nat)
    requires Sound(g, c)
    requires HeaderOf(g, header) == Some(k)
    requires ItemLines(g, items)
    ensures k < |c.report.lists|
    ensures |Run(g, c, [header] + items).report.lists[k]| == |c.report.lists[k]| + |items|
    ensures Run(g, c, [header] + items).report.lists[k] == c.report.lists[k] + ItemTexts(g, items)
    ensures forall j :: 0 <= j < |c.report.lists| && j != k ==>
              Run(g, c, [header] + items).report.lists[j] == c.report.lists[j]
  {
    RuleOfFits(g, header);
    var c1 := Step(g, c, header);
    assert c1 == c.(section := Some(k));
    assert ([header] + items)[1..] == items;
    assert Run(g, c, [header] + items) == Run(g, c1, items);
    ItemsAppend(g, c1, items);
    forall j | 0 <= j < |c.report.lists| && j != k
      ensures Run(g, c1, items).report.lists[j] == c.report.lists[j]
    {
      ItemsLeaveOtherLists(g, c1, items, j);
    }
  }

  /** Every line is an item line. */
  predicate ItemLines(g: Grammar, lines: seq<string>) {
    forall i :: 0 <= i < |lines| ==> ItemOf(g, lines[i]).Some?
  }

  lemma ItemLinesTail(g: Grammar, lines: seq<string>)
    requires ItemLines(g, lines) && |lines| > 0
    ensures ItemOf(g, lines[0]).Some? && ItemLines(g, lines[1..])
  {
    assert forall i :: 0 <= i < |lines[1..]| ==> lines[1..][i] == lines[i + 1];
  }

  lemma RunCons(g: Grammar, c: Cursor, lines: seq<string>)
    requires Sound(g, c) && |lines| > 0
    ensures Run(g, c, lines) == Run(g, Step(g, c, lines[0]), lines[1..])
  {
  }

  /** One item line keeps the section, appends its item to that section's
      list, and leaves the other lists alone. */
  lemma ItemStep(g: Grammar, c: Cursor, line: string)
    requires Sound(g, c) && c.section.Some?
    requires ItemOf(g, line).Some?
    ensures Step(g, c, line).section == c.section
    ensures |Step(g, c, line).report.lists| == |c.report.lists|
    ensures Step(g, c, line).report.lists[c.section.value]
            == c.report.lists[c.section.value] + [ItemText(g, line)]
    ensures forall j :: 0 <= j < |c.report.lists| && j != c.section.value ==>
              Step(g, c, line).report.lists[j] == c.report.lists[j]
  {
    StepSection(g, c, line);
    StepLists(g, c, line);
  }

  /** Item lines keep the section and append to its list, in order. */
  lemma {:induction false} ItemsAppend(g: Grammar, c: Cursor, items: seq<string>)
    requires Sound(g, c) && c.section.Some?
    requires ItemLines(g, items)
    ensures Run(g, c, items).section == c.section
    ensures Run(g, c, items).report.lists[c.section.value]
            == c.report.lists[c.section.value] + ItemTexts(g, items)
    decreases |items|
  {
    var k := c.section.value;
    if |items| == 0 {
      assert c.report.lists[k] + [] == c.report.lists[k];
    } else {
      var c1 := Step(g, c, items[0]);
      var item := ItemText(g, items[0]);
      var rest := items[1..];
      ItemLinesTail(g, items);
      ItemStep(g, c, items[0]);
      RunCons(g, c, items);
      ItemsAppend(g, c1, rest);
      AssocLists(c.report.lists[k], [item], ItemTexts(g, rest));
    }
  }

  /** Item lines leave every list but the current section's alone. */
  lemma {:induction false} ItemsLeaveOtherLists(g: Grammar, c: Cursor, items: seq<string>, j: nat)
    requires Sound(g, c) && c.section.Some?
    requires ItemLines(g, items)
    requires j < |c.report.lists| && j != c.section.value
    ensures Run(g, c, items).report.lists[j] == c.report.lists[j]
    decreases |items|
  {
    if |items| > 0 {
      var c1 := Step(g, c, items[0]);
      ItemLinesTail(g, items);
      ItemStep(g, c, items[0]);
      RunCons(g, c, items);
      ItemsLeaveOtherLists(g, c1, items[1..], j);
    }
  }
}
