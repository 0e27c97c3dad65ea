/**
 * The soil laboratory: the guard and service choice of the analyse action,
 * and `formatSoilData`, which cuts a report into titled cards of bullet
 * items.
 */
module SoilAnalyzer {
  import opened Text
  import opened Numbers
  import opened Markup
  import opened Remote

  // ---------------------------------------------------------------------------
  // sections: `text.split(/\n(?=\d+\.|\*\*)/g)`

  /** The lookahead `(?=\d+\.|\*\*)`: a numbering or a bold marker. */
  predicate SectionMarker(t: string) {
    StartsWithNumbering(t) || StartsWith(t, Bold)
  }

  /** No newline of `p` is followed by a marker, so `p` holds no section
      break. */
  predicate NoBreak(p: string) {
    forall k :: 0 <= k < |p| && p[k] == '\n' ==> !SectionMarker(p[k + 1..])
  }

  /** A marker survives anything appended to it. */
  lemma MarkerOfPrefix(a: string, b: string)
    ensures SectionMarker(a) ==> SectionMarker(a + b)
  {
    if !SectionMarker(a) {
    } else if StartsWithNumbering(a) {
      NumberingOfPrefix(a, b);
    } else {
      assert (a + b)[..|Bold|] == a[..|Bold|];
    }
  }

  /** A marker contains no newline, so it lies within the text before the
      first newline. */
  lemma MarkerOfHead(a: string, b: string)
    requires b == [] || b[0] == '\n'
    ensures SectionMarker(a + b) ==> SectionMarker(a)
  {
    var t := a + b;
    if !SectionMarker(t) {
    } else if b == [] {
      assert t == a;
    } else if StartsWithNumbering(t) {
      var n := DigitRun(t, false);
      assert t[|a|] == b[0];
      assert |a| > n;
      assert a[..n] == t[..n];
      assert a[n..][0] == t[n];
      DigitRunOfDigits(a[..n], a[n..], false);
      assert a[..n] + a[n..] == a;
    } else {
      assert t[|a|] == b[0];
      assert forall k :: 0 <= k < |Bold| ==> t[k] == t[..|Bold|][k];
      assert |a| >= |Bold|;
      assert a[..|Bold|] == t[..|Bold|];
    }
  }

  /** A character in front of a text without a break adds none, unless it
      is a newline before a marker. */
  lemma NoBreakCons(c: char, p: string)
    requires NoBreak(p)
    requires c == '\n' ==> !SectionMarker(p)
    ensures NoBreak([c] + p)
  {
    var h := [c] + p;
    forall k | 0 <= k < |h| && h[k] == '\n'
      ensures !SectionMarker(h[k + 1..])
    {
      if k == 0 {
        assert h[1..] == p;
      } else {
        assert h[k + 1..] == p[k..];
        assert p[k - 1] == '\n';
      }
    }
  }

  /** What follows the first character of a text without a break has none
      either. */
  lemma NoBreakTail(p: string)
    requires |p| > 0 && NoBreak(p)
    ensures NoBreak(p[1..])
  {
    forall k | 0 <= k < |p[1..]| && p[1..][k] == '\n'
      ensures !SectionMarker(p[1..][k + 1..])
    {
      assert p[1..][k + 1..] == p[k + 2..];
      assert p[k + 1] == '\n';
    }
  }

  /** The pieces of the section split: every newline followed by a marker
      is consumed and cuts the text, the marker staying at the front of the
      next piece. */
  function Sections(s: string): (r: seq<string>)
    ensures |r| >= 1
    ensures Join(r, '\n') == s
    ensures WellCut(r)
    decreases |s|
  {
    if |s| == 0 then
      [[]]
    else
      var rest := Sections(s[1..]);
      var tail := if |rest| == 1 then [] else ['\n'] + Join(rest[1..], '\n');
      JoinHead(rest);
      assert s == [s[0]] + s[1..];
      if s[0] == '\n' && SectionMarker(s[1..]) then
        MarkerOfHead(rest[0], tail);
        WellCutAfterBreak(rest);
        JoinAfterBreak(rest);
        [[]] + rest
      else
        var head := [s[0]] + rest[0];
        MarkerOfPrefix(rest[0], tail);
        NoBreakCons(s[0], rest[0]);
        WellCutNewHead(head, rest);
        JoinNewHead(s[0], rest);
        [head] + rest[1..]
  }

  /** A join is its first piece followed by the rest, after a newline. */
  lemma JoinHead(pieces: seq<string>)
    requires |pieces| >= 1
    ensures Join(pieces, '\n')
      == pieces[0] + (if |pieces| == 1 then [] else ['\n'] + Join(pieces[1..], '\n'))
  {
  }

  lemma JoinAfterBreak(pieces: seq<string>)
    requires |pieces| >= 1
    ensures Join([[]] + pieces, '\n') == ['\n'] + Join(pieces, '\n')
  {
    assert ([[]] + pieces)[1..] == pieces;
  }

  lemma JoinNewHead(c: char, pieces: seq<string>)
    requires |pieces| >= 1
    ensures Join([[c] + pieces[0]] + pieces[1..], '\n') == [c] + Join(pieces, '\n')
  {
    var r := [[c] + pieces[0]] + pieces[1..];
    assert r[0] == [c] + pieces[0] && r[1..] == pieces[1..];
    if |pieces| > 1 {
      JoinHead(r);
      JoinHead(pieces);
      AssocFour([c], pieces[0], ['\n'], Join(pieces[1..], '\n'));
    }
  }

  /** The shape of the section split: every piece after the first starts
      with a marker, and no piece holds a break. */
  predicate WellCut(pieces: seq<string>) {
    && (forall i :: 1 <= i < |pieces| ==> SectionMarker(pieces[i]))
    && (forall i :: 0 <= i < |pieces| ==> NoBreak(pieces[i]))
  }

  lemma WellCutAfterBreak(pieces: seq<string>)
    requires |pieces| >= 1 && WellCut(pieces) && SectionMarker(pieces[0])
    ensures WellCut([[]] + pieces)
  {
    var r := [[]] + pieces;
    assert forall i :: 1 <= i < |r| ==> r[i] == pieces[i - 1];
  }

  lemma WellCutNewHead(head: string, pieces: seq<string>)
    requires |pieces| >= 1 && WellCut(pieces) && NoBreak(head)
    ensures WellCut([head] + pieces[1..])
  {
    var r := [head] + pieces[1..];
    assert forall i :: 1 <= i < |r| ==> r[i] == pieces[i];
  }

  lemma WellCutTail(pieces: seq<string>)
    requires |pieces| >= 2 && WellCut(pieces)
    ensures WellCut(pieces[1..])
  {
    var r := pieces[1..];
    assert forall i :: 0 <= i < |r| ==> r[i] == pieces[i + 1];
  }

  /** A text without a break is one section. */
  lemma {:induction false} SectionsOfUnbroken(p: string)
    requires NoBreak(p)
    ensures Sections(p) == [p]
    decreases |p|
  {
    if |p| > 0 {
      NoBreakTail(p);
      SectionsOfUnbroken(p[1..]);
      assert p[0] == '\n' ==> !SectionMarker(p[1..]);
      assert [p[0]] + p[1..] == p;
    }
  }

  /** Round trip: pieces joined by newlines, each after the first starting
      with a marker and none holding a break, are cut back into exactly
      those pieces. */
  lemma {:induction false} SectionsOfJoin(pieces: seq<string>)
    requires |pieces| >= 1
    requires WellCut(pieces)
    ensures Sections(Join(pieces, '\n')) == pieces
    decreases |pieces|, |pieces[0]|, 1
  {
    if |pieces| == 1 {
      SectionsOfUnbroken(pieces[0]);
    } else if pieces[0] == [] {
      SectionsOfJoinAtBreak(pieces);
    } else {
      SectionsOfJoinInside(pieces);
    }
  }

  /** The case of an empty first piece: the text starts with a break. */
  lemma {:induction false} SectionsOfJoinAtBreak(pieces: seq<string>)
    requires |pieces| >= 2 && pieces[0] == []
    requires WellCut(pieces)
    ensures Sections(Join(pieces, '\n')) == pieces
    decreases |pieces|, 0, 0
  {
    var whole := Join(pieces, '\n');
    var more := pieces[1..];
    var rest := Join(more, '\n');
    assert whole == ['\n'] + rest;
    assert whole[1..] == rest;
    WellCutTail(pieces);
    SectionsOfJoin(more);
    var tail := if |more| == 1 then [] else ['\n'] + Join(more[1..], '\n');
    assert rest == more[0] + tail;
    MarkerOfPrefix(more[0], tail);
    assert pieces == [[]] + more;
  }

  /** The case of a non-empty first piece: its first character is not a
      break. */
  lemma {:induction false} SectionsOfJoinInside(pieces: seq<string>)
    requires |pieces| >= 2 && pieces[0] != []
    requires WellCut(pieces)
    ensures Sections(Join(pieces, '\n')) == pieces
    decreases |pieces|, |pieces[0]|, 0
  {
    var head := pieces[0];
    var shorter := [head[1..]] + pieces[1..];
    assert shorter[1..] == pieces[1..];
    NoBreakTail(head);
    WellCutNewHead(head[1..], pieces);
    SectionsOfJoin(shorter);
    var rest := Join(shorter, '\n');
    assert [head[0]] + head[1..] == head;
    JoinNewHead(head[0], shorter);
    var whole := Join(pieces, '\n');
    assert whole == [head[0]] + rest;
    var tail := ['\n'] + Join(pieces[1..], '\n');
    JoinHead(shorter);
    assert rest == head[1..] + tail;
    MarkerOfHead(head[1..], tail);
    assert whole[1..] == rest;
  }

  // ---------------------------------------------------------------------------
  // dropping blank pieces: `.filter(s => s.trim().length > 0)`

  /** The pieces that are not blank, in order. */
  function NonBlank(xs: seq<string>): (r: seq<string>)
    ensures |r| <= |xs|
    ensures forall i :: 0 <= i < |r| ==> !AllSpace(r[i])
    ensures r == [] <==> forall i :: 0 <= i < |xs| ==> AllSpace(xs[i])
    ensures (forall i :: 0 <= i < |xs| ==> !AllSpace(xs[i])) ==> r == xs
  {
    if xs == [] then []
    else
      var rest := NonBlank(xs[1..]);
      assert forall i :: 1 <= i < |xs| ==> xs[i] == xs[1..][i - 1];
      if AllSpace(xs[0]) then rest else [xs[0]] + rest
  }

  /** Filtering distributes over concatenation. */
  lemma {:induction false} NonBlankAppend(xs: seq<string>, ys: seq<string>)
    ensures NonBlank(xs + ys) == NonBlank(xs) + NonBlank(ys)
    decreases |xs|
  {
    if xs == [] {
      assert xs + ys == ys;
    } else {
      assert (xs + ys)[1..] == xs[1..] + ys;
      NonBlankAppend(xs[1..], ys);
    }
  }

  /** Pieces that are all blank join into blank text, newlines being white
      space. */
  lemma {:induction false} JoinOfBlank(pieces: seq<string>)
    requires |pieces| >= 1
    requires forall i :: 0 <= i < |pieces| ==> AllSpace(pieces[i])
    ensures AllSpace(Join(pieces, '\n'))
    decreases |pieces|
  {
    if |pieces| > 1 {
      JoinOfBlank(pieces[1..]);
      var a := pieces[0];
      var b := Join(pieces[1..], '\n');
      var j := a + ['\n'] + b;
      forall k | 0 <= k < |j|
        ensures IsSpace(j[k])
      {
        if k < |a| {
          assert j[k] == a[k];
        } else if k > |a| {
          assert j[k] == b[k - |a| - 1];
        }
      }
    }
  }

  /** A text that is not blank has a line that is not blank. */
  lemma SomeLineNotAllSpace(s: string)
    requires !AllSpace(s)
    ensures NonBlank(Split(s, '\n')) != []
  {
    var lines := Split(s, '\n');
    if NonBlank(lines) == [] {
      JoinOfBlank(lines);
    }
  }

  // ---------------------------------------------------------------------------
  // titles and items

  /** The anchored replace of `^\d+\.\s*` by nothing: a leading numbering
      and the white space after it. */
  function StripNumbering(t: string): (r: string)
    ensures StartsWithNumbering(t) ==> r == TrimStart(t[DigitRun(t, false) + 1..])
    ensures !StartsWithNumbering(t) ==> r == t
  {
    if StartsWithNumbering(t) then TrimStart(t[DigitRun(t, false) + 1..]) else t
  }

  /** A card title: every `**` and `###` removed, then the leading numbering,
      then the first colon, then trimmed. */
  function Title(line: string): (t: string)
    ensures IsTrimmed(t)
  {
    Trim(RemoveFirst(StripNumbering(RemoveAll(RemoveAll(line, Bold), Heading)), ":"))
  }

  /** Text without `*` or `#` has no markup to remove. */
  lemma NoMarkup(t: string)
    requires '*' !in t && '#' !in t
    ensures RemoveAll(RemoveAll(t, Bold), Heading) == t
  {
    AbsentHeadNotContained(t, Bold);
    AbsentHeadNotContained(t, Heading);
  }

  /** A line without `*` or `#` is titled by its text with the numbering
      and the first colon dropped. */
  lemma TitleOfPlain(line: string)
    requires '*' !in line && '#' !in line
    ensures Title(line) == Trim(RemoveFirst(StripNumbering(line), ":"))
  {
    NoMarkup(line);
  }

  /** Unlike an item, a title can hold `###`: the colon is removed after
      the heading pass, so `#:##` becomes `###`. */
  lemma TitleCanHoldHeading()
    ensures Title("#:##") == Heading
  {
    var s := "#:##";
    AbsentHeadNotContained(s, Bold);
    assert !Contains(s[2..], Heading);
    OtherInitial(s[1..], Heading);
    assert !StartsWith(s, Heading) by {
      assert s[..3][1] != Heading[1];
    }
    assert !Contains(s, Heading);
    assert StripNumbering(s) == s;
    OtherInitial(s, ":");
    RemoveFirstStep(s, ":");
    assert s[1..][..1] == ":";
    RemoveFirstOfPrefix(s[1..], ":");
    assert RemoveFirst(s, ":") == Heading;
    TrimOfPadded([], Heading, []);
    assert [] + Heading + [] == Heading;
  }

  /** The numbering `N.` and the white space after it go, and nothing
      else. */
  lemma StripNumberingOf(d: string, ws: string, name: string)
    requires |d| > 0 && forall k :: 0 <= k < |d| ==> IsDigit(d[k])
    requires AllSpace(ws)
    requires name == [] || !IsSpace(name[0])
    ensures StripNumbering(d + ("." + (ws + name))) == name
  {
    var line := d + ("." + (ws + name));
    DigitRunOfDigits(d, "." + (ws + name), false);
    assert line[|d|] == '.';
    assert line[|d| + 1..] == ws + name;
    TrimStartOfPadded(ws, name);
  }

  /** A numbered heading `N. name` is titled by its name, first colon
      dropped. */
  lemma TitleOfNumbered(n: nat, ws: string, name: string)
    requires AllSpace(ws)
    requires name == [] || !IsSpace(name[0])
    requires '*' !in name && '#' !in name
    ensures Title(Decimal(n) + "." + ws + name) == Trim(RemoveFirst(name, ":"))
  {
    var d := Decimal(n);
    var line := d + ("." + (ws + name));
    assert d + "." + ws + name == line;
    NumberedHeadingPlain(d, ws, name);
    NoMarkup(line);
    StripNumberingOf(d, ws, name);
  }

  lemma NumberedHeadingPlain(d: string, ws: string, name: string)
    requires forall k :: 0 <= k < |d| ==> IsDigit(d[k])
    requires AllSpace(ws)
    requires '*' !in name && '#' !in name
    ensures '*' !in d + ("." + (ws + name)) && '#' !in d + ("." + (ws + name))
  {
    var line := d + ("." + (ws + name));
    forall k | 0 <= k < |line|
      ensures line[k] != '*' && line[k] != '#'
    {
      if k < |d| {
        assert line[k] == d[k];
      } else if k == |d| {
        assert line[k] == '.';
      } else if k < |d| + 1 + |ws| {
        assert line[k] == ws[k - |d| - 1];
      } else {
        assert line[k] == name[k - |d| - 1 - |ws|];
      }
    }
  }

  /** The anchored replace of `^\s*\*+\s*` by nothing: leading white space,
      one or more stars and the white space after them; nothing when no star
      leads. */
  function StripStars(t: string): (r: string)
    ensures r == t || (|TrimStart(t)| > 0 && TrimStart(t)[0] == '*')
  {
    var u := TrimStart(t);
    if |u| > 0 && u[0] == '*' then TrimStart(u[LeadRun(u, '*')..]) else t
  }

  /** A card item: the leading stars stripped, every `**` and `###` removed,
      trimmed. */
  function Item(line: string): (r: string)
    ensures IsTrimmed(r)
  {
    Trim(RemoveAll(RemoveAll(StripStars(line), Bold), Heading))
  }

  /** An item never holds `###`: the last pass removes every run of three
      and cannot leave a new one behind. */
  lemma ItemNoHeading(line: string)
    ensures !Contains(Item(line), Heading)
  {
    HeadingIsRun();
    RemoveAllRunPattern(RemoveAll(StripStars(line), Bold), '#', 3);
    TrimNotContained(RemoveAll(RemoveAll(StripStars(line), Bold), Heading), Heading);
  }

  /** A starred line `  * text` becomes its text. */
  lemma ItemOfStarred(ws1: string, k: nat, ws2: string, body: string)
    requires AllSpace(ws1) && AllSpace(ws2) && k > 0
    requires body == [] || !IsSpace(body[0])
    requires '*' !in body && '#' !in body
    ensures Item(ws1 + Repeat('*', k) + ws2 + body) == Trim(body)
  {
    StripStarsOf(ws1, k, ws2, body);
    AssocFour(ws1, Repeat('*', k), ws2, body);
    NoMarkup(body);
  }

  lemma AssocFour(a: string, b: string, c: string, d: string)
    ensures a + b + c + d == a + (b + (c + d))
  {
  }

  lemma StripStarsOf(ws1: string, k: nat, ws2: string, body: string)
    requires AllSpace(ws1) && AllSpace(ws2) && k > 0
    requires body == [] || !IsSpace(body[0])
    requires '*' !in body
    ensures StripStars(ws1 + (Repeat('*', k) + (ws2 + body))) == body
  {
    var rest := ws2 + body;
    var u := Repeat('*', k) + rest;
    assert u[0] == '*';
    StripStarsAfterSpace(ws1, u);
    assert rest == [] || rest[0] != '*' by {
      if |ws2| == 0 && |body| > 0 {
        assert rest[0] == body[0] && body[0] in body;
      }
    }
    LeadRunOfStars(k, rest);
    assert u[k..] == rest;
    TrimStartOfPadded(ws2, body);
  }

  /** White space and then a star: the run of stars and the white space
      after it go. */
  lemma StripStarsAfterSpace(ws: string, u: string)
    requires AllSpace(ws) && |u| > 0 && u[0] == '*'
    ensures StripStars(ws + u) == TrimStart(u[LeadRun(u, '*')..])
  {
    TrimStartOfPadded(ws, u);
  }

  lemma LeadRunOfStars(k: nat, rest: string)
    requires rest == [] || rest[0] != '*'
    ensures LeadRun(Repeat('*', k) + rest, '*') == k
    decreases k
  {
    if k > 0 {
      assert (Repeat('*', k) + rest)[1..] == Repeat('*', k - 1) + rest;
      LeadRunOfStars(k - 1, rest);
    } else {
      assert Repeat('*', k) + rest == rest;
    }
  }

  /** Each of the lines as an item. */
  function Items(lines: seq<string>): (r: seq<string>)
    ensures |r| == |lines|
    ensures forall i :: 0 <= i < |r| ==> r[i] == Item(lines[i])
  {
    seq(|lines|, i requires 0 <= i < |lines| => Item(lines[i]))
  }

  // ---------------------------------------------------------------------------
  // icons and cards

  /** The three card icons of `getIcon`. */
  datatype Icon = Tractor | TrendingUp | Lightbulb

  /** `getIcon(title)`: a title mentioning crops gets the tractor, one about
      yield or reasons the trend line, anything else the bulb; case does not
      matter. */
  function IconOf(title: string): (i: Icon)
    ensures i == Tractor <==> Contains(ToLower(title), "crop")
    ensures i == TrendingUp <==>
      (!Contains(ToLower(title), "crop") && (Contains(ToLower(title), "yield") || Contains(ToLower(title), "why")))
  {
    var t := ToLower(title);
    if Contains(t, "crop") then Tractor
    else if Contains(t, "yield") || Contains(t, "why") then TrendingUp
    else Lightbulb
  }

  /** Upper-casing a title does not change its icon. */
  lemma IconIgnoresCase(title: string)
    ensures IconOf(ToUpper(title)) == IconOf(title)
  {
    ToLowerOfUpper(title);
  }

  /** One card as the report view draws it. */
  datatype Card = Card(icon: Icon, title: string, items: seq<string>)

  /** The card of one section: its non-blank lines, the first the title and
      the rest the items. */
  function CardOf(section: string): (c: Card)
    requires !AllSpace(section)
    ensures c.icon == IconOf(c.title)
  {
    var lines := NonBlank(Split(section, '\n'));
    SomeLineNotAllSpace(section);
    var title := Title(lines[0]);
    Card(IconOf(title), title, Items(lines[1..]))
  }

  /** A card always has a title line; its items are the other non-blank
      lines of the section, in order, one item per line. */
  lemma CardShape(section: string)
    requires !AllSpace(section)
    ensures var lines := NonBlank(Split(section, '\n'));
      var c := CardOf(section);
      && |lines| >= 1
      && c.title == Title(lines[0])
      && c.icon == IconOf(c.title)
      && |c.items| == |lines| - 1
      && forall i :: 0 <= i < |c.items| ==> c.items[i] == Item(lines[i + 1])
  {
    SomeLineNotAllSpace(section);
  }

  function Cards(sections: seq<string>): (r: seq<Card>)
    requires forall i :: 0 <= i < |sections| ==> !AllSpace(sections[i])
    ensures |r| == |sections|
    ensures forall i :: 0 <= i < |r| ==> r[i] == CardOf(sections[i])
  {
    seq(|sections|, i requires 0 <= i < |sections| => CardOf(sections[i]))
  }

  /** `formatSoilData(text)`: one card per section that is not blank. */
  function FormatSoilData(text: string): (cards: seq<Card>)
    ensures |cards| == |NonBlank(Sections(text))|
    ensures forall i :: 0 <= i < |cards| ==> cards[i] == CardOf(NonBlank(Sections(text))[i])
  {
    Cards(NonBlank(Sections(text)))
  }

  /** A report of marker-led parts gives one card per non-blank part, in
      order. */
  lemma FormatSoilDataOfParts(parts: seq<string>)
    requires |parts| >= 1
    requires forall i :: 1 <= i < |parts| ==> SectionMarker(parts[i])
    requires forall i :: 0 <= i < |parts| ==> NoBreak(parts[i])
    ensures FormatSoilData(Join(parts, '\n')) == Cards(NonBlank(parts))
  {
    SectionsOfJoin(parts);
  }

  /** Blank text gives no card at all. */
  lemma BlankReportHasNoCards(text: string)
    requires AllSpace(text)
    ensures FormatSoilData(text) == []
  {
    var secs := Sections(text);
    forall i | 0 <= i < |secs|
      ensures AllSpace(secs[i])
    {
      SectionOfBlank(secs, i);
    }
  }

  /** A piece of a blank text is blank. */
  lemma {:induction false} SectionOfBlank(pieces: seq<string>, i: nat)
    requires i < |pieces| && AllSpace(Join(pieces, '\n'))
    ensures AllSpace(pieces[i])
    decreases |pieces|
  {
    var j := Join(pieces, '\n');
    if |pieces| > 1 {
      assert j == pieces[0] + ['\n'] + Join(pieces[1..], '\n');
      if i == 0 {
        forall k | 0 <= k < |pieces[0]|
          ensures IsSpace(pieces[0][k])
        {
          assert j[k] == pieces[0][k];
        }
      } else {
        var b := Join(pieces[1..], '\n');
        forall k | 0 <= k < |b|
          ensures IsSpace(b[k])
        {
          assert j[|pieces[0]| + 1 + k] == b[k];
        }
        SectionOfBlank(pieces[1..], i - 1);
      }
    }
  }

  // ---------------------------------------------------------------------------
  // analyse

  const ReportTitle: string := "Soil Analysis Report"
  const NoAnalysis: string := "No analysis available."
  const AnalysisError: string := "Error analyzing report. Please try again."

  /** The typed report, the uploaded image (a data URL), the busy flag and
      the shown result. */
  datatype SoilState = SoilState(reportText: string, reportImage: Option<string>, loading: bool, result: Option<string>)

  /** `reportImage` is truthy. */
  predicate HasImage(st: SoilState) {
    st.reportImage.Some? && st.reportImage.value != []
  }

  /** Which service the analyse action calls. */
  datatype Request = ImageRequest(image: string) | TextRequest(text: string)

  /** The arguments of the parent's `onResult`. */
  datatype Saved = Saved(title: string, content: string, image: Option<string>)

  /** The request `handleAnalyze(e, overrideText)` makes, if any: the input
      is the override when it is non-empty and the typed text otherwise;
      nothing is sent when that is blank and there is no image, and an image
      is sent in preference to any text. */
  function RequestOf(st: SoilState, overrideText: string): (r: Option<Request>)
    ensures r.None? <==> AllSpace(OrElse(overrideText, st.reportText)) && !HasImage(st)
    ensures HasImage(st) ==> r == Some(ImageRequest(st.reportImage.value))
    ensures r.Some? && r.value.TextRequest? ==> r.value.text == OrElse(overrideText, st.reportText) && !AllSpace(r.value.text)
  {
    var input := OrElse(overrideText, st.reportText);
    if AllSpace(input) && !HasImage(st) then None
    else if HasImage(st) then Some(ImageRequest(st.reportImage.value))
    else Some(TextRequest(input))
  }

  /** The state after the action, and what reaches the parent. */
  datatype Analysis = Analysis(state: SoilState, saved: Option<Saved>)

  /** `handleAnalyze`, with the service's reply as a parameter: an answer is
      shown (an empty one as the fixed notice) and passed on unchanged; a
      failure shows the error text; the busy flag is cleared either way. */
  function Analyze(st: SoilState, overrideText: string, reply: Reply): (a: Analysis)
    ensures RequestOf(st, overrideText).None? ==> a == Analysis(st, None)
    ensures RequestOf(st, overrideText).Some? ==>
      && !a.state.loading
      && a.state.reportText == st.reportText && a.state.reportImage == st.reportImage
      && a.state.result.Some? && a.state.result.value != []
    ensures RequestOf(st, overrideText).Some? && reply.Answered? ==>
      && a.state.result == Some(OrElse(reply.text, NoAnalysis))
      && a.saved == Some(Saved(ReportTitle, reply.text, if HasImage(st) then st.reportImage else None))
    ensures RequestOf(st, overrideText).Some? && reply.Failed? ==>
      a.state.result == Some(AnalysisError) && a.saved.None?
  {
    if RequestOf(st, overrideText).None? then Analysis(st, None)
    else
      match reply
      case Answered(t) =>
        var image := if HasImage(st) then st.reportImage else None;
        Analysis(st.(loading := false, result := Some(OrElse(t, NoAnalysis))), Some(Saved(ReportTitle, t, image)))
      case Failed =>
        Analysis(st.(loading := false, result := Some(AnalysisError)), None)
  }

  /** With an image loaded, the typed text and the override do not matter
      for what is sent. */
  lemma ImageTakesPriority(st: SoilState, o1: string, o2: string, text: string)
    requires HasImage(st)
    ensures RequestOf(st, o1) == RequestOf(st.(reportText := text), o2)
  {
  }
}
