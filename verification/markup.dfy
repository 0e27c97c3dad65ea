/**
 * The `cleanText` helpers of the disease scanner, the chat bot and the
 * garden care guide, and the item-marker regex of the report parsers. Each
 * `cleanText` removes every `**`, then every `###`, then replaces each
 * line-leading bullet (multiline regex `^\s*[*-]\s*`) by a component-specific
 * text, and trims; it is defined once here with that text as a parameter.
 */
module Markup {
  import opened Text

  /** Disease scanner: bullets are dropped. */
  const DiseaseBullet: string := ""
  /** Chat bot: bullets become a bullet sign and a space. */
  const ChatBullet: string := "\U{2022} "
  /** Garden care: the same bullet sign as its UTF-8 bytes read as Windows-1252
      ("â€¢"), which is what the source file spells out. */
  const GardenBullet: string := "\U{00E2}\U{20AC}\U{00A2} "

  const Bold: string := "**"
  const Heading: string := "###"

  predicate IsBulletChar(c: char) {
    c == '*' || c == '-'
  }

  /** `^` in a multiline regex: the start of the text or just after a line
      terminator. */
  predicate AtLineStart(s: string, i: nat)
    requires i <= |s|
  {
    i == 0 || IsLineTerminator(s[i - 1])
  }

  /** The end of the run of white space starting at `i` (greedy `\s*`). */
  function SkipSpace(s: string, i: nat): (j: nat)
    requires i <= |s|
    ensures i <= j <= |s|
    ensures forall k :: i <= k < j ==> IsSpace(s[k])
    ensures j < |s| ==> !IsSpace(s[j])
    decreases |s| - i
  {
    if i < |s| && IsSpace(s[i]) then SkipSpace(s, i + 1) else i
  }

  /** Where a bullet match that starts at `i` ends, if one does: `^` holds
      at `i`, the greedy white space from `i` stops at a bullet character,
      and the match runs on over the greedy white space after it. */
  function BulletMatch(s: string, i: nat): (r: Option<nat>)
    requires i <= |s|
    ensures r.Some? ==> i < r.value <= |s| && AtLineStart(s, i)
  {
    if !AtLineStart(s, i) then None
    else
      var q := SkipSpace(s, i);
      if q < |s| && IsBulletChar(s[q]) then Some(SkipSpace(s, q + 1)) else None
  }

  /** Both directions of a match: one starts at `i` exactly when `^` holds
      there and the white space from `i` stops at a bullet character; it
      then ends after the white space that follows the bullet. */
  lemma BulletMatchExact(s: string, i: nat)
    requires i <= |s|
    ensures BulletMatch(s, i).Some? <==>
      AtLineStart(s, i) && SkipSpace(s, i) < |s| && IsBulletChar(s[SkipSpace(s, i)])
    ensures BulletMatch(s, i).Some? ==>
      BulletMatch(s, i).value == SkipSpace(s, SkipSpace(s, i) + 1)
  {
  }

  /** The global multiline bullet replacement, scanning from offset `i`: each
      match is replaced and the scan resumes where it ended.
      `ReplaceBulletsNone`, `ReplaceBulletsKeeps` and `ReplaceBulletsAtNext`
      state what it does. */
  function ReplaceBulletsFrom(s: string, i: nat, rep: string): (r: string)
    requires i <= |s|
    decreases |s| - i
  {
    if i == |s| then []
    else
      match BulletMatch(s, i)
      case Some(e) => rep + ReplaceBulletsFrom(s, e, rep)
      case None =>
        [s[i]] + ReplaceBulletsFrom(s, i + 1, rep)
  }

  /** A text with no bullet character from `i` on is left as it is. */
  lemma {:induction false} ReplaceBulletsNone(s: string, i: nat, rep: string)
    requires i <= |s| && forall k :: i <= k < |s| ==> !IsBulletChar(s[k])
    ensures ReplaceBulletsFrom(s, i, rep) == s[i..]
    decreases |s| - i
  {
    if i < |s| {
      ReplaceBulletsNone(s, i + 1, rep);
      assert s[i..] == [s[i]] + s[i + 1..];
    }
  }

  /** Text where no match starts is copied as it is, up to offset `m`. */
  lemma {:induction false} ReplaceBulletsKeeps(s: string, i: nat, m: nat, rep: string)
    requires i <= m <= |s|
    requires forall k :: i <= k < m ==> BulletMatch(s, k).None?
    ensures ReplaceBulletsFrom(s, i, rep) == s[i..m] + ReplaceBulletsFrom(s, m, rep)
    decreases m - i
  {
    if i < m {
      var rest := ReplaceBulletsFrom(s, m, rep);
      ReplaceBulletsKeeps(s, i + 1, m, rep);
      KeptStep(s, i, m, rest);
    }
  }

  lemma KeptStep(s: string, i: nat, m: nat, x: string)
    requires i < m <= |s|
    ensures [s[i]] + (s[i + 1..m] + x) == s[i..m] + x
  {
    assert s[i..m] == [s[i]] + s[i + 1..m];
  }

  /** The whole of the bullet pass: the text up to the next match is kept,
      the match becomes `rep`, and the scan goes on where the match ended;
      without a next match the rest is kept. */
  lemma ReplaceBulletsAtNext(s: string, i: nat, m: nat, rep: string)
    requires i <= m <= |s|
    requires forall k :: i <= k < m ==> BulletMatch(s, k).None?
    ensures BulletMatch(s, m).Some? ==>
      ReplaceBulletsFrom(s, i, rep) == s[i..m] + rep + ReplaceBulletsFrom(s, BulletMatch(s, m).value, rep)
    ensures m == |s| ==> ReplaceBulletsFrom(s, i, rep) == s[i..]
  {
    ReplaceBulletsKeeps(s, i, m, rep);
    if m == |s| {
      assert s[i..m] + [] == s[i..];
    }
  }

  /** The global bullet replacement over the whole text; a text with no `*`
      and no `-` is left as it is. */
  function ReplaceBullets(s: string, rep: string): (r: string)
    ensures '*' !in s && '-' !in s ==> r == s
  {
    if '*' !in s && '-' !in s then
      assert forall k :: 0 <= k < |s| ==> !IsBulletChar(s[k]) by {
        forall k | 0 <= k < |s| ensures !IsBulletChar(s[k]) {
          assert s[k] in s;
        }
      }
      ReplaceBulletsNone(s, 0, rep);
      assert s[0..] == s;
      ReplaceBulletsFrom(s, 0, rep)
    else ReplaceBulletsFrom(s, 0, rep)
  }

  /** A component's `cleanText` with its own bullet replacement. The guard
      `if (!text) return ""` of the chat bot and the garden guide changes
      nothing: the chain of replacements maps "" to "" (see
      `CleanTextOfEmpty`). */
  function CleanText(s: string, bullet: string): (r: string)
    ensures IsTrimmed(r)
  {
    Trim(ReplaceBullets(RemoveAll(RemoveAll(s, Bold), Heading), bullet))
  }

  lemma CleanTextOfEmpty(bullet: string)
    ensures CleanText("", bullet) == ""
  {
  }

  /** A character that never occurs in `s` cannot start an occurrence. */
  lemma {:induction false} AbsentHeadNotContained(s: string, p: string)
    requires |p| > 0 && p[0] !in s
    ensures !Contains(s, p)
    decreases |s|
  {
    if |s| > 0 {
      assert s[0] in s;
      assert forall c :: c in s[1..] ==> c in s;
      AbsentHeadNotContained(s[1..], p);
    }
  }

  /** Plain text, free of `*`, `#` and `-`, is only trimmed. */
  lemma CleanTextOfPlain(s: string, bullet: string)
    requires '*' !in s && '#' !in s && '-' !in s
    ensures CleanText(s, bullet) == Trim(s)
  {
    AbsentHeadNotContained(s, Bold);
    AbsentHeadNotContained(s, Heading);
    assert RemoveAll(RemoveAll(s, Bold), Heading) == s;
    assert forall k :: 0 <= k < |s| ==> !IsBulletChar(s[k]) by {
      forall k | 0 <= k < |s|
        ensures !IsBulletChar(s[k])
      {
        assert s[k] in s;
      }
    }
    ReplaceBulletsNone(s, 0, bullet);
    assert s[0..] == s;
  }

  lemma {:induction false} SkipSpaceOver(s: string, i: nat, j: nat)
    requires i <= j <= |s|
    requires forall k :: i <= k < j ==> IsSpace(s[k])
    requires j < |s| ==> !IsSpace(s[j])
    ensures SkipSpace(s, i) == j
    decreases j - i
  {
    if i < j {
      SkipSpaceOver(s, i + 1, j);
    }
  }

  /** A text whose only `*` sits at offset `at` has no `**`. */
  lemma SingleStarNoBold(s: string, at: nat)
    requires forall k :: 0 <= k < |s| && k != at ==> s[k] != '*'
    ensures !Contains(s, Bold)
  {
    forall i | 0 <= i && i + 2 <= |s|
      ensures !OccursAt(s, Bold, i)
    {
      var k := if i != at then i else i + 1;
      assert s[i..i + 2][k - i] == s[k] != '*';
    }
    ContainsIff(s, Bold);
  }

  /** A bullet at the start of the text goes, with the white space on both
      sides of it, and the bullet text takes its place. */
  lemma {:induction false} CleanLeadingBullet(ws1: string, b: char, ws2: string, body: string, bullet: string)
    requires AllSpace(ws1) && AllSpace(ws2) && IsBulletChar(b)
    requires body == [] || !IsSpace(body[0])
    requires '*' !in body && '#' !in body && '-' !in body
    ensures CleanText(ws1 + [b] + ws2 + body, bullet) == Trim(bullet + body)
  {
    BulletLineHasNoMarkup(ws1, b, ws2, body);
    BulletLineReplaced(ws1, b, ws2, body, bullet);
  }

  lemma BulletLineHasNoMarkup(ws1: string, b: char, ws2: string, body: string)
    requires AllSpace(ws1) && AllSpace(ws2) && IsBulletChar(b)
    requires '*' !in body && '#' !in body
    ensures RemoveAll(RemoveAll(ws1 + [b] + ws2 + body, Bold), Heading) == ws1 + [b] + ws2 + body
  {
    var s := ws1 + [b] + ws2 + body;
    var at := |ws1|;
    var e := at + 1 + |ws2|;
    forall k | 0 <= k < |s| && k != at
      ensures s[k] != '*' && s[k] != '#'
    {
      if k < at {
        assert s[k] == ws1[k];
      } else if k < e {
        assert s[k] == ws2[k - at - 1];
      } else {
        assert s[k] == body[k - e];
      }
    }
    SingleStarNoBold(s, at);
    assert s[at] == b;
    AbsentHeadNotContained(s, Heading);
  }

  lemma BulletLineReplaced(ws1: string, b: char, ws2: string, body: string, bullet: string)
    requires AllSpace(ws1) && AllSpace(ws2) && IsBulletChar(b)
    requires body == [] || !IsSpace(body[0])
    requires '-' !in body && '*' !in body
    ensures ReplaceBullets(ws1 + [b] + ws2 + body, bullet) == bullet + body
  {
    var s := ws1 + [b] + ws2 + body;
    var at := |ws1|;
    var e := at + 1 + |ws2|;
    assert s[at] == b;
    assert s[e..] == body;
    assert forall k :: 0 <= k < at ==> s[k] == ws1[k];
    assert forall k :: at < k < e ==> s[k] == ws2[k - at - 1];
    SkipSpaceOver(s, 0, at);
    SkipSpaceOver(s, at + 1, e);
    assert BulletMatch(s, 0) == Some(e);
    forall k | e <= k < |s|
      ensures !IsBulletChar(s[k])
    {
      assert s[k] == body[k - e];
    }
    ReplaceBulletsNone(s, e, bullet);
  }

  lemma HeadingIsRun()
    ensures Heading == Repeat('#', 3)
  {
  }

  /** The bullet pass cannot create a `###` when the replacement has no `#`:
      a replaced match starts a line, so the character kept in front of it
      is a line terminator. The second clause carries that through the scan:
      the result starts with no more `#` than the text does, unless the scan
      is at a line start. */
  lemma {:induction false} BulletPassNoHeading(s: string, i: nat, rep: string)
    requires i <= |s| && '#' !in rep && !Contains(s[i..], Heading)
    ensures !Contains(ReplaceBulletsFrom(s, i, rep), Heading)
    ensures AtLineStart(s, i) || LeadRun(ReplaceBulletsFrom(s, i, rep), '#') <= LeadRun(s[i..], '#')
    decreases |s| - i
  {
    if i < |s| {
      match BulletMatch(s, i)
      case Some(e) =>
        NotContainedSuffix(s[i..], Heading, e - i);
        assert s[i..][e - i..] == s[e..];
        BulletPassNoHeading(s, e, rep);
        NotContainedAfterOther(rep, ReplaceBulletsFrom(s, e, rep), Heading);
      case None =>
        NotContainedSuffix(s[i..], Heading, 1);
        assert s[i..][1..] == s[i + 1..];
        BulletPassNoHeading(s, i + 1, rep);
        KeptCharNoHeading(s, i, ReplaceBulletsFrom(s, i + 1, rep));
    }
  }

  /** Putting back a kept character keeps the text free of `###`. */
  lemma KeptCharNoHeading(s: string, i: nat, rest: string)
    requires i < |s| && !Contains(s[i..], Heading) && !Contains(rest, Heading)
    requires AtLineStart(s, i + 1) || LeadRun(rest, '#') <= LeadRun(s[i + 1..], '#')
    ensures !Contains([s[i]] + rest, Heading)
    ensures LeadRun([s[i]] + rest, '#') <= LeadRun(s[i..], '#')
  {
    var r := [s[i]] + rest;
    assert r[1..] == rest;
    HeadingIsRun();
    if s[i] == '#' {
      StartsWithRepeat(s[i..], '#', 3);
      assert s[i..][1..] == s[i + 1..];
      StartsWithRepeat(r, '#', 3);
    } else {
      OtherInitial(r, Heading);
    }
  }

  /** Every `cleanText` variant leaves no `###`: the heading pass removes
      them all, and neither the bullet pass nor trimming makes a new one. */
  lemma CleanTextNoHeading(s: string, bullet: string)
    requires '#' !in bullet
    ensures !Contains(CleanText(s, bullet), Heading)
  {
    var x := RemoveAll(RemoveAll(s, Bold), Heading);
    HeadingIsRun();
    RemoveAllRunPattern(RemoveAll(s, Bold), '#', 3);
    assert x[0..] == x;
    BulletPassNoHeading(x, 0, bullet);
    TrimNotContained(ReplaceBullets(x, bullet), Heading);
  }

  /** One line of a bulleted list as a model writes it: white space, a
      bullet character, white space, then the item. */
  datatype BulletLine = BulletLine(lead: string, mark: char, gap: string, item: string)

  function LineText(l: BulletLine): string {
    l.lead + [l.mark] + l.gap + l.item
  }

  /** A list line whose item is not empty, does not start with white space,
      and holds no markup and no line break. */
  predicate PlainBulletLine(l: BulletLine) {
    && AllSpace(l.lead) && IsBulletChar(l.mark) && AllSpace(l.gap)
    && l.item != [] && !IsSpace(l.item[0])
    && '*' !in l.item && '#' !in l.item && '-' !in l.item
    && (forall k :: 0 <= k < |l.item| ==> !IsLineTerminator(l.item[k]))
  }

  predicate PlainBulletLines(lines: seq<BulletLine>) {
    forall k :: 0 <= k < |lines| ==> PlainBulletLine(lines[k])
  }

  /** The text of each line, in order. */
  function LineTexts(lines: seq<BulletLine>): (r: seq<string>)
    ensures |r| == |lines|
  {
    if lines == [] then [] else [LineText(lines[0])] + LineTexts(lines[1..])
  }

  /** Each line's item behind the replacement text, in order. */
  function ItemTexts(lines: seq<BulletLine>, bullet: string): (r: seq<string>)
    ensures |r| == |lines|
  {
    if lines == [] then [] else [bullet + lines[0].item] + ItemTexts(lines[1..], bullet)
  }

  /** A bulleted list, one item per line: every line's bullet, with the white
      space around it, becomes the variant's bullet text, and the line
      breaks stay. */
  lemma {:induction false} CleanBulletList(lines: seq<BulletLine>, bullet: string)
    requires |lines| >= 1 && PlainBulletLines(lines)
    ensures CleanText(Join(LineTexts(lines), '\n'), bullet) == Trim(Join(ItemTexts(lines, bullet), '\n'))
  {
    var s := Join(LineTexts(lines), '\n');
    ListHasNoBold(lines);
    ListHasNoHash(lines);
    AbsentHeadNotContained(s, Heading);
    ListReplaced(lines, bullet);
  }

  /** Offsets `k` of a line's text other than the bullet's hold no `*`. */
  lemma LineStars(l: BulletLine, k: nat)
    requires PlainBulletLine(l) && k < |LineText(l)| && k != |l.lead|
    ensures LineText(l)[k] != '*' && LineText(l)[k] != '#'
    ensures k > |l.lead| + |l.gap| ==> !IsLineTerminator(LineText(l)[k])
  {
    var t := LineText(l);
    var e := |l.lead| + 1 + |l.gap|;
    if k < |l.lead| {
      assert t[k] == l.lead[k];
    } else if k < e {
      assert t[k] == l.gap[k - |l.lead| - 1];
    } else {
      assert t[k] == l.item[k - e];
      assert l.item[k - e] in l.item;
    }
  }

  /** No `**` starts inside a line's text, whatever follows it. */
  lemma LineNoBold(l: BulletLine, tail: string)
    requires PlainBulletLine(l)
    ensures forall i :: 0 <= i < |LineText(l)| ==> !OccursAt(LineText(l) + tail, Bold, i)
  {
    var t := LineText(l);
    var s := t + tail;
    forall i | 0 <= i < |t| && OccursAt(s, Bold, i)
      ensures false
    {
      assert s[i..i + 2][0] == s[i] && s[i..i + 2][1] == s[i + 1];
      var k := if i != |l.lead| then i else i + 1;
      assert k < |t| && s[k] == t[k];
      LineStars(l, k);
    }
  }

  lemma {:induction false} ListHasNoBold(lines: seq<BulletLine>)
    requires |lines| >= 1 && PlainBulletLines(lines)
    ensures RemoveAll(Join(LineTexts(lines), '\n'), Bold) == Join(LineTexts(lines), '\n')
    decreases |lines|
  {
    var t := LineText(lines[0]);
    assert PlainBulletLine(lines[0]);
    assert LineTexts(lines)[1..] == LineTexts(lines[1..]);
    if |lines| == 1 {
      LineNoBold(lines[0], []);
      RemoveAllKeepsPrefix(t, [], Bold);
      assert t + [] == t;
    } else {
      var rest := Join(LineTexts(lines[1..]), '\n');
      LineNoBold(lines[0], "\n" + rest);
      RemoveAllKeepsPrefix(t, "\n" + rest, Bold);
      OtherInitial("\n" + rest, Bold);
      assert ("\n" + rest)[1..] == rest;
      ListHasNoBold(lines[1..]);
      assert t + "\n" + rest == t + ("\n" + rest);
    }
  }

  lemma {:induction false} ListHasNoHash(lines: seq<BulletLine>)
    requires |lines| >= 1 && PlainBulletLines(lines)
    ensures '#' !in Join(LineTexts(lines), '\n')
    decreases |lines|
  {
    var l := lines[0];
    assert PlainBulletLine(l);
    assert LineTexts(lines)[1..] == LineTexts(lines[1..]);
    assert '#' !in LineText(l) by {
      forall k | 0 <= k < |LineText(l)|
        ensures LineText(l)[k] != '#'
      {
        if k != |l.lead| {
          LineStars(l, k);
        }
      }
    }
    if |lines| > 1 {
      ListHasNoHash(lines[1..]);
    }
  }

  lemma ListReplaced(lines: seq<BulletLine>, bullet: string)
    requires |lines| >= 1 && PlainBulletLines(lines)
    ensures ReplaceBullets(Join(LineTexts(lines), '\n'), bullet) == Join(ItemTexts(lines, bullet), '\n')
  {
    var s := Join(LineTexts(lines), '\n');
    assert s[0..] == s;
    ListLayout(s, 0, lines);
    ListReplacedAt(s, 0, lines, bullet);
  }

  /** Plain list lines written one after the other from offset `off` of `s`,
      separated by line breaks, up to the end of `s`. */
  predicate ListAt(s: string, off: nat, lines: seq<BulletLine>)
    decreases |lines|
  {
    && |lines| >= 1 && PlainBulletLine(lines[0]) && WrittenAt(s, off, LineText(lines[0]))
    && var end := off + |LineText(lines[0])|;
      if |lines| == 1 then end == |s|
      else end < |s| && s[end] == '\n' && ListAt(s, end + 1, lines[1..])
  }

  lemma {:induction false} ListLayout(s: string, off: nat, lines: seq<BulletLine>)
    requires |lines| >= 1 && PlainBulletLines(lines)
    requires off <= |s| && s[off..] == Join(LineTexts(lines), '\n')
    ensures ListAt(s, off, lines)
    decreases |lines|
  {
    assert PlainBulletLine(lines[0]);
    if |lines| == 1 {
      assert Join(LineTexts(lines), '\n') == LineText(lines[0]);
      assert s[off..off + |LineText(lines[0])|] == LineText(lines[0]);
    } else {
      ListSplit(s, off, lines);
      assert PlainBulletLines(lines[1..]) by {
        forall k | 0 <= k < |lines[1..]|
          ensures PlainBulletLine(lines[1..][k])
        {
          assert lines[1..][k] == lines[k + 1];
        }
      }
      ListLayout(s, off + |LineText(lines[0])| + 1, lines[1..]);
    }
  }

  /** The list written at offset `off` of `s`, at a line start, up to the
      end of `s`. */
  lemma {:induction false} ListReplacedAt(s: string, off: nat, lines: seq<BulletLine>, bullet: string)
    requires ListAt(s, off, lines) && AtLineStart(s, off)
    ensures ReplaceBulletsFrom(s, off, bullet) == Join(ItemTexts(lines, bullet), '\n')
    decreases |lines|
  {
    var l := lines[0];
    var next := off + |LineText(l)| + 1;
    if |lines| == 1 {
      assert Join(ItemTexts(lines, bullet), '\n') == bullet + l.item;
      LastLineAt(s, off, l, bullet);
    } else {
      LineBreakAt(s, off, l, bullet);
      ListReplacedAt(s, next, lines[1..], bullet);
      ItemsJoin(lines, bullet);
    }
  }

  /** A list of two lines or more, written at `off`: its first line, a
      line break, and the rest at the start of the next line. */
  lemma ListSplit(s: string, off: nat, lines: seq<BulletLine>)
    requires |lines| >= 2
    requires off <= |s| && s[off..] == Join(LineTexts(lines), '\n')
    ensures var t := LineText(lines[0]);
      && WrittenAt(s, off, t) && off + |t| < |s| && s[off + |t|] == '\n'
      && s[off + |t| + 1..] == Join(LineTexts(lines[1..]), '\n') && AtLineStart(s, off + |t| + 1)
  {
    assert LineTexts(lines)[1..] == LineTexts(lines[1..]);
    BreakLayout(s, off, LineText(lines[0]), Join(LineTexts(lines[1..]), '\n'));
  }

  /** The replaced list of two lines or more: the first item, a line
      break and the rest. */
  lemma ItemsJoin(lines: seq<BulletLine>, bullet: string)
    requires |lines| >= 2
    ensures Join(ItemTexts(lines, bullet), '\n') == bullet + lines[0].item + "\n" + Join(ItemTexts(lines[1..], bullet), '\n')
  {
    assert ItemTexts(lines, bullet)[1..] == ItemTexts(lines[1..], bullet);
  }

  /** The last line of the list ends the text. */
  lemma LastLineAt(s: string, off: nat, l: BulletLine, bullet: string)
    requires PlainBulletLine(l) && WrittenAt(s, off, LineText(l)) && AtLineStart(s, off)
    requires off + |LineText(l)| == |s|
    ensures ReplaceBulletsFrom(s, off, bullet) == bullet + l.item
  {
    LineReplacedAt(s, off, l, bullet);
    assert bullet + l.item + [] == bullet + l.item;
  }

  /** A line followed by a line break: the break is kept. */
  lemma LineBreakAt(s: string, off: nat, l: BulletLine, bullet: string)
    requires PlainBulletLine(l) && WrittenAt(s, off, LineText(l)) && AtLineStart(s, off)
    requires off + |LineText(l)| < |s| && s[off + |LineText(l)|] == '\n'
    ensures ReplaceBulletsFrom(s, off, bullet)
         == bullet + l.item + "\n" + ReplaceBulletsFrom(s, off + |LineText(l)| + 1, bullet)
  {
    LineShape(s, off, l);
    SpanBreak(s, off, off + |l.lead| + 1 + |l.gap|, off + |LineText(l)|, l.item, bullet);
  }

  /** A plain list line written at a line start of `s` is replaced by the
      bullet text and its item; the scan then stands at the line's end. */
  lemma LineReplacedAt(s: string, off: nat, l: BulletLine, bullet: string)
    requires PlainBulletLine(l) && WrittenAt(s, off, LineText(l)) && AtLineStart(s, off)
    ensures ReplaceBulletsFrom(s, off, bullet) == bullet + l.item + ReplaceBulletsFrom(s, off + |LineText(l)|, bullet)
  {
    LineShape(s, off, l);
    SpanReplaced(s, off, off + |l.lead| + 1 + |l.gap|, off + |LineText(l)|, l.item, bullet);
  }

  /** Where a plain list line's match and item stand in `s`. */
  lemma LineShape(s: string, off: nat, l: BulletLine)
    requires PlainBulletLine(l) && WrittenAt(s, off, LineText(l)) && AtLineStart(s, off)
    ensures var e := off + |l.lead| + 1 + |l.gap|; var end := off + |LineText(l)|;
      && e < end <= |s|
      && BulletMatch(s, off) == Some(e)
      && s[e..end] == l.item
      && (forall k :: e <= k < end ==> BulletMatch(s, k).None?)
      && !IsLineTerminator(s[end - 1])
  {
    var t := LineText(l);
    LineMatch(s, off, l);
    ItemNoMatch(s, off, l);
    ItemWritten(s, off, l);
    LineStars(l, |t| - 1);
    WrittenAtIndex(s, off, t, |t| - 1);
  }

  /** A match from `off` to `e`, then text up to `end` where no match
      starts: the match becomes `rep` and the text is kept. */
  lemma SpanReplaced(s: string, off: nat, e: nat, end: nat, item: string, rep: string)
    requires off < e <= end <= |s| && BulletMatch(s, off) == Some(e)
    requires s[e..end] == item && forall k :: e <= k < end ==> BulletMatch(s, k).None?
    ensures ReplaceBulletsFrom(s, off, rep) == rep + item + ReplaceBulletsFrom(s, end, rep)
  {
    ReplaceBulletsKeeps(s, e, end, rep);
    MatchStep(s, off, rep);
    Glue(rep, item, ReplaceBulletsFrom(s, end, rep));
  }

  /** The same, followed by a line break that is kept. */
  lemma SpanBreak(s: string, off: nat, e: nat, end: nat, item: string, rep: string)
    requires off < e <= end < |s| && BulletMatch(s, off) == Some(e)
    requires s[e..end] == item && forall k :: e <= k < end ==> BulletMatch(s, k).None?
    requires s[end] == '\n' && !IsLineTerminator(s[end - 1])
    ensures ReplaceBulletsFrom(s, off, rep) == rep + item + "\n" + ReplaceBulletsFrom(s, end + 1, rep)
  {
    SpanReplaced(s, off, e, end, item, rep);
    KeepAfter(s, end, rep);
    BreakStep(s, off, end, rep + item, rep);
  }

  lemma Glue(x: string, y: string, z: string)
    ensures x + (y + z) == x + y + z
  {
  }

  /** A character that is not just after a line break starts no match. */
  lemma KeepAfter(s: string, i: nat, rep: string)
    requires 1 <= i < |s| && !IsLineTerminator(s[i - 1])
    ensures ReplaceBulletsFrom(s, i, rep) == [s[i]] + ReplaceBulletsFrom(s, i + 1, rep)
  {
  }

  /** The replacement of a line, then a kept line break. */
  lemma BreakStep(s: string, off: nat, end: nat, x: string, rep: string)
    requires off <= end < |s| && s[end] == '\n'
    requires ReplaceBulletsFrom(s, off, rep) == x + ReplaceBulletsFrom(s, end, rep)
    requires ReplaceBulletsFrom(s, end, rep) == [s[end]] + ReplaceBulletsFrom(s, end + 1, rep)
    ensures ReplaceBulletsFrom(s, off, rep) == x + "\n" + ReplaceBulletsFrom(s, end + 1, rep)
  {
  }

  /** Where a piece, a line break and the rest stand in `s`. */
  lemma BreakLayout(s: string, off: nat, t: string, rest: string)
    requires off <= |s| && s[off..] == t + ['\n'] + rest && t != []
    ensures WrittenAt(s, off, t) && off + |t| < |s| && s[off + |t|] == '\n'
    ensures s[off + |t| + 1..] == rest && AtLineStart(s, off + |t| + 1)
  {
    assert s[off..][..|t|] == t;
    assert s[off..][|t|] == '\n';
    assert s[off..][|t| + 1..] == rest;
  }

  /** `t` stands at offset `off` of `s`. */
  predicate WrittenAt(s: string, off: nat, t: string) {
    off + |t| <= |s| && s[off..off + |t|] == t
  }

  lemma WrittenAtIndex(s: string, off: nat, t: string, k: nat)
    requires WrittenAt(s, off, t) && k < |t|
    ensures s[off + k] == t[k]
  {
    assert s[off..off + |t|][k] == s[off + k];
  }

  lemma LineChars(l: BulletLine, k: nat)
    requires k < |LineText(l)|
    ensures k < |l.lead| ==> LineText(l)[k] == l.lead[k]
    ensures k == |l.lead| ==> LineText(l)[k] == l.mark
    ensures |l.lead| < k <= |l.lead| + |l.gap| ==> LineText(l)[k] == l.gap[k - |l.lead| - 1]
    ensures |l.lead| + |l.gap| < k ==> LineText(l)[k] == l.item[k - |l.lead| - 1 - |l.gap|]
  {
  }

  /** The match at the line's start runs over the lead, the bullet and the
      gap, to the item's first character. */
  lemma LineMatch(s: string, off: nat, l: BulletLine)
    requires AllSpace(l.lead) && IsBulletChar(l.mark) && AllSpace(l.gap)
    requires l.item != [] && !IsSpace(l.item[0])
    requires WrittenAt(s, off, LineText(l)) && AtLineStart(s, off)
    ensures BulletMatch(s, off) == Some(off + |l.lead| + 1 + |l.gap|)
  {
    LineLayout(s, off, l);
    MatchOver(s, off, off + |l.lead|, off + |l.lead| + 1 + |l.gap|);
  }

  /** Where a line's parts stand in `s`. */
  lemma LineLayout(s: string, off: nat, l: BulletLine)
    requires AllSpace(l.lead) && IsBulletChar(l.mark) && AllSpace(l.gap)
    requires l.item != [] && !IsSpace(l.item[0])
    requires WrittenAt(s, off, LineText(l))
    ensures var at := off + |l.lead|; var e := at + 1 + |l.gap|;
      && e < |s|
      && (forall k :: off <= k < at ==> IsSpace(s[k]))
      && IsBulletChar(s[at])
      && (forall k :: at < k < e ==> IsSpace(s[k]))
      && !IsSpace(s[e])
  {
    var t := LineText(l);
    var at := off + |l.lead|;
    var e := at + 1 + |l.gap|;
    forall k | off <= k < at
      ensures IsSpace(s[k])
    {
      WrittenAtIndex(s, off, t, k - off);
      LineChars(l, k - off);
    }
    forall k | at < k < e
      ensures IsSpace(s[k])
    {
      WrittenAtIndex(s, off, t, k - off);
      LineChars(l, k - off);
    }
    WrittenAtIndex(s, off, t, e - off);
    LineChars(l, e - off);
    WrittenAtIndex(s, off, t, |l.lead|);
    LineChars(l, |l.lead|);
  }

  /** White space, a bullet character, white space up to a character that is
      not white space: a match, from a line start. */
  lemma MatchOver(s: string, i: nat, q: nat, e: nat)
    requires i <= q < e < |s| && AtLineStart(s, i)
    requires forall k :: i <= k < q ==> IsSpace(s[k])
    requires IsBulletChar(s[q])
    requires forall k :: q < k < e ==> IsSpace(s[k])
    requires !IsSpace(s[e])
    ensures BulletMatch(s, i) == Some(e)
  {
    SkipSpaceOver(s, i, q);
    SkipSpaceOver(s, q + 1, e);
  }

  /** No match starts inside the item. */
  lemma ItemNoMatch(s: string, off: nat, l: BulletLine)
    requires PlainBulletLine(l) && WrittenAt(s, off, LineText(l))
    ensures forall k :: off + |l.lead| + 1 + |l.gap| <= k < off + |LineText(l)| ==> BulletMatch(s, k).None?
  {
    var t := LineText(l);
    var e := off + |l.lead| + 1 + |l.gap|;
    forall k | e <= k < off + |t|
      ensures BulletMatch(s, k).None?
    {
      if k == e {
        WrittenAtIndex(s, off, t, e - off);
        LineChars(l, e - off);
        assert l.item[0] in l.item;
        assert SkipSpace(s, e) == e;
      } else {
        WrittenAtIndex(s, off, t, k - 1 - off);
        LineStars(l, k - 1 - off);
      }
    }
  }

  lemma ItemWritten(s: string, off: nat, l: BulletLine)
    requires WrittenAt(s, off, LineText(l))
    ensures s[off + |l.lead| + 1 + |l.gap|..off + |LineText(l)|] == l.item
  {
    var e := |l.lead| + 1 + |l.gap|;
    var t := LineText(l);
    assert s[off + e..off + |t|] == s[off..off + |t|][e..];
    assert t[e..] == l.item;
  }

  lemma MatchStep(s: string, i: nat, rep: string)
    requires i <= |s| && BulletMatch(s, i).Some?
    ensures ReplaceBulletsFrom(s, i, rep) == rep + ReplaceBulletsFrom(s, BulletMatch(s, i).value, rep)
  {
  }

  /** The `###` pass runs after the `**` pass, so emphasis split by a heading
      marker survives: `a*###*b` comes out as `a**b`. */
  lemma CleanTextCanLeaveBold()
    ensures CleanText("a*###*b", DiseaseBullet) == "a**b"
  {
    BoldPassKeeps();
    HeadingPassJoins();
    LaterPassesKeep();
  }

  lemma LaterPassesKeep()
    ensures Trim(ReplaceBullets("a**b", DiseaseBullet)) == "a**b"
  {
    BulletPassKeeps();
    TrimOfPadded("", "a**b", "");
    assert "" + "a**b" + "" == "a**b";
  }

  lemma BulletPassKeeps()
    ensures ReplaceBullets("a**b", DiseaseBullet) == "a**b"
  {
    var s := "a**b";
    assert BulletMatch(s, 3) == None;
    assert ReplaceBulletsFrom(s, 3, DiseaseBullet) == "b";
    assert BulletMatch(s, 2) == None;
    assert ReplaceBulletsFrom(s, 2, DiseaseBullet) == "*b";
    assert BulletMatch(s, 1) == None;
    assert ReplaceBulletsFrom(s, 1, DiseaseBullet) == "**b";
    assert BulletMatch(s, 0) == None;
  }

  lemma BoldPassKeeps()
    ensures RemoveAll("a*###*b", Bold) == "a*###*b"
  {
    assert "a*###*b"[1..] == "*###*b";
    assert "*###*b"[1..] == "###*b";
    assert "###*b"[1..] == "##*b";
    assert "##*b"[1..] == "#*b";
    assert "#*b"[1..] == "*b";
    assert "*b"[1..] == "b";
    assert "b"[1..] == "";
  }

  lemma HeadingPassJoins()
    ensures RemoveAll("a*###*b", Heading) == "a**b"
  {
    assert "a*###*b"[1..] == "*###*b";
    assert "*###*b"[1..] == "###*b";
    assert "###*b"[3..] == "*b";
    assert "*b"[1..] == "b";
    assert "b"[1..] == "";
  }

  // ---------------------------------------------------------------------------
  // list items

  /** The characters of the class `[- \d.]`. */
  predicate IsMarkerChar(c: char) {
    c == '-' || c == ' ' || c == '.' || IsDigit(c)
  }

  /** The item-marker replace of both parsers (the class `[- \d.]` repeated,
      anchored at the start): drops the whole leading run of dashes, spaces,
      digits and dots. */
  function StripItemMarker(t: string): (r: string)
    ensures |r| <= |t| && r == t[|t| - |r|..]
    ensures forall k :: 0 <= k < |t| - |r| ==> IsMarkerChar(t[k])
    ensures r == [] || !IsMarkerChar(r[0])
  {
    if |t| > 0 && IsMarkerChar(t[0]) then StripItemMarker(t[1..]) else t
  }

  /** The marker run is removed and nothing after it. */
  lemma {:induction false} StripItemMarkerOf(marker: string, body: string)
    requires forall k :: 0 <= k < |marker| ==> IsMarkerChar(marker[k])
    requires body == [] || !IsMarkerChar(body[0])
    ensures StripItemMarker(marker + body) == body
    decreases |marker|
  {
    if |marker| > 0 {
      assert (marker + body)[1..] == marker[1..] + body;
      StripItemMarkerOf(marker[1..], body);
    } else {
      assert marker + body == body;
    }
  }

  /** The marker regex eats digits that belong to the item itself. */
  lemma StripItemMarkerEatsQuantities()
    ensures StripItemMarker("- 10 kg urea") == "kg urea"
  {
    var marker := "- 10 ";
    var body := "kg urea";
    assert marker + body == "- 10 kg urea";
    assert forall k :: 0 <= k < |marker| ==> IsMarkerChar(marker[k]);
    assert !IsMarkerChar(body[0]);
    StripItemMarkerOf(marker, body);
  }
}
