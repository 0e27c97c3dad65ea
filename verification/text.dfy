/**
 * String primitives with the meaning JavaScript gives them, as the components
 * use them on model replies: `trim`, `split` on one character, `startsWith`,
 * `includes`, `replace` with a string pattern (first occurrence only), `replace`
 * with a global literal regex, and the ASCII part of `toLowerCase` /
 * `toUpperCase`. Strings are sequences of Unicode scalar values.
 */
module Text {

  datatype Option<T> = None | Some(value: T)

  /** White space for `String.prototype.trim` and the regex class `\s`: the
      WhiteSpace and LineTerminator code points of ECMAScript. */
  predicate IsSpace(c: char) {
    var n := c as int;
    || n == 0x09 || n == 0x0A || n == 0x0B || n == 0x0C || n == 0x0D || n == 0x20
    || n == 0xA0 || n == 0x1680 || (0x2000 <= n <= 0x200A) || n == 0x2028
    || n == 0x2029 || n == 0x202F || n == 0x205F || n == 0x3000 || n == 0xFEFF
  }

  /** The characters after which `^` matches in a multiline regex, and which
      `.` does not match. */
  predicate IsLineTerminator(c: char) {
    c == '\n' || c == '\r' || c as int == 0x2028 || c as int == 0x2029
  }

  /** The regex class `\d`: ASCII digits only. */
  predicate IsDigit(c: char) {
    '0' <= c <= '9'
  }

  predicate AllSpace(s: string) {
    forall i :: 0 <= i < |s| ==> IsSpace(s[i])
  }

  /** No white space at either end. */
  predicate IsTrimmed(s: string) {
    s == [] || (!IsSpace(s[0]) && !IsSpace(s[|s| - 1]))
  }

  // ---------------------------------------------------------------------------
  // trim

  function TrimStart(s: string): (r: string)
    ensures |r| <= |s| && r == s[|s| - |r|..]
    ensures AllSpace(s[..|s| - |r|])
    ensures r == [] || !IsSpace(r[0])
  {
    if |s| > 0 && IsSpace(s[0]) then
      var r := TrimStart(s[1..]);
      assert s[..|s| - |r|] == [s[0]] + s[1..][..|s| - 1 - |r|];
      r
    else
      s
  }

  function TrimEnd(s: string): (r: string)
    ensures |r| <= |s| && r == s[..|r|]
    ensures AllSpace(s[|r|..])
    ensures r == [] || !IsSpace(r[|r| - 1])
  {
    if |s| > 0 && IsSpace(s[|s| - 1]) then
      var r := TrimEnd(s[..|s| - 1]);
      assert s[|r|..] == s[..|s| - 1][|r|..] + [s[|s| - 1]];
      r
    else
      s
  }

  /** `s.trim()`: the infix of `s` left after dropping white space at both ends. */
  function Trim(s: string): (r: string)
    ensures IsTrimmed(r)
    ensures |r| <= |s|
    ensures r == [] <==> AllSpace(s)
  {
    var t := TrimStart(s);
    var r := TrimEnd(t);
    if r == [] then
      assert AllSpace(t[|r|..]);
      assert s == s[..|s| - |t|] + t;
      r
    else
      r
  }

  /** Trimming keeps an infix, so it cannot create an occurrence. */
  lemma TrimNotContained(s: string, p: string)
    requires !Contains(s, p)
    ensures !Contains(Trim(s), p)
  {
    var t := TrimStart(s);
    NotContainedSuffix(s, p, |s| - |t|);
    NotContainedPrefix(t, p, |TrimEnd(t)|);
  }

  /** Trimming a string padded with white space gives back the core, which
      characterises `Trim` completely. */
  lemma {:induction false} TrimOfPadded(p: string, core: string, q: string)
    requires AllSpace(p) && AllSpace(q) && IsTrimmed(core)
    ensures Trim(p + core + q) == core
  {
    var s := p + core + q;
    if core == [] {
      forall i | 0 <= i < |s|
        ensures IsSpace(s[i])
      {
        if i < |p| {
          assert s[i] == p[i];
        } else {
          assert s[i] == q[i - |p|];
        }
      }
    } else {
      assert s == p + (core + q);
      TrimStartOfPadded(p, core + q);
      TrimEndOfPadded(core, q);
    }
  }

  lemma {:induction false} TrimStartOfPadded(p: string, s: string)
    requires AllSpace(p) && (s == [] || !IsSpace(s[0]))
    ensures TrimStart(p + s) == s
    decreases |p|
  {
    if p != [] {
      assert (p + s)[1..] == p[1..] + s;
      TrimStartOfPadded(p[1..], s);
    }
  }

  lemma {:induction false} TrimEndOfPadded(s: string, q: string)
    requires AllSpace(q) && (s == [] || !IsSpace(s[|s| - 1]))
    ensures TrimEnd(s + q) == s
    decreases |q|
  {
    if q != [] {
      assert (s + q)[..|s + q| - 1] == s + q[..|q| - 1];
      TrimEndOfPadded(s, q[..|q| - 1]);
    } else {
      assert s + q == s;
    }
  }

  lemma TrimIdempotent(s: string)
    ensures Trim(Trim(s)) == Trim(s)
  {
    TrimOfPadded([], Trim(s), []);
    assert [] + Trim(s) + [] == Trim(s);
  }

  // ---------------------------------------------------------------------------
  // split and join on one character

  /** `s.split(sep)` for a one-character separator: the maximal separator-free
      pieces, always at least one. */
  function Split(s: string, sep: char): (pieces: seq<string>)
    ensures |pieces| >= 1
    ensures forall i :: 0 <= i < |pieces| ==> sep !in pieces[i]
    ensures Join(pieces, sep) == s
  {
    if |s| == 0 then
      [[]]
    else
      var rest := Split(s[1..], sep);
      if s[0] == sep then
        [[]] + rest
      else
        var pieces := [[s[0]] + rest[0]] + rest[1..];
        assert pieces[1..] == rest[1..];
        pieces
  }

  /** The pieces glued back together with the separator between neighbours. */
  function Join(pieces: seq<string>, sep: char): string
    requires |pieces| >= 1
  {
    if |pieces| == 1 then pieces[0] else pieces[0] + [sep] + Join(pieces[1..], sep)
  }

  /** `Split` undoes `Join` for pieces free of the separator. */
  lemma {:induction false} SplitJoin(pieces: seq<string>, sep: char)
    requires |pieces| >= 1
    requires forall i :: 0 <= i < |pieces| ==> sep !in pieces[i]
    ensures Split(Join(pieces, sep), sep) == pieces
    decreases |pieces|, |pieces[0]|
  {
    var head := pieces[0];
    if |pieces| == 1 {
      SplitFree(head, sep);
    } else if head == [] {
      var tail := Join(pieces[1..], sep);
      assert Join(pieces, sep) == [sep] + tail;
      assert ([sep] + tail)[1..] == tail;
      SplitJoin(pieces[1..], sep);
      assert pieces == [[]] + pieces[1..];
    } else {
      var shorter := [head[1..]] + pieces[1..];
      assert shorter[1..] == pieces[1..];
      assert forall i :: 1 <= i < |shorter| ==> shorter[i] == pieces[i];
      SplitJoin(shorter, sep);
      var whole := Join(pieces, sep);
      if |pieces| > 1 {
        assert whole == [head[0]] + Join(shorter, sep);
      }
      assert whole[1..] == Join(shorter, sep);
      assert head == [head[0]] + head[1..];
      assert whole[0] == head[0] && head[0] != sep;
      assert pieces == [[head[0]] + shorter[0]] + shorter[1..];
    }
  }

  lemma {:induction false} SplitFree(s: string, sep: char)
    requires sep !in s
    ensures Split(s, sep) == [s]
  {
    if |s| > 0 {
      SplitFree(s[1..], sep);
      assert [s[0]] + s[1..] == s;
    }
  }

  // ---------------------------------------------------------------------------
  // prefixes, occurrences, replace

  predicate StartsWith(s: string, p: string) {
    |p| <= |s| && s[..|p|] == p
  }

  /** A text whose first character differs from `p`'s does not start with
      `p`. */
  lemma OtherInitial(t: string, p: string)
    requires |t| > 0 && |p| > 0 && t[0] != p[0]
    ensures !StartsWith(t, p)
  {
    if |p| <= |t| {
      assert t[..|p|][0] == t[0];
    }
  }

  /** A text starts with its own first part. */
  lemma PrefixOf(p: string, rest: string)
    ensures StartsWith(p + rest, p)
  {
    assert (p + rest)[..|p|] == p;
  }

  /** `s.includes(p)`: `p` occurs somewhere in `s`. */
  predicate Contains(s: string, p: string)
    decreases |s|
  {
    StartsWith(s, p) || (|s| > 0 && Contains(s[1..], p))
  }

  /** `p` occurs in `s` at offset `i`. */
  predicate OccursAt(s: string, p: string, i: int) {
    0 <= i && i + |p| <= |s| && s[i..i + |p|] == p
  }

  /** `Contains` is the existence of an offset. */
  lemma {:induction false} ContainsIff(s: string, p: string)
    ensures Contains(s, p) <==> exists i :: OccursAt(s, p, i)
    decreases |s|
  {
    if StartsWith(s, p) {
      assert OccursAt(s, p, 0);
    } else if |s| > 0 {
      ContainsIff(s[1..], p);
      if Contains(s[1..], p) {
        var i :| OccursAt(s[1..], p, i);
        assert s[1..][i..i + |p|] == s[i + 1..i + 1 + |p|];
        assert OccursAt(s, p, i + 1);
      }
      forall i | OccursAt(s, p, i)
        ensures OccursAt(s[1..], p, i - 1)
      {
        assert i != 0;
        assert s[1..][i - 1..i - 1 + |p|] == s[i..i + |p|];
      }
    }
  }

  /** Moving the start of the text one character on moves every offset one
      back. */
  lemma OccursAtTail(s: string, p: string, j: int)
    requires |s| > 0 && j >= 1
    ensures OccursAt(s, p, j) <==> OccursAt(s[1..], p, j - 1)
  {
    if j + |p| <= |s| {
      assert s[1..][j - 1..j - 1 + |p|] == s[j..j + |p|];
    }
  }

  /** The offset of the leftmost occurrence of `p` in `s`, if there is one:
      where `indexOf` and a string-pattern `replace` find it. That it is the
      leftmost is `FirstOccurrenceIsLeftmost`. */
  function FirstOccurrence(s: string, p: string): (i: Option<nat>)
    ensures i.Some? <==> Contains(s, p)
    ensures i.Some? ==> OccursAt(s, p, i.value)
    decreases |s|
  {
    if StartsWith(s, p) then
      assert s[0..|p|] == s[..|p|];
      Some(0)
    else if |s| == 0 then None
    else
      var rest := FirstOccurrence(s[1..], p);
      if rest.Some? then
        OccursAtTail(s, p, rest.value + 1);
        Some(rest.value + 1)
      else None
  }

  /** No occurrence starts before the first one, and none at all when there
      is no first one. */
  lemma {:induction false} FirstOccurrenceIsLeftmost(s: string, p: string, j: int)
    requires 0 <= j
    requires FirstOccurrence(s, p).None? || j < FirstOccurrence(s, p).value
    ensures !OccursAt(s, p, j)
    decreases |s|
  {
    if j == 0 {
      if |p| <= |s| {
        assert s[0..|p|] == s[..|p|];
      }
    } else if |s| > 0 && !StartsWith(s, p) {
      OccursAtTail(s, p, j);
      FirstOccurrenceIsLeftmost(s[1..], p, j - 1);
    }
  }

  /** Putting the first character back in front of a cut of the tail is
      the same cut of the whole text, one further on. */
  lemma ConsAround(s: string, k: nat, m: nat)
    requires |s| > 0 && k + m <= |s| - 1
    ensures [s[0]] + (s[1..][..k] + s[1..][k + m..]) == s[..k + 1] + s[k + 1 + m..]
  {
    assert s[..k + 1] == [s[0]] + s[1..][..k];
    assert s[k + 1 + m..] == s[1..][k + m..];
  }

  lemma ConsPrefix(s: string, n: nat, x: string)
    requires 0 < n <= |s|
    ensures [s[0]] + (s[1..][..n - 1] + x) == s[..n] + x
  {
    assert s[..n] == [s[0]] + s[1..][..n - 1];
  }

  /** A text without `p` has no `p` in any suffix. */
  lemma {:induction false} NotContainedSuffix(s: string, p: string, k: nat)
    requires k <= |s| && !Contains(s, p)
    ensures !Contains(s[k..], p)
    decreases k
  {
    if k > 0 {
      assert s[1..][k - 1..] == s[k..];
      NotContainedSuffix(s[1..], p, k - 1);
    }
  }

  /** A text without `p` has no `p` in any prefix. */
  lemma NotContainedPrefix(s: string, p: string, k: nat)
    requires k <= |s| && !Contains(s, p)
    ensures !Contains(s[..k], p)
  {
    ContainsIff(s[..k], p);
    ContainsIff(s, p);
    forall i | OccursAt(s[..k], p, i)
      ensures OccursAt(s, p, i)
    {
      assert s[..k][i..i + |p|] == s[i..i + |p|];
    }
  }

  /** Text put in front that lacks `p`'s first character cannot create an
      occurrence of `p`. */
  lemma {:induction false} NotContainedAfterOther(a: string, b: string, p: string)
    requires |p| > 0 && p[0] !in a && !Contains(b, p)
    ensures !Contains(a + b, p)
    decreases |a|
  {
    if a != [] {
      assert a[0] in a;
      OtherInitial(a + b, p);
      assert (a + b)[1..] == a[1..] + b;
      assert forall c :: c in a[1..] ==> c in a;
      NotContainedAfterOther(a[1..], b, p);
    } else {
      assert a + b == b;
    }
  }

  /** `s.replace(p, '')` with a string pattern: the first occurrence of `p`
      is removed (`RemoveFirstCutsFirst` says which one and what is kept);
      without an occurrence nothing changes. */
  function RemoveFirst(s: string, p: string): (r: string)
    ensures !Contains(s, p) ==> r == s
    ensures Contains(s, p) ==> |r| == |s| - |p|
    decreases |s|
  {
    if StartsWith(s, p) then s[|p|..]
    else if |s| == 0 then s
    else [s[0]] + RemoveFirst(s[1..], p)
  }

  /** The whole of `RemoveFirst`: the leftmost occurrence of `p` is cut
      out, and the text before and after it is kept as it is. */
  lemma {:induction false} RemoveFirstCutsFirst(s: string, p: string)
    requires Contains(s, p)
    ensures var i := FirstOccurrence(s, p).value;
      RemoveFirst(s, p) == s[..i] + s[i + |p|..]
    decreases |s|
  {
    if StartsWith(s, p) {
      assert s[..0] + s[|p|..] == s[|p|..];
    } else {
      var k := FirstOccurrence(s[1..], p).value;
      RemoveFirstCutsFirst(s[1..], p);
      RemoveFirstStep(s, p);
      FirstOccurrenceStep(s, p);
      ConsAround(s, k, |p|);
    }
  }

  lemma FirstOccurrenceStep(s: string, p: string)
    requires |s| > 0 && !StartsWith(s, p) && Contains(s[1..], p)
    ensures FirstOccurrence(s, p) == Some(FirstOccurrence(s[1..], p).value + 1)
  {
  }

  lemma RemoveFirstStep(s: string, p: string)
    requires |s| > 0 && !StartsWith(s, p)
    ensures RemoveFirst(s, p) == [s[0]] + RemoveFirst(s[1..], p)
  {
  }

  /** A pattern at the very start is the first occurrence, so removing it
      leaves the rest of the string. */
  lemma RemoveFirstOfPrefix(s: string, p: string)
    requires StartsWith(s, p)
    ensures RemoveFirst(s, p) == s[|p|..]
  {
  }

  /** `s.replace(/p/g, '')` for a literal pattern: every occurrence found by a
      left-to-right, non-overlapping scan is removed. `RemoveAllKeepsPrefix`
      and `RemoveAllOfPrefix` state which text survives. */
  function RemoveAll(s: string, p: string): (r: string)
    requires |p| > 0
    ensures |r| <= |s|
    ensures !Contains(s, p) ==> r == s
    decreases |s|
  {
    if |s| == 0 then s
    else if StartsWith(s, p) then RemoveAll(s[|p|..], p)
    else [s[0]] + RemoveAll(s[1..], p)
  }

  /** An occurrence the scan reaches is dropped whole and the scan goes on
      right after it. */
  lemma RemoveAllOfPrefix(b: string, p: string)
    requires |p| > 0
    ensures RemoveAll(p + b, p) == RemoveAll(b, p)
  {
    PrefixOf(p, b);
    assert (p + b)[|p|..] == b;
  }

  /** Text in front of which no occurrence starts passes through unchanged:
      `RemoveAll` only touches what the scan finds. */
  lemma {:induction false} RemoveAllKeepsPrefix(a: string, b: string, p: string)
    requires |p| > 0
    requires forall i :: 0 <= i < |a| ==> !OccursAt(a + b, p, i)
    ensures RemoveAll(a + b, p) == a + RemoveAll(b, p)
  {
    var s := a + b;
    RemoveAllKeepsFirst(s, p, |a|);
    assert s[..|a|] == a && s[|a|..] == b;
  }

  lemma {:induction false} RemoveAllKeepsFirst(s: string, p: string, n: nat)
    requires |p| > 0 && n <= |s|
    requires forall i :: 0 <= i < n ==> !OccursAt(s, p, i)
    ensures RemoveAll(s, p) == s[..n] + RemoveAll(s[n..], p)
    decreases n
  {
    if n > 0 {
      assert !StartsWith(s, p) by {
        assert !OccursAt(s, p, 0);
        if |p| <= |s| {
          assert s[0..|p|] == s[..|p|];
        }
      }
      forall i | 0 <= i < n - 1
        ensures !OccursAt(s[1..], p, i)
      {
        OccursAtTail(s, p, i + 1);
      }
      RemoveAllKeepsFirst(s[1..], p, n - 1);
      RemoveAllStep(s, p);
      ConsPrefix(s, n, RemoveAll(s[1..][n - 1..], p));
      assert s[1..][n - 1..] == s[n..];
    }
  }

  lemma RemoveAllStep(s: string, p: string)
    requires |p| > 0 && |s| > 0 && !StartsWith(s, p)
    ensures RemoveAll(s, p) == [s[0]] + RemoveAll(s[1..], p)
  {
  }

  /** `k` copies of `c`. */
  function Repeat(c: char, k: nat): (r: string)
    ensures |r| == k
    ensures forall i :: 0 <= i < k ==> r[i] == c
  {
    if k == 0 then [] else [c] + Repeat(c, k - 1)
  }

  /** Length of the run of `c` that `s` starts with. */
  function LeadRun(s: string, c: char): (n: nat)
    ensures n <= |s|
    ensures forall i :: 0 <= i < n ==> s[i] == c
    ensures n < |s| ==> s[n] != c
  {
    if |s| > 0 && s[0] == c then 1 + LeadRun(s[1..], c) else 0
  }

  lemma {:induction false} StartsWithRepeat(s: string, c: char, k: nat)
    ensures StartsWith(s, Repeat(c, k)) <==> LeadRun(s, c) >= k
  {
    if LeadRun(s, c) >= k {
      assert s[..k] == Repeat(c, k);
    }
  }

  /** Removing every run-pattern `c^k` leaves no occurrence of it: a leading
      run shorter than `k` survives unchanged, a longer one is cut below `k`,
      and runs stay separated. */
  lemma {:induction false} RemoveAllRunPattern(s: string, c: char, k: nat)
    requires k > 0
    ensures LeadRun(RemoveAll(s, Repeat(c, k)), c) < k
    ensures LeadRun(s, c) < k ==> LeadRun(RemoveAll(s, Repeat(c, k)), c) == LeadRun(s, c)
    ensures !Contains(RemoveAll(s, Repeat(c, k)), Repeat(c, k))
    decreases |s|
  {
    var p := Repeat(c, k);
    StartsWithRepeat(s, c, k);
    if |s| == 0 {
    } else if StartsWith(s, p) {
      RemoveAllRunPattern(s[k..], c, k);
    } else {
      RemoveAllRunPattern(s[1..], c, k);
      KeptCharStep(s, c, k);
    }
  }

  lemma KeptCharStep(s: string, c: char, k: nat)
    requires k > 0 && |s| > 0 && LeadRun(s, c) < k
    requires LeadRun(RemoveAll(s[1..], Repeat(c, k)), c) < k
    requires LeadRun(s[1..], c) < k ==> LeadRun(RemoveAll(s[1..], Repeat(c, k)), c) == LeadRun(s[1..], c)
    requires !Contains(RemoveAll(s[1..], Repeat(c, k)), Repeat(c, k))
    ensures RemoveAll(s, Repeat(c, k)) == [s[0]] + RemoveAll(s[1..], Repeat(c, k))
    ensures LeadRun(RemoveAll(s, Repeat(c, k)), c) == LeadRun(s, c)
    ensures !Contains(RemoveAll(s, Repeat(c, k)), Repeat(c, k))
  {
    var p := Repeat(c, k);
    var rest := RemoveAll(s[1..], p);
    var r := [s[0]] + rest;
    StartsWithRepeat(s, c, k);
    assert r[1..] == rest;
    StartsWithRepeat(r, c, k);
  }

  lemma LeadRunDrop(s: string, c: char, k: nat)
    requires k <= LeadRun(s, c)
    ensures LeadRun(s[k..], c) == LeadRun(s, c) - k
    decreases k
  {
    if k > 0 {
      assert s[k..] == s[1..][k - 1..];
      LeadRunDrop(s[1..], c, k - 1);
    }
  }

  // ---------------------------------------------------------------------------
  // case mapping (ASCII letters)

  function LowerChar(c: char): char {
    if 'A' <= c <= 'Z' then (c as int + 32) as char else c
  }

  function UpperChar(c: char): char {
    if 'a' <= c <= 'z' then (c as int - 32) as char else c
  }

  /** `s.toLowerCase()` on ASCII letters. */
  function ToLower(s: string): (r: string)
    ensures |r| == |s|
    ensures forall i :: 0 <= i < |s| ==> r[i] == LowerChar(s[i])
  {
    if |s| == 0 then [] else [LowerChar(s[0])] + ToLower(s[1..])
  }

  /** `s.toUpperCase()` on ASCII letters. */
  function ToUpper(s: string): (r: string)
    ensures |r| == |s|
    ensures forall i :: 0 <= i < |s| ==> r[i] == UpperChar(s[i])
  {
    if |s| == 0 then [] else [UpperChar(s[0])] + ToUpper(s[1..])
  }

  lemma ToLowerIdempotent(s: string)
    ensures ToLower(ToLower(s)) == ToLower(s)
  {
  }

  /** Upper-casing and then lower-casing loses nothing that lower-casing keeps. */
  lemma ToLowerOfUpper(s: string)
    ensures ToLower(ToUpper(s)) == ToLower(s)
  {
  }
}
