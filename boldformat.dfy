/**
  `formatMessageContent`: the message text is split with the capturing, global, lazy pattern
  `(\*\*.*?\*\*)`, and every resulting part is rendered bold (two code points stripped from
  each end) when it starts and ends with `**`, and plain otherwise.

  The split follows `RegExp.prototype[@@split]` (ECMA-262, section 22.2.6.14): a probe position
  q walks the string one code point at a time from the end p of the previous match; where the
  pattern matches at q, the text between p and q and the captured match are emitted and both
  p and q move to the end of the match; at the end the remaining text is emitted.
*/
module BoldFormat {
  import opened Wrappers
  import opened JsString

  /** The two-code-point delimiter `**` occupies positions k and k + 1 of s. */
  predicate IsDelimAt(s: string, k: nat) {
    k + 2 <= |s| && s[k] == '*' && s[k + 1] == '*'
  }

  /** No line terminator in s[lo..hi]; this is what the atom `.` repeated requires. */
  predicate LineFree(s: string, lo: nat, hi: nat) {
    forall i :: lo <= i < hi ==> i < |s| && !IsLineTerminator(s[i])
  }

  /** s[q..e] is one match of `\*\*.*?\*\*` (any length of the lazy part). */
  predicate IsMatch(s: string, q: nat, e: nat) {
    q + 4 <= e <= |s| && IsDelimAt(s, q) && IsDelimAt(s, e - 2) && LineFree(s, q + 2, e - 2)
  }

  /** s[q..e] is the match the lazy quantifier picks at q: the shortest one. */
  ghost predicate IsFirstMatch(s: string, q: nat, e: nat) {
    IsMatch(s, q, e) && forall e': nat :: e' < e ==> !IsMatch(s, q, e')
  }

  /**
    The lazy loop `.*?\*\*` started at j: first try the closing `**` at j, else consume one
    code point that is not a line terminator and try again.  Yields the start of the closing
    delimiter.
  */
  function FindClose(s: string, j: nat): (k: Option<nat>)
    ensures k.Some? ==> j <= k.value && k.value + 2 <= |s|
    decreases |s| - j
  {
    if IsDelimAt(s, j) then Some(j)
    else if j < |s| && !IsLineTerminator(s[j]) then FindClose(s, j + 1)
    else None
  }

  /**
    `FindClose` yields the first `**` at or after j that is reached without crossing a line
    terminator, and nothing when there is none.
  */
  lemma {:induction false} FindCloseSpec(s: string, j: nat)
    ensures var k := FindClose(s, j);
      (k.Some? ==> j <= k.value && IsDelimAt(s, k.value) && LineFree(s, j, k.value) &&
                   forall i :: j <= i < k.value ==> !IsDelimAt(s, i)) &&
      (k.None? ==> forall i :: j <= i <= |s| && LineFree(s, j, i) ==> !IsDelimAt(s, i))
    decreases |s| - j
  {
    if !IsDelimAt(s, j) && j < |s| && !IsLineTerminator(s[j]) {
      FindCloseSpec(s, j + 1);
    }
  }

  /** The end of the match of `\*\*.*?\*\*` anchored at q, if the pattern matches there. */
  function MatchAt(s: string, q: nat): (e: Option<nat>)
    ensures e.Some? ==> q + 4 <= e.value <= |s|
  {
    if !IsDelimAt(s, q) then None
    else match FindClose(s, q + 2)
      case None => None
      case Some(k) => Some(k + 2)
  }

  /** `MatchAt` yields the shortest match at q, and nothing when the pattern does not match there. */
  lemma MatchAtSpec(s: string, q: nat)
    ensures MatchAt(s, q).Some? ==> IsFirstMatch(s, q, MatchAt(s, q).value)
    ensures MatchAt(s, q).None? ==> forall e :: !IsMatch(s, q, e)
  {
    FindCloseSpec(s, q + 2);
  }

  /** `MatchAt` finds the first match exactly. */
  lemma MatchAtIff(s: string, q: nat, e: nat)
    ensures MatchAt(s, q) == Some(e) <==> IsFirstMatch(s, q, e)
  {
    MatchAtSpec(s, q);
    if IsFirstMatch(s, q, e) && MatchAt(s, q).Some? {
      var e' := MatchAt(s, q).value;
      assert !(e' < e) && !(e < e');
    }
  }

  /** The pattern matches at no position in [lo, hi). */
  predicate NoMatchIn(s: string, lo: nat, hi: nat) {
    forall k :: lo <= k < hi ==> MatchAt(s, k).None?
  }

  /**
    The scan of `split` with the end of the previous match at p and the probe at q.
    Parts alternate: text between matches at even indices, captured matches at odd ones.
  */
  function SplitFrom(s: string, p: nat, q: nat): (parts: seq<string>)
    requires p <= q <= |s|
    decreases |s| - q
    ensures |parts| % 2 == 1
  {
    if q == |s| then [s[p..]]
    else match MatchAt(s, q)
      case None => SplitFrom(s, p, q + 1)
      case Some(e) => [s[p..q], s[q..e]] + SplitFrom(s, e, e)
  }

  /** The parts of the scan, joined, give back the text scanned: nothing is lost or repeated. */
  lemma {:induction false} SplitFromConcat(s: string, p: nat, q: nat)
    requires p <= q <= |s|
    ensures Concat(SplitFrom(s, p, q)) == s[p..]
    decreases |s| - q
  {
    if q < |s| {
      match MatchAt(s, q)
      case None =>
        SplitFromConcat(s, p, q + 1);
      case Some(e) =>
        SplitFromConcat(s, e, e);
        ConcatAppend([s[p..q], s[q..e]], SplitFrom(s, e, e));
        assert Concat([s[p..q], s[q..e]]) == s[p..q] + s[q..e] by {
          assert [s[p..q], s[q..e]][1..] == [s[q..e]];
          assert [s[q..e]][1..] == [];
        }
    }
  }

  /**
    `**` + text + `**` with no line terminator anywhere: the shape of every captured match.
  */
  predicate IsDelimited(part: string) {
    |part| >= 4 && IsDelimAt(part, 0) && IsDelimAt(part, |part| - 2) && LineFree(part, 0, |part|)
  }

  /** Every part the scan captures is `**…**` on one line. */
  lemma {:induction false} SplitFromDelimited(s: string, p: nat, q: nat)
    requires p <= q <= |s|
    ensures forall i :: 0 <= i < |SplitFrom(s, p, q)| && i % 2 == 1 ==> IsDelimited(SplitFrom(s, p, q)[i])
    decreases |s| - q
  {
    if q < |s| {
      match MatchAt(s, q)
      case None =>
        assert SplitFrom(s, p, q) == SplitFrom(s, p, q + 1);
        SplitFromDelimited(s, p, q + 1);
      case Some(e) =>
        MatchAtSpec(s, q);
        SplitFromDelimited(s, e, e);
        var parts := SplitFrom(s, p, q);
        assert IsDelimited(parts[1]) by {
          assert parts[1] == s[q..e];
        }
        forall i | 2 <= i < |parts| && i % 2 == 1 ensures IsDelimited(parts[i]) {
          assert parts[i] == SplitFrom(s, e, e)[i - 2];
        }
    }
  }

  /** `content.split(/(\*\*.*?\*\*)/g)`. */
  function Split(content: string): (parts: seq<string>)
    ensures |parts| % 2 == 1
    ensures Concat(parts) == content
    ensures forall i :: 0 <= i < |parts| && i % 2 == 1 ==> IsDelimited(parts[i])
  {
    SplitFromConcat(content, 0, 0);
    SplitFromDelimited(content, 0, 0);
    SplitFrom(content, 0, 0)
  }

  /**
    Declarative reading of the split, independent of the scan: s[base..] is a gap in which
    the pattern matches nowhere, followed by zero or more pairs of (first match at the end of
    the gap, next gap).
  */
  ghost predicate IsSplit(s: string, base: nat, parts: seq<string>)
    decreases |parts|
  {
    |parts| % 2 == 1 && base + |parts[0]| <= |s| &&
    parts[0] == s[base..base + |parts[0]|] && NoMatchIn(s, base, base + |parts[0]|) &&
    if |parts| == 1 then base + |parts[0]| == |s|
    else
      var q := base + |parts[0]|;
      var e := q + |parts[1]|;
      MatchAt(s, q) == Some(e) && parts[1] == s[q..e] && IsSplit(s, e, parts[2..])
  }

  /** A gap followed by a first match and a split of the rest is a split. */
  lemma IsSplitCons(s: string, p: nat, q: nat, e: nat, rest: seq<string>)
    requires p <= q <= e <= |s| && NoMatchIn(s, p, q) && MatchAt(s, q) == Some(e) && IsSplit(s, e, rest)
    ensures IsSplit(s, p, [s[p..q], s[q..e]] + rest)
  {
    var parts := [s[p..q], s[q..e]] + rest;
    assert parts[0] == s[p..q] && parts[1] == s[q..e] && parts[2..] == rest;
  }

  /** The scan produces a split in the declarative sense. */
  lemma {:induction false} SplitFromIsSplit(s: string, p: nat, q: nat)
    requires p <= q <= |s| && NoMatchIn(s, p, q)
    ensures IsSplit(s, p, SplitFrom(s, p, q))
    decreases |s| - q
  {
    if q == |s| {
      assert SplitFrom(s, p, q) == [s[p..]];
    } else {
      match MatchAt(s, q)
      case None =>
        assert NoMatchIn(s, p, q + 1);
        SplitFromIsSplit(s, p, q + 1);
      case Some(e) =>
        SplitFromIsSplit(s, e, e);
        IsSplitCons(s, p, q, e, SplitFrom(s, e, e));
    }
  }

  /** Probing positions where the pattern does not match changes nothing. */
  lemma {:induction false} SkipGap(s: string, p: nat, q: nat, q': nat)
    requires p <= q <= q' <= |s| && NoMatchIn(s, q, q')
    ensures SplitFrom(s, p, q) == SplitFrom(s, p, q')
    decreases q' - q
  {
    if q < q' {
      SkipGap(s, p, q + 1, q');
    }
  }

  /** What a declarative split says about its first gap and, if any, its first match. */
  lemma IsSplitHead(s: string, base: nat, parts: seq<string>)
    requires IsSplit(s, base, parts)
    ensures var q := base + |parts[0]|;
      q <= |s| && parts[0] == s[base..q] && NoMatchIn(s, base, q) &&
      (|parts| == 1 ==> q == |s| && parts == [s[base..]]) &&
      (|parts| > 1 ==> var e := q + |parts[1]|;
        MatchAt(s, q) == Some(e) && parts[1] == s[q..e] && IsSplit(s, e, parts[2..]) &&
        parts == [s[base..q], s[q..e]] + parts[2..])
  {
    if |parts| == 1 {
      assert base + |parts[0]| == |s|;
      assert parts[0] == s[base..];
      assert parts == [parts[0]];
    } else {
      assert parts == [parts[0], parts[1]] + parts[2..];
    }
  }

  /** One step of the scan at a position where the pattern matches. */
  lemma SplitFromAtMatch(s: string, p: nat, q: nat, e: nat)
    requires p <= q <= |s| && MatchAt(s, q) == Some(e)
    ensures SplitFrom(s, p, q) == [s[p..q], s[q..e]] + SplitFrom(s, e, e)
  {
  }

  /** A declarative split of one part is the scan's result. */
  lemma IsSplitLast(s: string, base: nat, parts: seq<string>)
    requires IsSplit(s, base, parts) && |parts| == 1
    ensures parts == SplitFrom(s, base, base)
  {
    IsSplitHead(s, base, parts);
    SkipGap(s, base, base, |s|);
  }

  /** The scan across a gap and the first match after it. */
  lemma ScanAfterGap(s: string, p: nat, q: nat, e: nat)
    requires p <= q <= |s| && NoMatchIn(s, p, q) && MatchAt(s, q) == Some(e)
    ensures SplitFrom(s, p, p) == [s[p..q], s[q..e]] + SplitFrom(s, e, e)
  {
    SkipGap(s, p, p, q);
    SplitFromAtMatch(s, p, q, e);
  }

  /**
    A declarative split of more parts is the scan's result if its tail, itself a declarative
    split, is the scan's result from the end of the first match.
  */
  lemma IsSplitStep(s: string, base: nat, parts: seq<string>)
    requires IsSplit(s, base, parts) && |parts| > 1
    ensures var e := base + |parts[0]| + |parts[1]|;
      base < e <= |s| && IsSplit(s, e, parts[2..]) &&
      (parts[2..] == SplitFrom(s, e, e) ==> parts == SplitFrom(s, base, base))
  {
    IsSplitHead(s, base, parts);
    var q := base + |parts[0]|;
    ScanAfterGap(s, base, q, q + |parts[1]|);
  }

  /** A split in the declarative sense is the one the scan produces. */
  lemma {:induction false} IsSplitUnique(s: string, base: nat, parts: seq<string>)
    requires base <= |s| && IsSplit(s, base, parts)
    ensures parts == SplitFrom(s, base, base)
    decreases |parts|
  {
    if |parts| == 1 {
      IsSplitLast(s, base, parts);
    } else {
      IsSplitStep(s, base, parts);
      var e := base + |parts[0]| + |parts[1]|;
      IsSplitUnique(s, e, parts[2..]);
    }
  }

  /** `Split` is characterised by the declarative reading, in both directions. */
  lemma SplitCharacterised(content: string, parts: seq<string>)
    ensures IsSplit(content, 0, parts) <==> parts == Split(content)
  {
    SplitFromIsSplit(content, 0, 0);
    if IsSplit(content, 0, parts) {
      IsSplitUnique(content, 0, parts);
    }
  }

  /** Text in which the pattern matches nowhere is returned whole, and only such text is. */
  lemma SplitSingleIff(content: string)
    ensures Split(content) == [content] <==> NoMatchIn(content, 0, |content|)
  {
    SplitFromIsSplit(content, 0, 0);
    if NoMatchIn(content, 0, |content|) {
      SkipGap(content, 0, 0, |content|);
    }
  }
  /** The first part is empty exactly when the content is empty or a match starts it. */
  lemma LeadingMatchEmpty(s: string)
    ensures Split(s)[0] == "" <==> s == "" || MatchAt(s, 0).Some?
  {
    var parts := Split(s);
    SplitCharacterised(s, parts);
    assert IsSplit(s, 0, parts);
  }

  /**
    When there is a captured match, the last part is empty exactly when the text up to the
    end of the last captured match is the whole content.
  */
  lemma TrailingMatchEmpty(s: string)
    requires |Split(s)| > 1
    ensures var n := |Split(s)|;
      Split(s)[n - 1] == "" <==> Concat(Split(s)[..n - 1]) == s
  {
    var parts := Split(s);
    var n := |parts|;
    ConcatAppend(parts[..n - 1], [parts[n - 1]]);
    assert parts[..n - 1] + [parts[n - 1]] == parts;
    assert Concat([parts[n - 1]]) == parts[n - 1] by {
      assert [parts[n - 1]][1..] == [];
    }
  }


  // ---------------------------------------------------------------------------------------
  // Rendering

  /** A rendered fragment: `<strong>` or `<span>` with its text. */
  datatype Fragment = Plain(text: string) | Bold(text: string)

  /** The classification of one part, by its first and last two code points only. */
  function RenderPart(part: string): Fragment {
    if StartsWith(part, "**") && EndsWith(part, "**") then Bold(Slice(part, 2, -2))
    else Plain(part)
  }

  /** `formatMessageContent(content)`: split, then classify each part in order. */
  function FormatMessageContent(content: string): (frags: seq<Fragment>)
    ensures |frags| == |Split(content)|
  {
    var parts := Split(content);
    seq(|parts|, i requires 0 <= i < |parts| => RenderPart(parts[i]))
  }

  /**
    A part is rendered bold exactly when it starts and ends with `**`; bold text is the part
    without its first two and last two code points (empty for `**` and `***`), plain text is
    the part itself.
  */
  lemma RenderPartSpec(part: string)
    ensures RenderPart(part).Bold? <==> |part| >= 2 && part[..2] == "**" && part[|part| - 2..] == "**"
    ensures RenderPart(part).Bold? && |part| >= 4 ==> part == "**" + RenderPart(part).text + "**"
    ensures RenderPart(part).Bold? && |part| < 4 ==> RenderPart(part).text == ""
    ensures RenderPart(part).Plain? ==> RenderPart(part).text == part
  {
    SliceStripsTwo(part);
    if RenderPart(part).Bold? && |part| >= 4 {
      assert part == part[..2] + part[2..|part| - 2] + part[|part| - 2..];
    }
  }

  /** Every captured match is rendered bold with its delimiters stripped. */
  lemma MatchesRenderBold(content: string, i: nat)
    requires i < |Split(content)| && i % 2 == 1
    ensures var part := Split(content)[i];
      FormatMessageContent(content)[i] == Bold(part[2..|part| - 2]) &&
      part == "**" + FormatMessageContent(content)[i].text + "**" &&
      LineFree(FormatMessageContent(content)[i].text, 0, |part| - 4)
  {
    var part := Split(content)[i];
    assert IsDelimited(part);
    RenderPartSpec(part);
    SliceStripsTwo(part);
  }

  /**
    Text where the pattern matches nowhere yields a single fragment for the whole text; it is
    plain unless the text itself starts and ends with `**`.
  */
  lemma FormatNoMatch(content: string)
    requires NoMatchIn(content, 0, |content|)
    ensures FormatMessageContent(content) == [RenderPart(content)]
    ensures !(StartsWith(content, "**") && EndsWith(content, "**")) ==>
              FormatMessageContent(content) == [Plain(content)]
  {
    SplitSingleIff(content);
  }

  // ---------------------------------------------------------------------------------------
  // Worked examples

  /** Text wrapped in `**` delimiters is rendered bold as that text. */
  lemma RenderBold(t: string)
    ensures RenderPart("**" + t + "**") == Bold(t)
  {
    var part := "**" + t + "**";
    SliceStripsTwo(part);
    assert part[2..|part| - 2] == t;
  }

  /** The rendering of a message that splits into three parts, one by one. */
  lemma FormatThree(content: string, a: string, b: string, c: string)
    requires Split(content) == [a, b, c]
    ensures FormatMessageContent(content) == [RenderPart(a), RenderPart(b), RenderPart(c)]
  {
  }

  /** Where the pattern matches in "a **b** c": at position 2 only, up to position 7. */
  lemma MiddleMatches()
    ensures var s := "a **b** c";
      MatchAt(s, 0) == None && MatchAt(s, 1) == None && MatchAt(s, 2) == Some(7) &&
      MatchAt(s, 7) == None && MatchAt(s, 8) == None
  {
    var s := "a **b** c";
    assert IsDelimAt(s, 2) && !IsDelimAt(s, 4) && IsDelimAt(s, 5);
    assert FindClose(s, 5) == Some(5);
    assert FindClose(s, 4) == Some(5);
    assert !IsDelimAt(s, 0) && !IsDelimAt(s, 1) && !IsDelimAt(s, 7) && !IsDelimAt(s, 8);
  }

  /** "a **b** c" splits around its one match. */
  lemma MiddleSplit()
    ensures Split("a **b** c") == ["a ", "**b**", " c"]
  {
    var s := "a **b** c";
    MiddleMatches();
    SkipGap(s, 7, 7, 9);
    assert s[7..] == " c" && SplitFrom(s, 7, 7) == [" c"];
    SkipGap(s, 0, 0, 2);
    SplitFromAtMatch(s, 0, 2, 7);
    assert s[0..2] == "a " && s[2..7] == "**b**";
  }

  /** A bold span in the middle: plain, bold, plain. */
  lemma ExampleMiddle()
    ensures FormatMessageContent("a **b** c") == [Plain("a "), Bold("b"), Plain(" c")]
  {
    MiddleSplit();
    FormatThree("a **b** c", "a ", "**b**", " c");
    RenderBold("b");
    assert "**" + "b" + "**" == "**b**";
    assert RenderPart("a ") == Plain("a ") && RenderPart(" c") == Plain(" c");
  }

  /** "**x**" matches at 0, up to its end. */
  lemma WholeMatches()
    ensures MatchAt("**x**", 0) == Some(5)
  {
    var s := "**x**";
    assert !IsDelimAt(s, 2) && IsDelimAt(s, 3);
    assert FindClose(s, 3) == Some(3);
  }

  /** "**x**" splits into "", the whole message, "". */
  lemma WholeSplit()
    ensures Split("**x**") == ["", "**x**", ""]
  {
    var s := "**x**";
    WholeMatches();
    SplitFromAtMatch(s, 0, 0, 5);
    assert s[5..] == "" && SplitFrom(s, 5, 5) == [""];
    assert s[0..0] == "" && s[0..5] == "**x**";
  }

  /** A whole-message bold span leaves an empty plain part on either side. */
  lemma ExampleWhole()
    ensures FormatMessageContent("**x**") == [Plain(""), Bold("x"), Plain("")]
  {
    WholeSplit();
    FormatThree("**x**", "", "**x**", "");
    RenderBold("x");
    assert "**" + "x" + "**" == "**x**";
    assert RenderPart("") == Plain("");
  }

  /** Where the pattern matches in "Q1 revenue was **$2M**": first at 15, up to the end. */
  lemma TrailingMatches()
    ensures var s := "Q1 revenue was **$2M**";
      NoMatchIn(s, 0, 15) && MatchAt(s, 15) == Some(22)
  {
    var s := "Q1 revenue was **$2M**";
    assert '*' !in s[..15];
    forall k | 0 <= k < 15 ensures MatchAt(s, k).None? {
      assert s[k] == s[..15][k];
    }
    assert !IsDelimAt(s, 17) && !IsDelimAt(s, 18) && IsDelimAt(s, 20);
    assert FindClose(s, 20) == Some(20);
    assert FindClose(s, 19) == Some(20);
    assert FindClose(s, 18) == Some(20);
    assert FindClose(s, 17) == Some(20);
  }

  /** "Q1 revenue was **$2M**" splits into the text before the match, the match and "". */
  lemma TrailingSplit()
    ensures Split("Q1 revenue was **$2M**") == ["Q1 revenue was ", "**$2M**", ""]
  {
    var s := "Q1 revenue was **$2M**";
    TrailingMatches();
    SkipGap(s, 0, 0, 15);
    SplitFromAtMatch(s, 0, 15, 22);
    assert s[22..] == "" && SplitFrom(s, 22, 22) == [""];
    assert s[0..15] == "Q1 revenue was " && s[15..22] == "**$2M**";
  }

  /** A bold span at the very end leaves an empty plain part after it. */
  lemma ExampleTrailing()
    ensures FormatMessageContent("Q1 revenue was **$2M**") ==
              [Plain("Q1 revenue was "), Bold("$2M"), Plain("")]
  {
    TrailingSplit();
    FormatThree("Q1 revenue was **$2M**", "Q1 revenue was ", "**$2M**", "");
    RenderBold("$2M");
    assert "**" + "$2M" + "**" == "**$2M**";
    assert RenderPart("Q1 revenue was ") == Plain("Q1 revenue was ") && RenderPart("") == Plain("");
  }

  /** Text without any `*` is one plain fragment equal to the text. */
  lemma ExamplePlain(s: string)
    requires '*' !in s
    ensures FormatMessageContent(s) == [Plain(s)]
  {
    assert NoMatchIn(s, 0, |s|) by {
      forall k | 0 <= k < |s| ensures MatchAt(s, k).None? {
        assert s[k] in s;
      }
    }
    if |s| >= 2 {
      assert s[0] in s;
    }
    FormatNoMatch(s);
  }

  /** The lone delimiters `**` and `***` are not matches, yet they are rendered as empty bold. */
  lemma QuirkLoneDelimiters()
    ensures FormatMessageContent("**") == [Bold("")]
    ensures FormatMessageContent("***") == [Bold("")]
  {
    assert NoMatchIn("**", 0, 2);
    FormatNoMatch("**");
    SliceStripsTwo("**");
    var s := "***";
    assert NoMatchIn(s, 0, 3);
    FormatNoMatch(s);
    SliceStripsTwo(s);
  }

  /** A `**…**` pair with a line break inside is no match, yet it is rendered bold. */
  lemma QuirkLineBreak()
    ensures FormatMessageContent("**a\nb**") == [Bold("a\nb")]
  {
    var s := "**a\nb**";
    assert NoMatchIn(s, 0, |s|) by {
      assert IsDelimAt(s, 0) && !IsDelimAt(s, 2) && !IsDelimAt(s, 3) && IsLineTerminator(s[3]);
      assert FindClose(s, 2) == None;
      assert IsDelimAt(s, 5) && FindClose(s, 7) == None;
    }
    FormatNoMatch(s);
    SliceStripsTwo(s);
    assert s[2..5] == "a\nb";
  }

  // ---------------------------------------------------------------------------------------
  // Rendering only the captured matches bold

  /** One fragment as markup: plain text as it is, bold text between `**` delimiters. */
  function FragmentMarkup(f: Fragment): string {
    match f
    case Plain(t) => t
    case Bold(t) => "**" + t + "**"
  }

  /** The delimiters put back around bold text: the inverse of rendering. */
  function Markup(frags: seq<Fragment>): string {
    if frags == [] then "" else FragmentMarkup(frags[0]) + Markup(frags[1..])
  }

  /**
    Classification by position in the split rather than by the part's ends: captured matches
    (odd indices) are bold without their delimiters, the text between them is plain.
  */
  function FormatMatches(content: string): (frags: seq<Fragment>)
    ensures |frags| == |Split(content)|
    ensures forall i :: 0 <= i < |frags| ==> (frags[i].Bold? <==> i % 2 == 1)
  {
    var parts := Split(content);
    seq(|parts|, i requires 0 <= i < |parts| =>
      if i % 2 == 1 then Bold(parts[i][2..|parts[i]| - 2]) else Plain(parts[i]))
  }

  lemma {:induction false} MarkupOfParts(frags: seq<Fragment>, parts: seq<string>)
    requires |frags| == |parts|
    requires forall i :: 0 <= i < |parts| ==> FragmentMarkup(frags[i]) == parts[i]
    ensures Markup(frags) == Concat(parts)
  {
    if frags != [] {
      forall i | 0 <= i < |parts| - 1 ensures FragmentMarkup(frags[1..][i]) == parts[1..][i] {
        assert frags[1..][i] == frags[i + 1];
      }
      MarkupOfParts(frags[1..], parts[1..]);
    }
  }

  /** Putting the delimiters back around the bold fragments gives back the message. */
  lemma MarkupRoundTrip(content: string)
    ensures Markup(FormatMatches(content)) == content
  {
    var parts, frags := Split(content), FormatMatches(content);
    forall i | 0 <= i < |parts| ensures FragmentMarkup(frags[i]) == parts[i] {
      if i % 2 == 1 {
        DelimitersRestored(parts[i]);
      }
    }
    MarkupOfParts(frags, parts);
  }

  lemma DelimitersRestored(p: string)
    requires IsDelimited(p)
    ensures FragmentMarkup(Bold(p[2..|p| - 2])) == p
  {
    assert p == p[..2] + p[2..|p| - 2] + p[|p| - 2..];
  }

  /**
    The rendering as written and the one by position differ exactly on the text between
    matches that itself starts and ends with `**`.
  */
  lemma FormatsDiffer(content: string, i: nat)
    requires i < |Split(content)|
    ensures var part := Split(content)[i];
      FormatMessageContent(content)[i] != FormatMatches(content)[i] <==>
      i % 2 == 0 && StartsWith(part, "**") && EndsWith(part, "**")
  {
    var part := Split(content)[i];
    RenderPartSpec(part);
    if i % 2 == 1 {
      MatchesRenderBold(content, i);
    }
  }

  /** The as-written rendering loses the delimiters of `**`; the one by position does not. */
  lemma LoneDelimitersLost()
    ensures Markup(FormatMessageContent("**")) == "****"
    ensures Markup(FormatMatches("**")) == "**"
  {
    LoneDelimitersDoubled();
    MarkupRoundTrip("**");
  }

  /** Putting the delimiters back around the component's rendering of "**" doubles them. */
  lemma LoneDelimitersDoubled()
    ensures Markup(FormatMessageContent("**")) == "****"
  {
    QuirkLoneDelimiters();
    MarkupSingle(Bold(""));
  }

  /** The markup of a single fragment. */
  lemma MarkupSingle(f: Fragment)
    ensures Markup([f]) == FragmentMarkup(f)
  {
    assert [f][1..] == [];
  }
}
