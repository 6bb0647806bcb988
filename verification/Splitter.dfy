/**
Cutting a long reply into channel-sized chunks (src/stackowl/channels/splitter.py:21-162). The
regular expressions are written out as scanners.
*/
module Splitter {
  import opened Common
  import opened Text

  const PARAGRAPH_LOOKBACK := 400

  // ---- Preferred cuts ----

  predicate IsTerminator(c: char) {
    c == '.' || c == '?' || c == '!' || c == '\U{3002}' || c == '\U{ff1f}' || c == '\U{ff01}'
  }

  /** A paragraph break ends at `e`: two newlines right before it. */
  predicate BreakEndsAt(w: string, e: nat) {
    2 <= e <= |w| && w[e - 2] == '\n' && w[e - 1] == '\n'
  }

  /** The last paragraph break that ends at or before `e` and lies at or after `from`. */
  function LastBreak(w: string, from: nat, e: nat): (r: Option<nat>)
    requires e <= |w|
    ensures r.Some? ==> from + 2 <= r.value <= e && BreakEndsAt(w, r.value)
    ensures forall k :: (if r.Some? then r.value else from + 1) < k <= e ==> !BreakEndsAt(w, k)
  {
    if e < from + 2 then None else if BreakEndsAt(w, e) then Some(e) else LastBreak(w, from, e - 1)
  }

  function LookbackStart(w: string): nat {
    if |w| <= PARAGRAPH_LOOKBACK then 0 else |w| - PARAGRAPH_LOOKBACK
  }

  function ParagraphCut(w: string): Option<nat> {
    LastBreak(w, LookbackStart(w), |w|)
  }

  /** Where the whitespace run that ends at `e` starts. */
  function RunStart(w: string, e: nat): (i: nat)
    requires e <= |w|
    ensures i <= e && (forall k :: i <= k < e ==> IsSpace(w[k])) && (i > 0 ==> !IsSpace(w[i - 1]))
  {
    if e == 0 || !IsSpace(w[e - 1]) then e else RunStart(w, e - 1)
  }

  /** A sentence boundary ends at `e`: a maximal whitespace run after a sentence terminator. */
  predicate SentenceEndsAt(w: string, e: nat) {
    && e <= |w| && (e == |w| || !IsSpace(w[e]))
    && 0 < RunStart(w, e) < e && IsTerminator(w[RunStart(w, e) - 1])
  }

  function LastSentence(w: string, e: nat): (r: Option<nat>)
    requires e <= |w|
    ensures r.Some? ==> 2 <= r.value <= e && SentenceEndsAt(w, r.value)
    ensures forall k: nat :: (r.None? || r.value < k) && k <= e ==> !SentenceEndsAt(w, k)
  {
    if SentenceEndsAt(w, e) then Some(e) else if e == 0 then None else LastSentence(w, e - 1)
  }

  function SentenceCut(w: string): Option<nat> {
    LastSentence(w, |w|)
  }

  /** Paragraph before sentence before the hard limit. */
  function PreferredCut(text: string, limit: nat): (cut: nat)
    requires 0 < limit < |text|
    ensures 0 < cut <= limit
  {
    var w := text[..limit];
    if ParagraphCut(w).Some? then ParagraphCut(w).value
    else if SentenceCut(w).Some? then SentenceCut(w).value
    else limit
  }

  // ---- Fences ----

  /** A complete marker of three backticks starts at `k`. */
  predicate MarkerAt(text: string, k: nat) {
    k + 3 <= |text| && text[k] == '`' && text[k + 1] == '`' && text[k + 2] == '`'
  }

  /** Starts of the complete, non-overlapping fence markers in `text[i..end]`, scanned from `i`. */
  function Fences(text: string, i: nat, end: nat): (fs: seq<nat>)
    requires end <= |text|
    ensures forall k :: 0 <= k < |fs| ==> i <= fs[k] && fs[k] + 3 <= end
    ensures forall k :: 0 <= k < |fs| ==> MarkerAt(text, fs[k])
    ensures forall j, k :: 0 <= j < k < |fs| ==> fs[j] + 3 <= fs[k]
    decreases |text| + 3 - i
  {
    if i + 3 > end then []
    else if MarkerAt(text, i) then [i] + Fences(text, i + 3, end)
    else Fences(text, i + 1, end)
  }

  /** Every marker in the range is found or overlaps one that is. */
  lemma {:induction false} FencesMissNone(text: string, i: nat, end: nat, k: nat) returns (f: nat)
    requires end <= |text| && i <= k && k + 3 <= end && MarkerAt(text, k)
    ensures f in Fences(text, i, end) && f <= k < f + 3
    decreases |text| + 3 - i
  {
    if !MarkerAt(text, i) {
      f := FencesMissNone(text, i + 1, end, k);
    } else if k < i + 3 {
      f := i;
      assert ([i] + Fences(text, i + 3, end))[0] == i;
    } else {
      f := FencesMissNone(text, i + 3, end, k);
      assert f in [i] + Fences(text, i + 3, end);
    }
  }

  /** An odd number of markers before the cut: back to the last one. */
  function AvoidOpenFence(text: string, cut: nat): (c: nat)
    requires cut <= |text|
    ensures c <= cut
  {
    var fs := Fences(text, 0, cut);
    if |fs| % 2 == 1 then Last(fs) else cut
  }

  /** One position of the scan. */
  lemma FencesStep(text: string, i: nat, end: nat)
    requires end <= |text|
    ensures Fences(text, i, end) ==
            if i + 3 > end then []
            else if MarkerAt(text, i) then [i] + Fences(text, i + 3, end)
            else Fences(text, i + 1, end)
  {
  }

  lemma LastBehind(i: nat, rest: seq<nat>)
    ensures rest != [] ==> Last([i] + rest) == Last(rest) && ([i] + rest)[..|rest|] == [i] + rest[..|rest| - 1]
    ensures rest == [] ==> Last([i] + rest) == i && ([i] + rest)[..|rest|] == []
  {
  }

  /** Ending the scan at the last marker drops exactly that marker. */
  lemma {:induction false} FencesBeforeLast(text: string, i: nat, end: nat)
    requires end <= |text| && Fences(text, i, end) != []
    ensures var fs := Fences(text, i, end); Fences(text, i, Last(fs)) == fs[..|fs| - 1]
    decreases |text| + 3 - i
  {
    hide Fences, MarkerAt;
    var fs := Fences(text, i, end);
    FencesStep(text, i, end);
    FencesStep(text, i, Last(fs));
    if MarkerAt(text, i) {
      var rest := Fences(text, i + 3, end);
      LastBehind(i, rest);
      if rest != [] {
        FencesBeforeLast(text, i + 3, end);
      }
    } else {
      FencesBeforeLast(text, i + 1, end);
      FencesStep(text, i + 1, Last(fs));
    }
  }

  /** After the fence retreat an even number of complete markers precedes the cut. */
  lemma FenceParityEven(text: string, cut: nat)
    requires cut <= |text|
    ensures |Fences(text, 0, AvoidOpenFence(text, cut))| % 2 == 0
  {
    if |Fences(text, 0, cut)| % 2 == 1 {
      FencesBeforeLast(text, 0, cut);
    }
  }

  // ---- Links ----

  datatype Span = Span(start: nat, end: nat)

  /** First position from `i` on of a character in `stops`, or the end. */
  function FindAny(text: string, i: nat, stops: string): (j: nat)
    requires i <= |text|
    ensures i <= j <= |text| && (j < |text| ==> text[j] in stops) && forall k :: i <= k < j ==> text[k] !in stops
    decreases |text| - i
  {
    if i == |text| || text[i] in stops then i else FindAny(text, i + 1, stops)
  }

  /** First position from `i` on of a closing parenthesis or whitespace, or the end. */
  function UrlEnd(text: string, i: nat): (j: nat)
    requires i <= |text|
    ensures i <= j <= |text| && (j < |text| ==> text[j] == ')' || IsSpace(text[j]))
    ensures forall k :: i <= k < j ==> text[k] != ')' && !IsSpace(text[k])
    decreases |text| - i
  {
    if i == |text| || text[i] == ')' || IsSpace(text[i]) then i else UrlEnd(text, i + 1)
  }

  /** The end of the link that starts at `i`: `<...>` without angle brackets inside, or `[text](url)`. */
  function LinkAt(text: string, i: nat): (e: Option<nat>)
    requires i < |text|
    ensures e.Some? ==> i < e.value <= |text|
  {
    if text[i] == '<' then
      var j := FindAny(text, i + 1, "<>");
      if i + 1 < j < |text| && text[j] == '>' then Some(j + 1) else None
    else if text[i] == '[' then
      var j := FindAny(text, i + 1, "]");
      if !(i + 1 < j && j + 1 < |text| && text[j + 1] == '(') then None
      else
        var k := UrlEnd(text, j + 2);
        if j + 2 < k < |text| && text[k] == ')' then Some(k + 1) else None
    else None
  }

  predicate Ordered(spans: seq<Span>, i: nat, n: nat) {
    && (forall k :: 0 <= k < |spans| ==> i <= spans[k].start < spans[k].end <= n)
    && (forall j, k :: 0 <= j < k < |spans| ==> spans[j].end <= spans[k].start)
  }

  /** The link spans found by the left-to-right scan from `i`: ordered and disjoint. */
  function Links(text: string, i: nat): (spans: seq<Span>)
    requires i <= |text|
    ensures Ordered(spans, i, |text|)
    ensures forall k :: 0 <= k < |spans| ==> LinkAt(text, spans[k].start) == Some(spans[k].end)
    decreases |text| - i
  {
    if i == |text| then []
    else
      var e := LinkAt(text, i);
      if e.Some? then [Span(i, e.value)] + Links(text, e.value) else Links(text, i + 1)
  }

  /** `<[^<>]+>` */
  predicate IsAngleLink(s: string) {
    |s| >= 3 && s[0] == '<' && Last(s) == '>' && forall k :: 0 < k < |s| - 1 ==> s[k] != '<' && s[k] != '>'
  }

  /** `\[[^\]]+\]\([^)\s]+\)` with the closing bracket at `j`. */
  predicate IsTextLink(s: string, j: nat) {
    && 2 <= j && j + 3 < |s| && s[0] == '[' && s[j] == ']' && s[j + 1] == '(' && Last(s) == ')'
    && (forall k :: 0 < k < j ==> s[k] != ']')
    && (forall k :: j + 2 <= k < |s| - 1 ==> s[k] != ')' && !IsSpace(s[k]))
  }

  /** The scanner finds exactly the texts the link pattern describes. */
  lemma LinkAtIffPattern(text: string, i: nat, e: nat)
    requires i < e <= |text|
    ensures LinkAt(text, i) == Some(e) <==> IsAngleLink(text[i..e]) || exists j :: IsTextLink(text[i..e], j)
  {
    hide IsSpace;
    var s := text[i..e];
    assert forall k :: 0 <= k < |s| ==> s[k] == text[i + k];
    assert Last(s) == text[e - 1];
    if LinkAt(text, i) == Some(e) {
      if text[i] == '[' {
        var j := FindAny(text, i + 1, "]");
        assert text[j] == ']';
        assert IsTextLink(s, j - i);
      } else {
        assert forall k :: i + 1 <= k < e - 1 ==> text[k] !in "<>";
        assert '<' in "<>" && '>' in "<>";
      }
    } else if IsAngleLink(s) {
      AngleLinkFound(text, i, e);
    } else if j :| IsTextLink(s, j) {
      TextLinkFound(text, i, e, j);
    }
  }

  lemma AngleLinkFound(text: string, i: nat, e: nat)
    requires i < e <= |text| && IsAngleLink(text[i..e])
    ensures LinkAt(text, i) == Some(e)
  {
    var s := text[i..e];
    assert text[i] == s[0] && text[e - 1] == s[|s| - 1];
    forall k | i + 1 <= k < e - 1 ensures text[k] !in "<>" {
      assert text[k] == s[k - i];
    }
    assert text[e - 1] in "<>";
    assert FindAny(text, i + 1, "<>") == e - 1;
  }

  lemma TextLinkFound(text: string, i: nat, e: nat, j: nat)
    requires i < e <= |text| && IsTextLink(text[i..e], j)
    ensures LinkAt(text, i) == Some(e)
  {
    hide IsSpace;
    var s := text[i..e];
    assert forall k :: 0 <= k < |s| ==> text[i + k] == s[k];
    assert text[i] == s[0] && text[i + j] == s[j] && text[i + j + 1] == s[j + 1] && text[e - 1] == s[|s| - 1];
    forall k | i + 1 <= k < i + j ensures text[k] !in "]" {
      assert text[k] == s[k - i];
    }
    assert text[i + j] in "]";
    assert FindAny(text, i + 1, "]") == i + j;
    forall k | i + j + 2 <= k < e - 1 ensures text[k] != ')' && !IsSpace(text[k]) {
      assert text[k] == s[k - i];
    }
    assert UrlEnd(text, i + j + 2) == e - 1;
  }

  /** Every link of the text is in the scan or starts inside one that is. */
  lemma {:induction false} LinksMissNone(text: string, from: nat, i: nat)
    requires from <= i < |text| && LinkAt(text, i).Some?
    ensures exists s :: s in Links(text, from) && (s == Span(i, LinkAt(text, i).value) || s.start < i < s.end)
    decreases |text| - from
  {
    hide LinkAt;
    var e := LinkAt(text, from);
    LinkAtBounds(text, from);
    if e.None? {
      LinksMissNone(text, from + 1, i);
    } else {
      assert Span(from, e.value) in Links(text, from);
      if i >= e.value {
        LinksMissNone(text, e.value, i);
      }
    }
  }

  lemma LinkAtBounds(text: string, i: nat)
    requires i < |text|
    ensures LinkAt(text, i).Some? ==> i < LinkAt(text, i).value <= |text|
  {
  }

  predicate Straddles(s: Span, cut: nat) {
    s.start < cut < s.end
  }

  /** No link of the scan is cut in two. */
  predicate NoLinkSplit(text: string, cut: nat) {
    forall k :: 0 <= k < |Links(text, 0)| ==> !Straddles(Links(text, 0)[k], cut)
  }

  /** Back to the start of the link the cut would split, if there is one. */
  function Retreat(spans: seq<Span>, cut: nat): (c: nat)
    ensures c <= cut
  {
    if spans == [] then cut
    else if Straddles(spans[0], cut) then spans[0].start
    else Retreat(spans[1..], cut)
  }

  lemma {:induction false} RetreatSplitsNothing(spans: seq<Span>, i: nat, n: nat, cut: nat)
    requires Ordered(spans, i, n)
    ensures forall k :: 0 <= k < |spans| ==> !Straddles(spans[k], Retreat(spans, cut))
    ensures Retreat(spans, cut) == cut
            || exists k :: 0 <= k < |spans| && spans[k].start == Retreat(spans, cut) && Straddles(spans[k], cut)
    decreases |spans|
  {
    if spans != [] && !Straddles(spans[0], cut) {
      assert Ordered(spans[1..], spans[0].end, n);
      RetreatSplitsNothing(spans[1..], spans[0].end, n, cut);
      var c := Retreat(spans, cut);
      assert forall k :: 1 <= k < |spans| ==> spans[k] == spans[1..][k - 1];
      if c != cut {
        var k :| 0 <= k < |spans[1..]| && spans[1..][k].start == c && Straddles(spans[1..][k], cut);
        assert spans[k + 1].start == c && Straddles(spans[k + 1], cut);
        assert spans[0].end <= spans[k + 1].start;
      }
    }
  }

  function AvoidSplitLink(text: string, cut: nat): (c: nat)
    ensures c <= cut
  {
    Retreat(Links(text, 0), cut)
  }

  /** The cut after both retreats; zero means that nothing could be kept whole. */
  function AvoidedCut(text: string, limit: nat): (cut: nat)
    requires 0 < limit < |text|
    ensures cut <= limit
  {
    AvoidSplitLink(text, AvoidOpenFence(text, PreferredCut(text, limit)))
  }

  function CutOf(text: string, limit: nat): (cut: nat)
    requires 0 < limit < |text|
    ensures 0 < cut <= limit
  {
    if AvoidedCut(text, limit) == 0 then limit else AvoidedCut(text, limit)
  }

  /**
  A cut is the forced hard cut, taken exactly when the retreats reached zero, or it splits no link;
  and when the link retreat did not move it, an even number of complete fence markers precedes it.
  */
  lemma CutIsForcedOrClean(text: string, limit: nat)
    requires 0 < limit < |text|
    ensures var cut := CutOf(text, limit);
            var fenced := AvoidOpenFence(text, PreferredCut(text, limit));
            if AvoidedCut(text, limit) == 0 then cut == limit
            else NoLinkSplit(text, cut) && (cut == fenced ==> |Fences(text, 0, cut)| % 2 == 0)
  {
    var fenced := AvoidOpenFence(text, PreferredCut(text, limit));
    RetreatSplitsNothing(Links(text, 0), 0, |text|, fenced);
    FenceParityEven(text, PreferredCut(text, limit));
  }

  lemma {:induction false} RetreatFindsStraddler(spans: seq<Span>, i: nat, n: nat, cut: nat, k: nat)
    requires Ordered(spans, i, n) && k < |spans| && Straddles(spans[k], cut)
    ensures Retreat(spans, cut) == spans[k].start
    decreases |spans|
  {
    if k > 0 {
      assert spans[0].end <= spans[k].start;
      assert Ordered(spans[1..], spans[0].end, n);
      RetreatFindsStraddler(spans[1..], spans[0].end, n, cut, k - 1);
    }
  }

  /** When the last marker stands at zero it is the only one. */
  lemma OnlyFenceAtZero(text: string, end: nat)
    requires end <= |text| && Fences(text, 0, end) != [] && Last(Fences(text, 0, end)) == 0
    ensures Fences(text, 0, end) == [0]
  {
    var fs := Fences(text, 0, end);
    assert |fs| == 1;
  }

  /**
  The hard cut is forced exactly when a fence opened by the very first marker is still open at the
  preferred cut, or a link at the very start would be split.
  */
  lemma ForcedExactly(text: string, limit: nat)
    requires 0 < limit < |text|
    ensures var preferred := PreferredCut(text, limit);
            AvoidedCut(text, limit) == 0 <==>
            Fences(text, 0, preferred) == [0]
            || (Links(text, 0) != [] && Links(text, 0)[0].start == 0
                && Straddles(Links(text, 0)[0], AvoidOpenFence(text, preferred)))
  {
    hide Links, LinkAt, Fences, PreferredCut;
    var preferred := PreferredCut(text, limit);
    var fenced, fs, spans := AvoidOpenFence(text, preferred), Fences(text, 0, preferred), Links(text, 0);
    RetreatSplitsNothing(spans, 0, |text|, fenced);
    if spans != [] && Straddles(spans[0], fenced) {
      RetreatFindsStraddler(spans, 0, |text|, fenced, 0);
    }
    if fenced == 0 {
      OnlyFenceAtZero(text, preferred);
    } else if AvoidedCut(text, limit) == 0 {
      var k :| 0 <= k < |spans| && spans[k].start == 0 && Straddles(spans[k], fenced);
      assert k == 0;
    }
  }

  // ---- When a fence is severed ----

  /** An odd number of complete markers precedes the cut: it falls inside an open fence. */
  predicate Severed(text: string, cut: nat)
    requires cut <= |text|
  {
    |Fences(text, 0, cut)| % 2 == 1
  }

  /** The scan for markers splits at any character that is no backtick. */
  lemma {:induction false} FencesSplitAt(text: string, i: nat, s: nat, end: nat)
    requires i <= s < end <= |text| && text[s] != '`'
    ensures Fences(text, i, end) == Fences(text, i, s) + Fences(text, s, end)
    decreases |text| + 3 - i
  {
    hide Fences, MarkerAt;
    FencesStep(text, i, end);
    FencesStep(text, i, s);
    if i == s {
      NothingInFront(Fences(text, s, end));
    } else if i + 3 > end {
      FencesStep(text, s, end);
    } else if MarkerAt(text, i) {
      MarkerReaches(text, i, s);
      FencesSplitAt(text, i + 3, s, end);
      Associative([i], Fences(text, i + 3, s), Fences(text, s, end));
    } else {
      FencesSplitAt(text, i + 1, s, end);
      FencesStep(text, i + 1, s);
    }
  }

  lemma MarkerReaches(text: string, i: nat, s: nat)
    requires MarkerAt(text, i) && i < s < |text| && text[s] != '`'
    ensures i + 3 <= s
  {
  }

  lemma NothingInFront(a: seq<nat>)
    ensures [] + a == a
  {
  }

  lemma Associative(a: seq<nat>, b: seq<nat>, c: seq<nat>)
    ensures a + (b + c) == a + b + c
  {
  }

  /** A link straddles the cut and opens or closes an odd number of fences before it. */
  predicate OddLinkAcross(text: string, cut: nat)
    requires cut <= |text|
  {
    exists k :: 0 <= k < |Links(text, 0)| && Straddles(Links(text, 0)[k], cut)
                && |Fences(text, Links(text, 0)[k].start, cut)| % 2 == 1
  }

  lemma LinkStartsNoMarker(text: string, k: nat)
    requires k < |Links(text, 0)|
    ensures Links(text, 0)[k].start < |text| && text[Links(text, 0)[k].start] != '`'
  {
    assert LinkAt(text, Links(text, 0)[k].start).Some?;
  }

  /**
  When a cut severs a fence. A forced cut does exactly when the markers before the limit are odd
  in number; any other cut exactly when a link straddles the cut the fence retreat chose and holds
  an odd number of markers in front of it.
  */
  lemma SeveredExactly(text: string, limit: nat)
    requires 0 < limit < |text|
    ensures Severed(text, CutOf(text, limit)) <==>
            if AvoidedCut(text, limit) == 0 then Severed(text, limit)
            else OddLinkAcross(text, AvoidOpenFence(text, PreferredCut(text, limit)))
  {
    hide Links, LinkAt, Fences, PreferredCut;
    var fenced, spans := AvoidOpenFence(text, PreferredCut(text, limit)), Links(text, 0);
    FenceParityEven(text, PreferredCut(text, limit));
    LinksOrdered(text);
    RetreatSplitsNothing(spans, 0, |text|, fenced);
    if AvoidedCut(text, limit) > 0 {
      forall k | 0 <= k < |spans| && Straddles(spans[k], fenced)
        ensures AvoidedCut(text, limit) == spans[k].start
        ensures Severed(text, spans[k].start) <==> |Fences(text, spans[k].start, fenced)| % 2 == 1
      {
        RetreatFindsStraddler(spans, 0, |text|, fenced, k);
        LinkStartsNoMarker(text, k);
        FencesSplitAt(text, 0, spans[k].start, fenced);
      }
    }
  }

  lemma LinksOrdered(text: string)
    ensures Ordered(Links(text, 0), 0, |text|)
  {
  }

  lemma MarkerIn(text: string, i: nat, end: nat) returns (f: nat)
    requires end <= |text| && |Fences(text, i, end)| % 2 == 1
    ensures i <= f < end && text[f] == '`'
  {
    hide Fences;
    f := Fences(text, i, end)[0];
    assert MarkerAt(text, f);
  }

  /** So an unforced cut severs a fence only next to a link that contains a backtick. */
  lemma UnforcedCutLeavesFencesWhole(text: string, limit: nat)
    requires 0 < limit < |text|
    ensures AvoidedCut(text, limit) > 0 && Severed(text, CutOf(text, limit)) ==>
              exists s, k :: s in Links(text, 0) && s.start <= k < s.end && text[k] == '`'
  {
    hide PreferredCut, CutOf, Links, LinkAt, Fences, AvoidedCut, Severed;
    SeveredExactly(text, limit);
    var fenced := AvoidOpenFence(text, PreferredCut(text, limit));
    if AvoidedCut(text, limit) > 0 && OddLinkAcross(text, fenced) {
      var k :| 0 <= k < |Links(text, 0)| && Straddles(Links(text, 0)[k], fenced)
               && |Fences(text, Links(text, 0)[k].start, fenced)| % 2 == 1;
      var s := Links(text, 0)[k];
      var f := MarkerIn(text, s.start, fenced);
      assert s in Links(text, 0) && s.start <= f < s.end;
    }
  }

  lemma NoBreakNoPreference(w: string)
    requires forall k :: 0 <= k < |w| ==> !IsTerminator(w[k]) && w[k] != '\n'
    ensures ParagraphCut(w).None? && SentenceCut(w).None?
  {
    hide IsTerminator, IsSpace;
  }

  /** The forced cut does sever a fence: one that is longer than the limit. */
  lemma ForcedCutSeversLongFence()
    ensures var text := "```ab```";
            AvoidedCut(text, 4) == 0 && CutOf(text, 4) == 4 && Severed(text, 4)
  {
    var text := "```ab```";
    assert Fences(text, 3, 4) == [];
    assert Fences(text, 0, 4) == [0];
    NoBreakNoPreference(text[..4]);
    assert PreferredCut(text, 4) == 4;
    assert AvoidOpenFence(text, 4) == 0;
  }

  /** A cut that is not forced can sever one too: the link retreat steps back over a marker inside the link. */
  lemma UnforcedCutSeversFence()
    ensures var text := "```[``` y](u) zzz";
            AvoidedCut(text, 9) == 3 && CutOf(text, 9) == 3 && Severed(text, 3)
  {
    hide *;
    var text := "```[``` y](u) zzz";
    WitnessCut(text);
  }

  lemma WitnessCut(text: string)
    requires text == "```[``` y](u) zzz"
    ensures AvoidedCut(text, 9) == 3 && CutOf(text, 9) == 3 && Severed(text, 3)
  {
    hide Fences, Links, LinkAt, PreferredCut;
    WitnessPreferred(text);
    WitnessFences(text);
    WitnessLink(text);
  }

  lemma WitnessPreferred(text: string)
    requires text == "```[``` y](u) zzz"
    ensures |text| == 17 && PreferredCut(text, 9) == 9
  {
    hide ParagraphCut, SentenceCut;
    NoBreakNoPreference(text[..9]);
  }

  lemma WitnessFences(text: string)
    requires text == "```[``` y](u) zzz"
    ensures Fences(text, 0, 9) == [0, 4] && Fences(text, 0, 3) == [0]
  {
    assert Fences(text, 7, 9) == [];
    assert Fences(text, 4, 9) == [4];
    assert Fences(text, 3, 9) == [4];
    assert Fences(text, 3, 3) == [];
  }

  lemma WitnessLink(text: string)
    requires text == "```[``` y](u) zzz"
    ensures Links(text, 0) != [] && Links(text, 0)[0] == Span(3, 13)
  {
    hide *;
    WitnessPattern(text[3..13], text);
    TextLinkFound(text, 3, 13, 6);
    assert text[0] == '`' && text[1] == '`' && text[2] == '`';
    NoLinkHere(text, 0);
    NoLinkHere(text, 1);
    NoLinkHere(text, 2);
    LinkHere(text, 3);
  }

  lemma WitnessPattern(s: string, text: string)
    requires text == "```[``` y](u) zzz" && s == text[3..13]
    ensures IsTextLink(s, 6)
  {
    assert s == "[``` y](u)";
    assert s[1] == '`' && s[2] == '`' && s[3] == '`' && s[4] == ' ' && s[5] == 'y' && s[8] == 'u';
  }

  lemma NoLinkHere(text: string, i: nat)
    requires i < |text| && text[i] != '<' && text[i] != '['
    ensures Links(text, i) == Links(text, i + 1)
  {
  }

  lemma LinkHere(text: string, i: nat)
    requires i < |text| && LinkAt(text, i).Some?
    ensures Links(text, i) != [] && Links(text, i)[0] == Span(i, LinkAt(text, i).value)
  {
    hide LinkAt;
  }

  // ---- What the cut is, said without the scans ----

  /** A paragraph break ends at `e`, within the last 400 characters before the limit. */
  predicate ParagraphEnd(text: string, limit: nat, e: nat) {
    && 2 <= e <= limit <= |text| && limit - 400 <= e - 2
    && text[e - 2] == '\n' && text[e - 1] == '\n'
  }

  /** Whitespace behind a sentence terminator ends at `e`, or goes on to the limit. */
  predicate SentenceEnd(text: string, limit: nat, e: nat) {
    && e <= limit <= |text| && (e == limit || !IsSpace(text[e]))
    && exists t :: 0 <= t < e - 1 && text[t] in ".?!\U{3002}\U{ff1f}\U{ff01}" && forall k :: t < k < e ==> IsSpace(text[k])
  }

  /** The last paragraph end; without one the last sentence end; without one the limit. */
  ghost predicate IsPreferred(text: string, limit: nat, cut: nat) {
    if exists e: nat :: ParagraphEnd(text, limit, e) then
      ParagraphEnd(text, limit, cut) && forall e: nat :: ParagraphEnd(text, limit, e) ==> e <= cut
    else if exists e: nat :: SentenceEnd(text, limit, e) then
      SentenceEnd(text, limit, cut) && forall e: nat :: SentenceEnd(text, limit, e) ==> e <= cut
    else cut == limit
  }

  /** Outside every fence a cut stays; inside one it goes back to the marker that opened it. */
  predicate IsFenceRetreat(text: string, cut: nat, c: nat) {
    && c <= cut <= |text|
    && if !Severed(text, cut) then c == cut
       else MarkerAt(text, c) && c + 3 <= cut && !Severed(text, c) && forall k :: c + 3 <= k <= cut ==> Severed(text, k)
  }

  /** A cut inside a link goes back to where the link starts. */
  predicate IsLinkRetreat(text: string, cut: nat, c: nat) {
    if NoLinkSplit(text, cut) then c == cut
    else exists k :: 0 <= k < |Links(text, 0)| && Straddles(Links(text, 0)[k], cut) && Links(text, 0)[k].start == c
  }

  /** The preferred cut after both retreats, or the limit when they end at zero. */
  ghost predicate IsCut(text: string, limit: nat, cut: nat) {
    exists e: nat, f: nat, c: nat ::
      && IsPreferred(text, limit, e) && IsFenceRetreat(text, e, f) && IsLinkRetreat(text, f, c)
      && cut == if c == 0 then limit else c
  }

  lemma SentenceEndsAtIff(text: string, limit: nat, e: nat)
    requires limit <= |text|
    ensures SentenceEndsAt(text[..limit], e) <==> SentenceEnd(text, limit, e)
  {
    hide *;
    if SentenceEndsAt(text[..limit], e) {
      SentenceEndsThere(text, limit, e);
    }
    if SentenceEnd(text, limit, e) {
      SentenceEndFound(text, limit, e);
    }
  }

  lemma SentenceEndsThere(text: string, limit: nat, e: nat)
    requires limit <= |text| && SentenceEndsAt(text[..limit], e)
    ensures SentenceEnd(text, limit, e)
  {
    hide IsSpace, IsTerminator;
    var w := text[..limit];
    var t := RunStart(w, e) - 1;
    TerminatorChar(w[t]);
    assert text[t] == w[t];
    assert forall k :: t < k < e ==> IsSpace(w[k]) && w[k] == text[k];
  }

  lemma SentenceEndFound(text: string, limit: nat, e: nat)
    requires SentenceEnd(text, limit, e)
    ensures SentenceEndsAt(text[..limit], e)
  {
    hide IsSpace, IsTerminator;
    var w := text[..limit];
    var t :| 0 <= t < e - 1 && text[t] in ".?!\U{3002}\U{ff1f}\U{ff01}" && forall k :: t < k < e ==> IsSpace(text[k]);
    TerminatorChar(text[t]);
    TerminatorIsNoSpace(text[t]);
    assert w[t] == text[t];
    assert RunStart(w, e) == t + 1;
  }

  lemma TerminatorChar(c: char)
    ensures c in ".?!\U{3002}\U{ff1f}\U{ff01}" <==> IsTerminator(c)
  {
  }

  lemma PreferredCutIsPreferred(text: string, limit: nat)
    requires 0 < limit < |text|
    ensures IsPreferred(text, limit, PreferredCut(text, limit))
  {
    hide SentenceEndsAt, SentenceEnd, LastBreak, LastSentence;
    var w := text[..limit];
    forall e: nat ensures SentenceEndsAt(w, e) <==> SentenceEnd(text, limit, e) {
      SentenceEndsAtIff(text, limit, e);
    }
    forall e: nat ensures LookbackStart(w) + 2 <= e && BreakEndsAt(w, e) <==> ParagraphEnd(text, limit, e) {
    }
    SentenceEndsInWindow(text, limit);
  }

  lemma SentenceEndsInWindow(text: string, limit: nat)
    ensures forall e: nat :: SentenceEnd(text, limit, e) ==> e <= limit
  {
  }

  /** Ending the scan anywhere behind the last marker finds the same markers. */
  lemma {:induction false} FencesBehindLast(text: string, i: nat, end: nat, k: nat)
    requires k <= end <= |text| && Fences(text, i, end) != [] && Last(Fences(text, i, end)) + 3 <= k
    ensures Fences(text, i, k) == Fences(text, i, end)
    decreases |text| + 3 - i
  {
    hide Fences, MarkerAt;
    FencesStep(text, i, end);
    FencesStep(text, i, k);
    if MarkerAt(text, i) {
      var rest := Fences(text, i + 3, end);
      LastBehind(i, rest);
      if rest != [] {
        FencesBehindLast(text, i + 3, end, k);
      } else {
        NoFencesBelow(text, i + 3, end, k);
      }
    } else {
      FencesBehindLast(text, i + 1, end, k);
      FencesStep(text, i + 1, k);
    }
  }

  lemma {:induction false} NoFencesBelow(text: string, i: nat, end: nat, k: nat)
    requires k <= end <= |text| && Fences(text, i, end) == []
    ensures Fences(text, i, k) == []
    decreases |text| + 3 - i
  {
    hide Fences, MarkerAt;
    FencesStep(text, i, k);
    FencesStep(text, i, end);
    if i + 3 <= k {
      NoFencesBelow(text, i + 1, end, k);
    }
  }

  lemma FenceRetreatIsLeast(text: string, cut: nat)
    requires cut <= |text|
    ensures IsFenceRetreat(text, cut, AvoidOpenFence(text, cut))
  {
    hide Fences;
    var fs := Fences(text, 0, cut);
    if |fs| % 2 == 1 {
      var c := Last(fs);
      FenceParityEven(text, cut);
      forall k | c + 3 <= k <= cut ensures Severed(text, k) {
        FencesBehindLast(text, 0, cut, k);
      }
    }
  }

  /**
  The cut is the one described: last paragraph end, else last sentence end, else the limit, back out
  of an open fence, back out of a link, and the limit if nothing is left.
  */
  lemma CutIsDescribed(text: string, limit: nat)
    requires 0 < limit < |text|
    ensures IsCut(text, limit, CutOf(text, limit))
  {
    hide Links, LinkAt, Fences, PreferredCut, IsPreferred, IsFenceRetreat, AvoidOpenFence;
    var e := PreferredCut(text, limit);
    var f := AvoidOpenFence(text, e);
    PreferredCutIsPreferred(text, limit);
    FenceRetreatIsLeast(text, e);
    RetreatSplitsNothing(Links(text, 0), 0, |text|, f);
    assert IsLinkRetreat(text, f, AvoidedCut(text, limit)) by {
      if k :| 0 <= k < |Links(text, 0)| && Straddles(Links(text, 0)[k], f) {
        LinksOrdered(text);
        RetreatFindsStraddler(Links(text, 0), 0, |text|, f, k);
      }
    }
  }

  // ---- The cut, as the code finds it ----

  method FindParagraphCut(w: string) returns (best: Option<nat>)
    ensures best == ParagraphCut(w)
  {
    best := None;
    var start := LookbackStart(w);
    var i := start;
    while i < |w|
      invariant start <= i <= |w|
      invariant start < i < |w| && w[i - 1] == '\n' ==> w[i] != '\n'
      invariant best == LastBreak(w, start, i)
    {
      var j := i;
      while j < |w| && w[j] == '\n'
        invariant i <= j <= |w| && forall k :: i <= k < j ==> w[k] == '\n'
      {
        j := j + 1;
      }
      if j >= i + 2 {
        best := Some(j);
        i := j;
      } else {
        i := i + 1;
      }
    }
  }

  lemma TerminatorIsNoSpace(c: char)
    requires IsTerminator(c)
    ensures !IsSpace(c)
  {
  }

  /** The whitespace run through `i`, if there is one, does not follow a terminator. */
  predicate NoTerminatorBehind(w: string, i: nat) {
    i < |w| && IsSpace(w[i]) && 0 < RunStart(w, i) < i ==> !IsTerminator(w[RunStart(w, i) - 1])
  }

  lemma NoSentenceHere(w: string, i: nat)
    requires i < |w| && NoTerminatorBehind(w, i)
    requires !(i > 0 && IsTerminator(w[i - 1]) && IsSpace(w[i]))
    ensures !SentenceEndsAt(w, i + 1) && NoTerminatorBehind(w, i + 1)
  {
    hide IsSpace, IsTerminator;
    assert RunStart(w, i + 1) == if IsSpace(w[i]) then RunStart(w, i) else i + 1;
  }

  lemma SentenceAfterRun(w: string, i: nat, j: nat)
    requires 0 < i < j <= |w| && IsTerminator(w[i - 1]) && RunStart(w, j) == i && (j == |w| || !IsSpace(w[j]))
    ensures SentenceEndsAt(w, j) && NoTerminatorBehind(w, j)
  {
    hide IsSpace, IsTerminator;
  }

  method FindSentenceCut(w: string) returns (best: Option<nat>)
    ensures best == SentenceCut(w)
  {
    hide IsSpace, IsTerminator, SentenceEndsAt, NoTerminatorBehind;
    best := None;
    var i := 0;
    StartOfScan(w);
    while i < |w|
      invariant 0 <= i <= |w|
      invariant best == LastSentence(w, i) && NoTerminatorBehind(w, i)
    {
      if i > 0 && IsTerminator(w[i - 1]) && IsSpace(w[i]) {
        TerminatorIsNoSpace(w[i - 1]);
        var j := i;
        while j < |w| && IsSpace(w[j])
          invariant i <= j <= |w| && RunStart(w, j) == i
        {
          j := j + 1;
        }
        SentenceAfterRun(w, i, j);
        best := Some(j);
        i := j;
      } else {
        NoSentenceHere(w, i);
        i := i + 1;
      }
    }
  }

  lemma StartOfScan(w: string)
    ensures LastSentence(w, 0) == None && NoTerminatorBehind(w, 0)
  {
  }

  /** The loop over link matches, which stops at the first span that starts at or after the cut. */
  method FindLinkRetreat(text: string, cut: nat) returns (c: nat)
    ensures c == AvoidSplitLink(text, cut)
  {
    var spans := Links(text, 0);
    for k := 0 to |spans|
      invariant Retreat(spans, cut) == Retreat(spans[k..], cut)
    {
      if spans[k].start >= cut {
        LaterSpansDoNotStraddle(spans[k..], cut);
        return cut;
      }
      if spans[k].end > cut {
        return spans[k].start;
      }
    }
    return cut;
  }

  lemma {:induction false} LaterSpansDoNotStraddle(spans: seq<Span>, cut: nat)
    requires forall k :: 0 <= k < |spans| ==> cut <= spans[k].start
    ensures Retreat(spans, cut) == cut
    decreases |spans|
  {
    if spans != [] {
      LaterSpansDoNotStraddle(spans[1..], cut);
    }
  }

  method ChooseCut(text: string, limit: nat) returns (cut: nat)
    requires 0 < limit < |text|
    ensures cut == CutOf(text, limit) && IsCut(text, limit, cut)
  {
    hide IsCut, IsSpace;
    CutIsDescribed(text, limit);
    var window := text[..limit];
    var found := FindParagraphCut(window);
    if found.None? {
      found := FindSentenceCut(window);
    }
    cut := if found.Some? then found.value else limit;
    cut := AvoidOpenFence(text, cut);
    cut := FindLinkRetreat(text, cut);
    if cut <= 0 {
      cut := limit;
    }
  }

  // ---- The whole split ----

  /** Chunks in order, with the gap before each and the gap at the end. */
  ghost function Weave(gaps: seq<string>, chunks: seq<string>): string
    requires |gaps| == |chunks| + 1
  {
    if chunks == [] then gaps[0]
    else Weave(gaps[..|chunks|], chunks[..|chunks| - 1]) + Last(chunks) + Last(gaps)
  }

  lemma WeaveAppend(gaps: seq<string>, chunks: seq<string>, chunk: string, gap: string)
    requires |gaps| == |chunks| + 1
    ensures Weave(gaps + [gap], chunks + [chunk]) == Weave(gaps, chunks) + chunk + gap
  {
    assert (gaps + [gap])[..|chunks| + 1] == gaps && (chunks + [chunk])[..|chunks|] == chunks;
  }

  lemma WeaveWiden(gaps: seq<string>, chunks: seq<string>, more: string)
    requires |gaps| == |chunks| + 1
    ensures Weave(gaps[|chunks| := Last(gaps) + more], chunks) == Weave(gaps, chunks) + more
  {
    var wider := gaps[|chunks| := Last(gaps) + more];
    if chunks != [] {
      assert wider[..|chunks|] == gaps[..|chunks|];
      assert Weave(gaps, chunks) + more
          == Weave(gaps[..|chunks|], chunks[..|chunks| - 1]) + Last(chunks) + (Last(gaps) + more);
    }
  }

  ghost predicate BlankGaps(gaps: seq<string>) {
    forall k :: 0 <= k < |gaps| ==> AllSpace(gaps[k])
  }

  ghost predicate GoodChunks(chunks: seq<string>, limit: nat) {
    forall k :: 0 <= k < |chunks| ==> 0 < |chunks[k]| <= limit
  }

  /** Whitespace is lost in front of the first chunk exactly when the first cut's window is blank. */
  ghost predicate LeadingBlankDropped(text: string, limit: nat)
    requires limit > 0
  {
    |text| > limit && AllSpace(text[..CutOf(text, limit)])
  }

  /** What remains behind the cut. */
  function Remainder(text: string, limit: nat): (r: string)
    requires 0 < limit < |text|
    ensures |r| < |text|
  {
    LStrip(text[CutOf(text, limit)..])
  }

  /** The chunks, one cut after the other. */
  function ChunksOf(text: string, limit: nat): seq<string>
    requires limit > 0
    decreases |text|
  {
    if text == "" then []
    else if |text| <= limit then [text]
    else
      var head := RStrip(text[..CutOf(text, limit)]);
      (if head != "" then [head] else []) + ChunksOf(Remainder(text, limit), limit)
  }

  /**
  Every chunk but the last ends where the text that remained was cut, up to trailing whitespace:
  at a forced cut or in front of no split link, and inside a fence exactly in the stated cases.
  */
  lemma {:induction false} ChunkEndsAtCut(text: string, limit: nat, i: nat) returns (a: nat)
    requires limit > 0 && i < |ChunksOf(text, limit)|
    ensures a <= |text|
    ensures var rest, chunk := text[a..], ChunksOf(text, limit)[i];
            if |rest| <= limit then chunk == rest && i == |ChunksOf(text, limit)| - 1
            else
              var cut := CutOf(rest, limit);
              && chunk == RStrip(rest[..cut]) && IsCut(rest, limit, cut)
              && (AvoidedCut(rest, limit) == 0 || NoLinkSplit(rest, cut))
              && (Severed(rest, cut) <==>
                  if AvoidedCut(rest, limit) == 0 then Severed(rest, limit)
                  else OddLinkAcross(rest, AvoidOpenFence(rest, PreferredCut(rest, limit))))
    decreases |text|
  {
    hide RStrip, LStrip, CutOf, AvoidedCut, NoLinkSplit, Severed, OddLinkAcross, AvoidOpenFence, PreferredCut, Remainder;
    hide IsCut;
    if |text| <= limit {
      a := 0;
      assert text[0..] == text;
    } else {
      var head, rest := RStrip(text[..CutOf(text, limit)]), Remainder(text, limit);
      RemainderIsTail(text, limit);
      if head != "" && i == 0 {
        a := 0;
        assert text[0..] == text;
        CutIsForcedOrClean(text, limit);
        SeveredExactly(text, limit);
        CutIsDescribed(text, limit);
        ForcedOrUnsplit(text, limit);
      } else {
        var n := if head != "" then 1 else 0;
        assert ChunksOf(text, limit)[i] == ChunksOf(rest, limit)[i - n];
        var b := ChunkEndsAtCut(rest, limit, i - n);
        a := |text| - |rest| + b;
        assert text[a..] == rest[b..];
      }
    }
  }

  /** No chunk but the first starts with whitespace and none but the last ends in it. */
  ghost predicate Trimmed(chunks: seq<string>) {
    && (forall k :: 0 < k < |chunks| ==> chunks[k] != "" && !IsSpace(chunks[k][0]))
    && (forall k :: 0 <= k < |chunks| - 1 ==> chunks[k] != "" && !IsSpace(Last(chunks[k])))
  }

  lemma {:induction false} ChunksAreTrimmed(text: string, limit: nat)
    requires limit > 0
    ensures Trimmed(ChunksOf(text, limit))
    ensures text != "" && !IsSpace(text[0]) && ChunksOf(text, limit) != [] ==>
              ChunksOf(text, limit)[0] != "" && !IsSpace(ChunksOf(text, limit)[0][0])
    decreases |text|
  {
    hide IsSpace, RStrip, LStrip, CutOf, ChunksOf;
    if |text| <= limit {
      ChunksEnd(text, limit);
    } else {
      var cut := CutOf(text, limit);
      var head, rest := RStrip(text[..cut]), LStrip(text[cut..]);
      ChunksStep(text, limit);
      ChunksAreTrimmed(rest, limit);
      assert rest == "" ==> ChunksOf(rest, limit) == [] by { ChunksEnd("", limit); }
      assert head != "" ==> head[0] == text[..cut][0] == text[0];
      assert head == "" ==> text[..cut][0] == text[0] && IsSpace(text[..cut][0]);
    }
  }

  lemma ChunksStep(text: string, limit: nat)
    requires 0 < limit < |text|
    ensures var head, rest := RStrip(text[..CutOf(text, limit)]), LStrip(text[CutOf(text, limit)..]);
            ChunksOf(text, limit) == (if head != "" then [head] else []) + ChunksOf(rest, limit)
  {
  }

  lemma ChunksEnd(text: string, limit: nat)
    requires limit > 0 && |text| <= limit
    ensures ChunksOf(text, limit) == if text == "" then [] else [text]
  {
  }

  lemma RemainderIsTail(text: string, limit: nat)
    requires 0 < limit < |text|
    ensures |Remainder(text, limit)| < |text| && Remainder(text, limit) == text[|text| - |Remainder(text, limit)|..]
    ensures CutOf(text, limit) <= |text|
  {
    hide CutOf, LStrip;
    TailOfTail(text, CutOf(text, limit), |Remainder(text, limit)|);
  }

  lemma TailOfTail(text: string, cut: nat, n: nat)
    requires cut + n <= |text|
    ensures text[cut..][|text| - cut - n..] == text[|text| - n..]
  {
  }

  lemma ForcedOrUnsplit(text: string, limit: nat)
    requires 0 < limit < |text|
    ensures AvoidedCut(text, limit) == 0 || NoLinkSplit(text, CutOf(text, limit))
  {
    CutIsForcedOrClean(text, limit);
  }

  /** The text is the woven chunks so far and what remains. */
  ghost predicate Progress(text: string, limit: nat, gaps: seq<string>, chunks: seq<string>, remaining: string)
    requires limit > 0
  {
    && |gaps| == |chunks| + 1 && GoodChunks(chunks, limit) && BlankGaps(gaps)
    && text == Weave(gaps, chunks) + remaining
    && (remaining == text ==> chunks == [] && gaps == [""])
    && (remaining != text ==> (gaps[0] != "" <==> LeadingBlankDropped(text, limit)))
  }

  lemma KeepHead(text: string, limit: nat, gaps: seq<string>, chunks: seq<string>, remaining: string, head: string, gap: string, rest: string)
    requires limit > 0 && Progress(text, limit, gaps, chunks, remaining)
    requires remaining == head + gap + rest && AllSpace(gap) && 0 < |head| <= limit
    requires remaining == text ==> !LeadingBlankDropped(text, limit)
    ensures Progress(text, limit, gaps + [gap], chunks + [head], rest)
  {
    hide AllSpace, Weave, CutOf, LeadingBlankDropped;
    WeaveAppend(gaps, chunks, head, gap);
    assert |rest| < |remaining| <= |text|;
    assert (Weave(gaps, chunks) + head + gap) + rest == Weave(gaps, chunks) + remaining;
  }

  lemma WidenGap(text: string, limit: nat, gaps: seq<string>, chunks: seq<string>, remaining: string, gap: string, rest: string)
    requires limit > 0 && Progress(text, limit, gaps, chunks, remaining)
    requires remaining == gap + rest && AllSpace(gap) && gap != ""
    requires remaining == text ==> LeadingBlankDropped(text, limit)
    ensures Progress(text, limit, gaps[|chunks| := Last(gaps) + gap], chunks, rest)
  {
    hide CutOf, LeadingBlankDropped, IsSpace;
    WeaveWiden(gaps, chunks, gap);
    assert chunks == [] && gaps[0] == "" ==> Weave(gaps, chunks) + remaining == remaining;
    assert |rest| < |remaining| <= |text|;
    assert (Weave(gaps, chunks) + gap) + rest == Weave(gaps, chunks) + remaining;
    assert AllSpace(Last(gaps));
  }

  /** Nothing cut yet. */
  lemma StartSplit(text: string, limit: nat)
    requires limit > 0
    ensures Progress(text, limit, [""], [], text)
  {
    assert [""][0] + text == text;
  }

  /**
  Every chunk is nonempty and within the limit, and the text is the chunks in order with only
  whitespace between, after and (in exactly one case) before them.
  */
  method Split(text: string, limit: nat) returns (chunks: seq<string>, ghost gaps: seq<string>)
    requires limit > 0
    ensures chunks == ChunksOf(text, limit)
    ensures GoodChunks(chunks, limit) && Trimmed(chunks)
    ensures |gaps| == |chunks| + 1 && BlankGaps(gaps) && text == Weave(gaps, chunks)
    ensures gaps[0] != "" <==> LeadingBlankDropped(text, limit)
  {
    hide IsSpace, RStrip, LStrip, CutOf, Weave, Progress, GoodChunks, BlankGaps, ChunksOf, Trimmed, IsCut;
    ChunksAreTrimmed(text, limit);
    StartSplit(text, limit);
    if text == "" {
      ChunksEnd(text, limit);
      EndSplit(text, limit, [""], [], text);
      return [], [""];
    }
    if |text| <= limit {
      ChunksEnd(text, limit);
      EndSplit(text, limit, [""], [], text);
      assert [] + [text] == [text] && [""] + [""] == ["", ""];
      return [text], ["", ""];
    }
    chunks, gaps := [], [""];
    var remaining := text;
    while |remaining| > limit
      invariant |gaps| == |chunks| + 1 && Progress(text, limit, gaps, chunks, remaining)
      invariant ChunksOf(text, limit) == chunks + ChunksOf(remaining, limit)
      decreases |remaining|
    {
      var cut := ChooseCut(remaining, limit);
      var head := RStrip(remaining[..cut]);
      var rest := LStrip(remaining[cut..]);
      ghost var gap := remaining[|head|..|remaining| - |rest|];
      GapIsBlank(remaining, cut);
      ChunksStep(remaining, limit);
      if head != "" {
        assert !IsSpace(remaining[..cut][|head| - 1]);
        KeepHead(text, limit, gaps, chunks, remaining, head, gap, rest);
        chunks, gaps := chunks + [head], gaps + [gap];
      } else {
        assert AllSpace(remaining[..cut]) by { assert remaining[..cut][|head|..] == remaining[..cut]; }
        assert remaining == gap + rest;
        WidenGap(text, limit, gaps, chunks, remaining, gap, rest);
        gaps := gaps[|chunks| := Last(gaps) + gap];
      }
      remaining := rest;
    }
    ChunksEnd(remaining, limit);
    EndSplit(text, limit, gaps, chunks, remaining);
    if remaining != "" {
      chunks, gaps := chunks + [remaining], gaps + [""];
    }
  }

  lemma EndSplit(text: string, limit: nat, gaps: seq<string>, chunks: seq<string>, remaining: string)
    requires limit > 0 && Progress(text, limit, gaps, chunks, remaining) && |remaining| <= limit
    ensures var cs, gs := if remaining == "" then chunks else chunks + [remaining],
                          if remaining == "" then gaps else gaps + [""];
            && GoodChunks(cs, limit) && |gs| == |cs| + 1 && BlankGaps(gs) && text == Weave(gs, cs)
            && (gs[0] != "" <==> LeadingBlankDropped(text, limit))
  {
    hide Weave, CutOf;
    if remaining == "" {
      assert text == Weave(gaps, chunks);
    } else {
      WeaveAppend(gaps, chunks, remaining, "");
      assert Weave(gaps, chunks) + remaining + "" == text;
    }
  }

  /** What falls between a stripped head and the stripped rest is whitespace, and at least the cut was consumed. */
  lemma GapIsBlank(remaining: string, cut: nat)
    requires cut <= |remaining|
    ensures var head, rest := RStrip(remaining[..cut]), LStrip(remaining[cut..]);
            |head| <= |remaining| - |rest| && AllSpace(remaining[|head|..|remaining| - |rest|])
            && remaining == head + remaining[|head|..|remaining| - |rest|] + rest
  {
    hide IsSpace, RStrip, LStrip, AllSpace;
    var head, rest := RStrip(remaining[..cut]), LStrip(remaining[cut..]);
    StripHead(remaining, cut);
    StripRest(remaining, cut);
    var gap := remaining[|head|..|remaining| - |rest|];
    assert gap == remaining[|head|..cut] + remaining[cut..|remaining| - |rest|];
    BlankConcat(remaining[|head|..cut], remaining[cut..|remaining| - |rest|]);
    assert remaining == remaining[..|head|] + gap + remaining[|remaining| - |rest|..];
  }

  lemma StripHead(s: string, cut: nat)
    requires cut <= |s|
    ensures var head := RStrip(s[..cut]); |head| <= cut && head == s[..|head|] && AllSpace(s[|head|..cut])
  {
    hide IsSpace, RStrip;
    var head := RStrip(s[..cut]);
    assert s[|head|..cut] == s[..cut][|head|..];
    assert head == s[..cut][..|head|] == s[..|head|];
  }

  lemma StripRest(s: string, cut: nat)
    requires cut <= |s|
    ensures var rest := LStrip(s[cut..]);
            |rest| <= |s| - cut && rest == s[|s| - |rest|..] && AllSpace(s[cut..|s| - |rest|])
  {
    hide IsSpace, LStrip;
    var rest := LStrip(s[cut..]);
    assert s[cut..|s| - |rest|] == s[cut..][..|s| - cut - |rest|];
    assert rest == s[cut..][|s| - cut - |rest|..] == s[|s| - |rest|..];
  }

  lemma BlankConcat(a: string, b: string)
    requires AllSpace(a) && AllSpace(b)
    ensures AllSpace(a + b)
  {
  }

  // ---- No non-whitespace character is lost, repeated or reordered ----

  ghost function NonSpace(s: string): string {
    if s == "" then "" else (if IsSpace(s[0]) then "" else [s[0]]) + NonSpace(s[1..])
  }

  ghost function Concat(chunks: seq<string>): string {
    if chunks == [] then "" else Concat(chunks[..|chunks| - 1]) + Last(chunks)
  }

  lemma {:induction false} NonSpaceConcat(a: string, b: string)
    ensures NonSpace(a + b) == NonSpace(a) + NonSpace(b)
    decreases |a|
  {
    hide IsSpace;
    if a == "" {
      assert a + b == b;
    } else {
      var first := if IsSpace(a[0]) then "" else [a[0]];
      NonSpaceConcat(a[1..], b);
      assert (a + b)[1..] == a[1..] + b;
      assert first + (NonSpace(a[1..]) + NonSpace(b)) == (first + NonSpace(a[1..])) + NonSpace(b);
    }
  }

  lemma {:induction false} NonSpaceBlank(a: string)
    requires AllSpace(a)
    ensures NonSpace(a) == ""
    decreases |a|
  {
    if a != "" {
      NonSpaceBlank(a[1..]);
    }
  }

  /** The non-whitespace characters of the text are those of the chunks, in the same order. */
  lemma {:induction false} WeaveKeepsNonSpace(gaps: seq<string>, chunks: seq<string>)
    requires |gaps| == |chunks| + 1 && BlankGaps(gaps)
    ensures NonSpace(Weave(gaps, chunks)) == NonSpace(Concat(chunks))
    decreases |chunks|
  {
    if chunks == [] {
      NonSpaceBlank(gaps[0]);
    } else {
      var front, last, gap := chunks[..|chunks| - 1], Last(chunks), Last(gaps);
      var woven := Weave(gaps[..|chunks|], front);
      WeaveKeepsNonSpace(gaps[..|chunks|], front);
      NonSpaceConcat(woven + last, gap);
      NonSpaceConcat(woven, last);
      NonSpaceConcat(Concat(front), last);
      NonSpaceBlank(gap);
    }
  }
}
