/**
The memoised, cycle-safe depth of trace spans (src/stackowl/cli/trace_cli.py:54-76).
*/
module SpanDepth {
  import opened Common

  datatype Entry = Entry(span: Option<string>, parent: Option<string>)

  type Parents = map<string, Option<string>>

  /** A span's parent; missing and empty parents count as none. */
  function Parent(m: Parents, x: string): Option<string> {
    if x in m && m[x].Some? && m[x].value != "" then m[x] else None
  }

  /** The span `n` parent links up from `x`. */
  function Up(m: Parents, x: string, n: nat): Option<string> {
    if n == 0 then Some(x)
    else
      var y := Up(m, x, n - 1);
      if y.None? then None else Parent(m, y.value)
  }

  ghost predicate OnCycle(m: Parents, x: string) {
    exists n: nat :: n > 0 && Up(m, x, n) == Some(x)
  }

  // ---- Parent chains ----

  lemma {:induction false} UpAdds(m: Parents, x: string, a: nat, b: nat)
    requires Up(m, x, a).Some?
    ensures Up(m, x, a + b) == Up(m, Up(m, x, a).value, b)
    decreases b
  {
    if b > 0 {
      UpAdds(m, x, a, b - 1);
    }
  }

  lemma {:induction false} UpStaysNone(m: Parents, x: string, a: nat, b: nat)
    requires Up(m, x, a).None? && a <= b
    ensures Up(m, x, b).None?
    decreases b
  {
    if a < b {
      UpStaysNone(m, x, a, b - 1);
    }
  }

  /** Going round a cycle `q` times changes nothing. */
  lemma {:induction false} UpRound(m: Parents, x: string, n: nat, q: nat)
    requires Up(m, x, n) == Some(x)
    ensures Up(m, x, n * q) == Some(x)
    decreases q
  {
    if q == 0 {
      assert n * q == 0;
    } else {
      UpRound(m, x, n, q - 1);
      UpAdds(m, x, n * (q - 1), n);
      assert n * (q - 1) + n == n * q;
    }
  }

  /** From any span of a cycle every other span above it is reached again. */
  lemma CycleReaches(m: Parents, x: string, n: nat, a: nat, b: nat) returns (c: nat)
    requires n > 0 && Up(m, x, n) == Some(x)
    ensures Up(m, x, a).Some? && Up(m, x, b).Some? && Up(m, Up(m, x, a).value, c) == Up(m, x, b)
  {
    NeverEnds(m, x, n, a);
    NeverEnds(m, x, n, b);
    UpRound(m, x, n, a);
    UpAdds(m, x, n * a, b);
    assert n * a >= a by {
      assert (n - 1) * a >= 0;
      assert n * a == (n - 1) * a + a;
    }
    c := n * a + b - a;
    UpAdds(m, x, a, c);
  }

  lemma NeverEnds(m: Parents, x: string, n: nat, a: nat)
    requires n > 0 && Up(m, x, n) == Some(x)
    ensures Up(m, x, a).Some?
  {
    if Up(m, x, a).None? {
      assert n * a >= a by {
        assert (n - 1) * a >= 0;
        assert n * a == (n - 1) * a + a;
      }
      UpStaysNone(m, x, a, n * a);
      UpRound(m, x, n, a);
    }
  }

  ghost predicate Closed(m: Parents, s: set<string>) {
    forall x :: x in s && Parent(m, x).Some? ==> Parent(m, x).value in s
  }

  lemma {:induction false} ClosedUp(m: Parents, s: set<string>, x: string, n: nat)
    requires Closed(m, s) && x in s
    ensures Up(m, x, n).Some? ==> Up(m, x, n).value in s
    decreases n
  {
    if n > 0 {
      ClosedUp(m, s, x, n - 1);
    }
  }

  // ---- Correct depths ----

  /** A span with a parent whose depth is nevertheless 0: the place where a cycle is cut. */
  predicate Cut(m: Parents, depth: map<string, nat>, x: string) {
    x in depth && Parent(m, x).Some? && depth[x] == 0
  }

  /** The span `n` links up from `x` is a cut. */
  predicate CutAbove(m: Parents, depth: map<string, nat>, x: string, n: nat) {
    Up(m, x, n).Some? && Cut(m, depth, Up(m, x, n).value)
  }

  /**
  Depths are closed under parents; a span without a parent has depth 0; every other span has one
  more than its parent or is a cut, cuts lie on cycles, and no cut is reached from another cut.
  */
  ghost predicate Correct(m: Parents, depth: map<string, nat>) {
    && Closed(m, depth.Keys)
    && (forall x :: x in depth && Parent(m, x).None? ==> depth[x] == 0)
    && (forall x :: x in depth && Parent(m, x).Some? && depth[x] != 0 ==> depth[x] == depth[Parent(m, x).value] + 1)
    && (forall x :: Cut(m, depth, x) ==> OnCycle(m, x))
    && (forall x, n: nat :: Cut(m, depth, x) && CutAbove(m, depth, x, n) ==> Up(m, x, n).value == x)
  }

  /** On a chain that ends, the depth is the number of parent links to the root. */
  lemma {:induction false} DepthCountsLinks(m: Parents, depth: map<string, nat>, x: string, n: nat)
    requires Correct(m, depth) && x in depth && Up(m, x, n).Some? && Up(m, x, n + 1).None?
    ensures depth[x] == n
    decreases n
  {
    if n > 0 {
      assert Up(m, x, 1) == Parent(m, x);
      if Parent(m, x).None? {
        UpStaysNone(m, x, 1, n);
      }
      var p := Parent(m, x).value;
      UpAdds(m, x, 1, n - 1);
      UpAdds(m, x, 1, n);
      DepthCountsLinks(m, depth, p, n - 1);
      if depth[x] == 0 {
        assert Cut(m, depth, x);
        var k :| k > 0 && Up(m, x, k) == Some(x);
        NeverEnds(m, x, k, n + 1);
      }
    } else {
      assert Up(m, x, 1) == Parent(m, x);
    }
  }

  /** Without a cut on the way, depths fall by one a link. */
  lemma {:induction false} DepthFalls(m: Parents, depth: map<string, nat>, x: string, n: nat)
    requires Correct(m, depth) && x in depth && Up(m, x, n).Some?
    requires forall i: nat :: i < n ==> !CutAbove(m, depth, x, i)
    ensures Up(m, x, n).value in depth && depth[Up(m, x, n).value] + n == depth[x]
    decreases n
  {
    if n > 0 {
      DepthFalls(m, depth, x, n - 1);
      assert !CutAbove(m, depth, x, n - 1);
    }
  }

  /** Exactly one span of each cycle has depth 0; the spans of the cycle are those above `x`. */
  lemma OneCutPerCycle(m: Parents, depth: map<string, nat>, x: string, n: nat)
    requires Correct(m, depth) && x in depth && n > 0 && Up(m, x, n) == Some(x)
    ensures exists a: nat :: a < n && CutAbove(m, depth, x, a)
    ensures forall a: nat, b: nat ::
              CutAbove(m, depth, x, a) && CutAbove(m, depth, x, b) ==> Up(m, x, a) == Up(m, x, b)
  {
    if forall a: nat :: a < n ==> !CutAbove(m, depth, x, a) {
      DepthFalls(m, depth, x, n);
      assert false;
    }
    forall a: nat, b: nat | CutAbove(m, depth, x, a) && CutAbove(m, depth, x, b)
      ensures Up(m, x, a) == Up(m, x, b)
    {
      var c := CycleReaches(m, x, n, a, b);
      assert Up(m, Up(m, x, a).value, c).value == Up(m, x, a).value;
    }
  }

  // ---- One walk ----

  ghost predicate Distinct(s: seq<string>) {
    forall i, j :: 0 <= i < j < |s| ==> s[i] != s[j]
  }

  /**
  What one call adds to the memo: the spans of `chain`, each the parent of the one before. The
  last one is a root, hangs under a memoised span, or has its parent among the spans still open.
  */
  ghost predicate Adds(m: Parents, before: map<string, nat>, open: set<string>, chain: seq<string>, after: map<string, nat>) {
    && (forall x :: x in after <==> x in before || x in chain)
    && (forall x :: x in before ==> after[x] == before[x])
    && Distinct(chain) && (forall x :: x in chain ==> x !in before && x !in open)
    && (forall i :: 0 <= i < |chain| - 1 ==>
          Parent(m, chain[i]) == Some(chain[i + 1]) && after[chain[i]] == after[chain[i + 1]] + 1)
    && (chain != [] ==>
          var last := Last(chain);
          var p := Parent(m, last);
          if p.Some? && p.value in before then after[last] == before[p.value] + 1
          else after[last] == 0 && (p.None? || p.value in open || p.value in chain))
  }

  class DepthMapper {
    const parentOf: Parents
    var depth: map<string, nat>

    constructor (parentOf: Parents)
      ensures this.parentOf == parentOf && depth == map[]
    {
      this.parentOf := parentOf;
      depth := map[];
    }

    /** The recursive, memoising `_depth`. */
    method Depth(span: string, seen: set<string>) returns (d: nat, ghost chain: seq<string>)
      requires span !in seen && seen !! depth.Keys
      modifies this
      ensures span in depth && d == depth[span]
      ensures Adds(parentOf, old(depth), seen, chain, depth)
      ensures span in old(depth) <==> chain == []
      ensures chain != [] ==> chain[0] == span
      decreases parentOf.Keys - seen
    {
      if span in depth {
        return depth[span], [];
      }
      ghost var before := depth;
      var parent := Parent(parentOf, span);
      if parent.None? || parent.value == span || parent.value in seen {
        depth := depth[span := 0];
        chain := [span];
      } else {
        var up;
        ghost var rest;
        up, rest := Depth(parent.value, seen + {span});
        ghost var mid := depth;
        depth := depth[span := 1 + up];
        chain := [span] + rest;
        AddsOneMore(before, seen, span, rest, mid);
      }
      d := depth[span];
    }

    lemma AddsOneMore(before: map<string, nat>, seen: set<string>, span: string, rest: seq<string>, mid: map<string, nat>)
      requires span !in before && span !in seen && Parent(parentOf, span).Some?
      requires Adds(parentOf, before, seen + {span}, rest, mid)
      requires Parent(parentOf, span).value in mid
      requires if rest == [] then Parent(parentOf, span).value in before else rest[0] == Parent(parentOf, span).value
      ensures Adds(parentOf, before, seen, [span] + rest, mid[span := 1 + mid[Parent(parentOf, span).value]])
    {
      var chain := [span] + rest;
      var after := mid[span := 1 + mid[Parent(parentOf, span).value]];
      forall i | 0 <= i < |chain| - 1
        ensures Parent(parentOf, chain[i]) == Some(chain[i + 1]) && after[chain[i]] == after[chain[i + 1]] + 1
      {
        if i > 0 {
          assert chain[i] == rest[i - 1] && chain[i + 1] == rest[i];
        }
      }
    }
  }

  /** The parent of chain element `i`, taken `n` times, stays on the chain until its end. */
  lemma {:induction false} ChainUp(m: Parents, chain: seq<string>, i: nat, n: nat)
    requires i + n < |chain|
    requires forall k :: 0 <= k < |chain| - 1 ==> Parent(m, chain[k]) == Some(chain[k + 1])
    ensures Up(m, chain[i], n) == Some(chain[i + n])
    decreases n
  {
    if n > 0 {
      ChainUp(m, chain, i, n - 1);
      assert Parent(m, chain[i + n - 1]) == Some(chain[i + n - 1 + 1]);
    }
  }

  /** The spans from `j` on, when the last one's parent is the one at `j`, are closed under parents. */
  lemma TailClosed(m: Parents, chain: seq<string>, j: nat)
    requires j < |chain| && Parent(m, Last(chain)) == Some(chain[j])
    requires forall k :: 0 <= k < |chain| - 1 ==> Parent(m, chain[k]) == Some(chain[k + 1])
    ensures Closed(m, set k | j <= k < |chain| :: chain[k])
    ensures OnCycle(m, Last(chain))
  {
    var s := set k | j <= k < |chain| :: chain[k];
    forall x | x in s && Parent(m, x).Some? ensures Parent(m, x).value in s {
      var k :| j <= k < |chain| && x == chain[k];
      assert if k < |chain| - 1 then Parent(m, x).value == chain[k + 1] else Parent(m, x).value == chain[j];
    }
    ChainUp(m, chain, j, |chain| - 1 - j);
    assert Up(m, Last(chain), 1) == Some(chain[j]);
    UpAdds(m, Last(chain), 1, |chain| - 1 - j);
    assert Up(m, Last(chain), 1 + (|chain| - 1 - j)) == Some(Last(chain));
  }

  /** The only cut a walk can add is its last span, and then the walk ends in a cycle. */
  lemma NewCutIsLast(m: Parents, before: map<string, nat>, chain: seq<string>, after: map<string, nat>, x: string)
    requires Adds(m, before, {}, chain, after) && Cut(m, after, x) && x !in before
    ensures chain != [] && x == Last(chain)
    ensures exists j :: 0 <= j < |chain| && Parent(m, x) == Some(chain[j])
  {
    var i :| 0 <= i < |chain| && chain[i] == x;
    forall j | 0 <= j < |chain| - 1 ensures after[chain[j]] != 0 {
      assert after[chain[j]] == after[chain[j + 1]] + 1;
    }
  }

  /** A whole walk from the top keeps the depths correct. */
  lemma WalkKeepsCorrect(m: Parents, before: map<string, nat>, chain: seq<string>, after: map<string, nat>)
    requires Correct(m, before) && Adds(m, before, {}, chain, after)
    ensures Correct(m, after)
  {
    WalkKeepsDepths(m, before, chain, after);
    forall x | Cut(m, after, x) ensures OnCycle(m, x) {
      if x in before {
        assert Cut(m, before, x);
      } else {
        NewCutIsLast(m, before, chain, after, x);
        var j :| 0 <= j < |chain| && Parent(m, x) == Some(chain[j]);
        TailClosed(m, chain, j);
      }
    }
    forall x, n: nat | Cut(m, after, x) && CutAbove(m, after, x, n)
      ensures Up(m, x, n).value == x
    {
      WalkKeepsUniqueness(m, before, chain, after, x, n);
    }
  }

  lemma WalkKeepsDepths(m: Parents, before: map<string, nat>, chain: seq<string>, after: map<string, nat>)
    requires Correct(m, before) && Adds(m, before, {}, chain, after)
    ensures Closed(m, after.Keys)
    ensures forall x :: x in after && Parent(m, x).None? ==> after[x] == 0
    ensures forall x :: x in after && Parent(m, x).Some? && after[x] != 0 ==> after[x] == after[Parent(m, x).value] + 1
  {
    forall x | x in after
      ensures Parent(m, x).Some? ==> Parent(m, x).value in after
      ensures if Parent(m, x).None? then after[x] == 0
              else after[x] != 0 ==> after[x] == after[Parent(m, x).value] + 1
    {
      if x !in before {
        var i :| 0 <= i < |chain| && chain[i] == x;
        if i < |chain| - 1 {
          assert Parent(m, chain[i]) == Some(chain[i + 1]);
        }
      }
    }
  }

  lemma WalkKeepsUniqueness(m: Parents, before: map<string, nat>, chain: seq<string>, after: map<string, nat>, x: string, n: nat)
    requires Correct(m, before) && Adds(m, before, {}, chain, after)
    requires Cut(m, after, x) && Up(m, x, n).Some? && Cut(m, after, Up(m, x, n).value)
    ensures Up(m, x, n).value == x
  {
    var y := Up(m, x, n).value;
    if x in before {
      ClosedUp(m, before.Keys, x, n);
      assert Cut(m, before, x) && Cut(m, before, y);
    } else {
      NewCutIsLast(m, before, chain, after, x);
      var j :| 0 <= j < |chain| && Parent(m, x) == Some(chain[j]);
      TailClosed(m, chain, j);
      var s := set k | j <= k < |chain| :: chain[k];
      assert x in s;
      ClosedUp(m, s, x, n);
      assert y !in before;
      NewCutIsLast(m, before, chain, after, y);
    }
  }

  // ---- The whole map ----

  /** The first entry that names the span decides its parent. */
  predicate FirstEntry(entries: seq<Entry>, x: string, i: nat) {
    i < |entries| && entries[i].span == Some(x) && forall k :: 0 <= k < i ==> entries[k].span != Some(x)
  }

  ghost predicate ParentsOf(entries: seq<Entry>, m: Parents) {
    && (forall i :: 0 <= i < |entries| && entries[i].span.Some? && entries[i].span.value != "" ==> entries[i].span.value in m)
    && (forall x :: x in m ==> x != "" && exists i: nat :: FirstEntry(entries, x, i) && m[x] == entries[i].parent)
  }

  method CollectParents(entries: seq<Entry>) returns (m: Parents)
    ensures ParentsOf(entries, m)
  {
    m := map[];
    ghost var at: map<string, nat> := map[];  // the entry that decided each span
    for k := 0 to |entries|
      invariant m.Keys == at.Keys
      invariant forall i :: 0 <= i < k && entries[i].span.Some? && entries[i].span.value != "" ==> entries[i].span.value in m
      invariant forall x :: x in at ==> Decides(entries, m, x, at[x]) && at[x] < k
    {
      var e := entries[k];
      if e.span.Some? && e.span.value != "" && e.span.value !in m {
        assert FirstEntry(entries, e.span.value, k);
        m := m[e.span.value := e.parent];
        at := at[e.span.value := k];
      }
    }
    forall x | x in m ensures x != "" && exists i: nat :: FirstEntry(entries, x, i) && m[x] == entries[i].parent {
      assert Decides(entries, m, x, at[x]);
    }
  }

  ghost predicate Decides(entries: seq<Entry>, m: Parents, x: string, i: nat) {
    x != "" && x in m && FirstEntry(entries, x, i) && m[x] == entries[i].parent
  }

  /** Terminates on every parent relation and gives every span a correct depth. */
  method DepthMap(entries: seq<Entry>) returns (depth: map<string, nat>, parents: Parents)
    ensures ParentsOf(entries, parents) && parents.Keys <= depth.Keys
    ensures Correct(parents, depth)
    ensures forall x, i: nat :: x != "" && FirstEntry(entries, x, i) ==>
              x in depth && DepthFromEntry(entries[i].parent, depth, x, OnCycle(parents, x))
  {
    hide Correct;
    var parentOf := CollectParents(entries);
    parents := parentOf;
    var mapper := new DepthMapper(parentOf);
    NoDepthsAreCorrect(parentOf);
    var todo := parentOf.Keys;
    while todo != {}
      invariant mapper.parentOf == parentOf && todo <= parentOf.Keys
      invariant Correct(parentOf, mapper.depth)
      invariant parentOf.Keys - todo <= mapper.depth.Keys
      decreases todo
    {
      var span :| span in todo;
      todo := todo - {span};
      ghost var before := mapper.depth;
      var d;
      ghost var chain;
      d, chain := mapper.Depth(span, {});
      WalkKeepsCorrect(parentOf, before, chain, mapper.depth);
    }
    depth := mapper.depth;
    forall x, i: nat | x != "" && FirstEntry(entries, x, i)
      ensures x in depth && DepthFromEntry(entries[i].parent, depth, x, OnCycle(parents, x))
    {
      var j: nat :| FirstEntry(entries, x, j) && parents[x] == entries[j].parent;
      assert i == j;
      DepthOfSpan(parents, depth, x);
    }
  }

  /** A missing or empty parent means depth 0; any other one less than the span's, unless a cycle is cut at the span. */
  predicate DepthFromEntry(parent: Option<string>, depth: map<string, nat>, x: string, onCycle: bool)
    requires x in depth
  {
    if parent.None? || parent.value == "" then depth[x] == 0
    else parent.value in depth && (depth[x] == depth[parent.value] + 1 || (depth[x] == 0 && onCycle))
  }

  lemma NoDepthsAreCorrect(m: Parents)
    ensures Correct(m, map[])
  {
  }

  lemma DepthOfSpan(m: Parents, depth: map<string, nat>, x: string)
    requires Correct(m, depth) && x in depth && x in m
    ensures DepthFromEntry(m[x], depth, x, OnCycle(m, x))
  {
    hide OnCycle;
    assert Parent(m, x).Some? && depth[x] == 0 ==> Cut(m, depth, x);
  }
}
