/**
Re-keying preferences and facts from per-channel handles to identities, in place and in one
transaction (src/stackowl/cli/identity_cli.py:21-74; the UNIQUE constraint is
src/stackowl/db/migrations/0044_owner_scoped_unique.sql:71-79).
*/
module IdentityRelink {
  import opened Common

  /** A row of one of the three tables: `link` is its owner_key or source_ref, `kind` its source_type
      (preferences have none) and `name` its preference key or fact id. */
  datatype Row = Row(ownerId: string, link: string, kind: Option<string>, name: string)

  /** One item of the ordered aliases dictionary. */
  datatype Alias = Alias(identity: string, handles: seq<string>)

  /** One UPDATE: links equal to `handle` become `identity`. */
  datatype Move = Move(handle: string, identity: string)

  datatype Counts = Counts(preferences: nat, facts: nat, committed: nat)

  predicate InScope(owner: string, r: Row) {
    r.ownerId == owner && r.kind != Some("conversation")
  }

  predicate Matches(owner: string, r: Row, m: Move) {
    InScope(owner, r) && r.link == m.handle
  }

  function UpdateRow(owner: string, r: Row, m: Move): Row {
    if Matches(owner, r, m) then r.(link := m.identity) else r
  }

  function Update(owner: string, t: seq<Row>, m: Move): (t': seq<Row>)
    ensures |t'| == |t| && forall i :: 0 <= i < |t| ==> t'[i] == UpdateRow(owner, t[i], m)
  {
    seq(|t|, i requires 0 <= i < |t| => UpdateRow(owner, t[i], m))
  }

  function RowCount(owner: string, t: seq<Row>, m: Move): nat {
    if t == [] then 0
    else RowCount(owner, t[..|t| - 1], m) + if Matches(owner, Last(t), m) then 1 else 0
  }

  /** UNIQUE(owner_id, owner_key, key) of the preferences table. */
  predicate Unique(t: seq<Row>) {
    forall i, j :: 0 <= i < j < |t| ==>
      !(t[i].ownerId == t[j].ownerId && t[i].link == t[j].link && t[i].name == t[j].name)
  }

  /** The values the constraint is about. */
  function Keys(t: seq<Row>): set<(string, string, string)> {
    set i | 0 <= i < |t| :: (t[i].ownerId, t[i].link, t[i].name)
  }

  /** The constraint holds exactly when the table has as many different keys as rows. */
  lemma {:induction false} UniqueIffKeysDiffer(t: seq<Row>)
    ensures |Keys(t)| <= |t| && (Unique(t) <==> |Keys(t)| == |t|)
    decreases |t|
  {
    if t != [] {
      var front, key := t[..|t| - 1], (Last(t).ownerId, Last(t).link, Last(t).name);
      UniqueIffKeysDiffer(front);
      KeysStep(front, Last(t));
      assert t == front + [Last(t)];
      assert Unique(t) <==> Unique(front) && key !in Keys(front) by { UniqueStep(front, Last(t)); }
    }
  }

  lemma KeysStep(front: seq<Row>, r: Row)
    ensures Keys(front + [r]) == Keys(front) + {(r.ownerId, r.link, r.name)}
  {
    var t := front + [r];
    assert t[|front|] == r;
    forall k | k in Keys(front) ensures k in Keys(t) {
      var i :| 0 <= i < |front| && k == (front[i].ownerId, front[i].link, front[i].name);
      assert t[i] == front[i];
    }
  }

  lemma UniqueStep(front: seq<Row>, r: Row)
    ensures Unique(front + [r]) <==> Unique(front) && (r.ownerId, r.link, r.name) !in Keys(front)
  {
    var t := front + [r];
    assert t[|front|] == r && forall i :: 0 <= i < |front| ==> t[i] == front[i];
    if (r.ownerId, r.link, r.name) in Keys(front) {
      var i :| 0 <= i < |front| && (front[i].ownerId, front[i].link, front[i].name) == (r.ownerId, r.link, r.name);
      assert t[i] == front[i] && i < |front|;
    }
  }

  function MovesOf(identity: string, handles: seq<string>): (ms: seq<Move>)
    ensures |ms| == |handles| && forall i :: 0 <= i < |handles| ==> ms[i] == Move(handles[i], identity)
  {
    seq(|handles|, i requires 0 <= i < |handles| => Move(handles[i], identity))
  }

  /** All updates, in dictionary order and then in list order. */
  function Moves(aliases: seq<Alias>): seq<Move> {
    if aliases == [] then []
    else Moves(aliases[..|aliases| - 1]) + MovesOf(Last(aliases).identity, Last(aliases).handles)
  }

  /** Where a link ends up when the updates are applied one after the other. */
  function Rekey(ms: seq<Move>, link: string): string {
    if ms == [] then link
    else
      var k := Rekey(ms[..|ms| - 1], link);
      if k == Last(ms).handle then Last(ms).identity else k
  }

  function RekeyRow(owner: string, ms: seq<Move>, r: Row): Row {
    if InScope(owner, r) then r.(link := Rekey(ms, r.link)) else r
  }

  function RekeyAll(owner: string, ms: seq<Move>, t: seq<Row>): (t': seq<Row>)
    ensures |t'| == |t| && forall i :: 0 <= i < |t| ==> t'[i] == RekeyRow(owner, ms, t[i])
  {
    seq(|t|, i requires 0 <= i < |t| => RekeyRow(owner, ms, t[i]))
  }

  /** How many rows the updates match, one after the other. */
  function TotalCount(owner: string, ms: seq<Move>, t: seq<Row>): nat {
    if ms == [] then 0
    else TotalCount(owner, ms[..|ms| - 1], t) + RowCount(owner, RekeyAll(owner, ms[..|ms| - 1], t), Last(ms))
  }

  lemma RekeyAllStep(owner: string, ms: seq<Move>, m: Move, t: seq<Row>)
    ensures RekeyAll(owner, ms + [m], t) == Update(owner, RekeyAll(owner, ms, t), m)
  {
    assert (ms + [m])[..|ms|] == ms;
  }

  // ---- One simultaneous substitution ----

  /** The identity of the first dictionary item that lists the link, or the link itself. */
  function FirstIdentity(aliases: seq<Alias>, link: string): string {
    if aliases == [] then link
    else if link in aliases[0].handles then aliases[0].identity
    else FirstIdentity(aliases[1..], link)
  }

  function Substituted(owner: string, aliases: seq<Alias>, t: seq<Row>): seq<Row> {
    seq(|t|, i requires 0 <= i < |t| =>
      if t[i].ownerId == owner && t[i].kind != Some("conversation") then t[i].(link := FirstIdentity(aliases, t[i].link))
      else t[i])
  }

  predicate IsHandle(ms: seq<Move>, link: string) {
    exists i :: 0 <= i < |ms| && ms[i].handle == link
  }

  /** No identity is also listed as a handle. */
  predicate Separate(ms: seq<Move>) {
    forall i :: 0 <= i < |ms| ==> !IsHandle(ms, ms[i].identity)
  }

  lemma {:induction false} NonHandleStays(ms: seq<Move>, link: string)
    requires !IsHandle(ms, link)
    ensures Rekey(ms, link) == link
    decreases |ms|
  {
    if ms != [] {
      assert forall i :: 0 <= i < |ms| - 1 ==> ms[..|ms| - 1][i] == ms[i];
      NonHandleStays(ms[..|ms| - 1], link);
      assert ms[|ms| - 1].handle != link;
    }
  }

  /** Sequential re-keying splits at any point. */
  lemma {:induction false} RekeyConcat(ms: seq<Move>, ns: seq<Move>, link: string)
    ensures Rekey(ms + ns, link) == Rekey(ns, Rekey(ms, link))
    decreases |ns|
  {
    if ns == [] {
      assert ms + ns == ms;
    } else {
      RekeyConcat(ms, ns[..|ns| - 1], link);
      assert (ms + ns)[..|ms + ns| - 1] == ms + ns[..|ns| - 1];
    }
  }

  /** A list of moves to one identity that is not among its handles. */
  lemma {:induction false} RekeyOneAlias(identity: string, handles: seq<string>, link: string)
    requires identity !in handles
    ensures Rekey(MovesOf(identity, handles), link) == if link in handles then identity else link
    decreases |handles|
  {
    if handles != [] {
      var front := handles[..|handles| - 1];
      assert MovesOf(identity, handles)[..|front|] == MovesOf(identity, front);
      RekeyOneAlias(identity, front, link);
      assert handles == front + [Last(handles)];
    }
  }

  lemma {:induction false} MovesCons(aliases: seq<Alias>)
    requires aliases != []
    ensures Moves(aliases) == MovesOf(aliases[0].identity, aliases[0].handles) + Moves(aliases[1..])
    decreases |aliases|
  {
    hide MovesOf, Moves;
    var front, rest := aliases[..|aliases| - 1], aliases[1..];
    MovesLast(aliases);
    if |aliases| == 1 {
      NoMoves();
      assert front == [] && rest == [];
    } else {
      MovesCons(front);
      MovesLast(rest);
      assert rest[..|rest| - 1] == front[1..];
      Associative(MovesOf(aliases[0].identity, aliases[0].handles), Moves(front[1..]),
                  MovesOf(Last(aliases).identity, Last(aliases).handles));
    }
  }

  lemma MovesLast(aliases: seq<Alias>)
    requires aliases != []
    ensures Moves(aliases)
            == Moves(aliases[..|aliases| - 1]) + MovesOf(Last(aliases).identity, Last(aliases).handles)
  {
    hide MovesOf;
  }

  lemma Associative(a: seq<Move>, b: seq<Move>, c: seq<Move>)
    ensures (a + b) + c == a + (b + c)
  {
  }

  lemma HandlesOfConcat(ms: seq<Move>, ns: seq<Move>, link: string)
    ensures IsHandle(ms + ns, link) <==> IsHandle(ms, link) || IsHandle(ns, link)
  {
    if i :| 0 <= i < |ms| && ms[i].handle == link {
      assert (ms + ns)[i].handle == link;
    }
    if i :| 0 <= i < |ns| && ns[i].handle == link {
      assert (ms + ns)[|ms| + i].handle == link;
    }
  }

  /** With identities and handles separate, a link goes to the first identity that lists it. */
  lemma {:induction false} RekeyIsFirstIdentity(aliases: seq<Alias>, link: string)
    requires Separate(Moves(aliases))
    ensures Rekey(Moves(aliases), link) == FirstIdentity(aliases, link)
    decreases |aliases|
  {
    if aliases != [] {
      var head, tail := MovesOf(aliases[0].identity, aliases[0].handles), Moves(aliases[1..]);
      MovesCons(aliases);
      RekeyConcat(head, tail, link);
      SeparateParts(head, tail);
      RekeyIsFirstIdentity(aliases[1..], link);
      if aliases[0].handles == [] {
        assert head == [];
      } else {
        assert head[0].identity == aliases[0].identity && !IsHandle(head + tail, (head + tail)[0].identity);
        HandlesOfConcat(head, tail, aliases[0].identity);
        assert forall k :: 0 <= k < |head| ==> head[k].handle == aliases[0].handles[k];
        assert aliases[0].identity !in aliases[0].handles;
        RekeyOneAlias(aliases[0].identity, aliases[0].handles, link);
        if link in aliases[0].handles {
          NonHandleStays(tail, aliases[0].identity);
        }
      }
    }
  }

  /** So the nested updates of a whole table are one simultaneous substitution. */
  lemma RekeyAllIsSubstitution(owner: string, aliases: seq<Alias>, t: seq<Row>)
    requires Separate(Moves(aliases))
    ensures RekeyAll(owner, Moves(aliases), t) == Substituted(owner, aliases, t)
  {
    forall i | 0 <= i < |t| ensures RekeyAll(owner, Moves(aliases), t)[i] == Substituted(owner, aliases, t)[i] {
      RekeyIsFirstIdentity(aliases, t[i].link);
    }
  }

  lemma SeparateParts(ms: seq<Move>, ns: seq<Move>)
    requires Separate(ms + ns)
    ensures Separate(ms) && Separate(ns)
  {
    forall i | 0 <= i < |ms| ensures !IsHandle(ms, ms[i].identity) {
      assert (ms + ns)[i] == ms[i];
      HandlesOfConcat(ms, ns, ms[i].identity);
    }
    forall i | 0 <= i < |ns| ensures !IsHandle(ns, ns[i].identity) {
      assert (ms + ns)[|ms| + i] == ns[i];
      HandlesOfConcat(ms, ns, ns[i].identity);
    }
  }

  /** A handle moves to an identity, and everything else stays. */
  lemma {:induction false} RekeyImage(ms: seq<Move>, link: string)
    requires Separate(ms)
    ensures !IsHandle(ms, Rekey(ms, link))
    ensures Rekey(ms, link) == link <==> !IsHandle(ms, link)
    decreases |ms|
  {
    if ms != [] {
      var front, m := ms[..|ms| - 1], Last(ms);
      assert ms == front + [m];
      SeparateParts(front, [m]);
      RekeyImage(front, link);
      HandlesOfConcat(front, [m], link);
      HandlesOfConcat(front, [m], Rekey(ms, link));
      assert !IsHandle(ms, ms[|ms| - 1].identity);
      assert IsHandle([m], link) <==> m.handle == link by { assert [m][0] == m; }
      assert IsHandle([m], Rekey(ms, link)) <==> m.handle == Rekey(ms, link) by { assert [m][0] == m; }
      if IsHandle(front, link) {
        IdentityOfFront(front, link);
        var i :| 0 <= i < |front| && front[i].identity == Rekey(front, link);
        assert ms[i] == front[i];
        assert !IsHandle(ms, Rekey(front, link));
        assert ms[|ms| - 1].handle == m.handle;
      }
    }
  }

  lemma {:induction false} IdentityOfFront(ms: seq<Move>, link: string)
    requires IsHandle(ms, link) && Separate(ms)
    ensures exists i :: 0 <= i < |ms| && ms[i].identity == Rekey(ms, link)
    decreases |ms|
  {
    var front, m := ms[..|ms| - 1], Last(ms);
    assert ms == front + [m];
    SeparateParts(front, [m]);
    HandlesOfConcat(front, [m], link);
    if IsHandle(front, link) {
      IdentityOfFront(front, link);
      var i :| 0 <= i < |front| && front[i].identity == Rekey(front, link);
      assert ms[i] == front[i];
    } else {
      NonHandleStays(front, link);
      assert [m][0] == m;
    }
    assert Rekey(ms, link) == m.identity ==> ms[|ms| - 1].identity == Rekey(ms, link);
  }

  /** A second run moves nothing and matches nothing. */
  lemma SecondRunIdle(owner: string, ms: seq<Move>, t: seq<Row>)
    requires Separate(ms)
    ensures RekeyAll(owner, ms, RekeyAll(owner, ms, t)) == RekeyAll(owner, ms, t)
    ensures TotalCount(owner, ms, RekeyAll(owner, ms, t)) == 0
  {
    var t' := RekeyAll(owner, ms, t);
    forall i | 0 <= i < |t| ensures InScope(owner, t'[i]) ==> !IsHandle(ms, t'[i].link) {
      RekeyImage(ms, t[i].link);
    }
    NoHandleNoCount(owner, ms, t');
    forall i | 0 <= i < |t| ensures RekeyRow(owner, ms, t'[i]) == t'[i] {
      if InScope(owner, t'[i]) {
        NonHandleStays(ms, t'[i].link);
      }
    }
  }

  lemma {:induction false} NoHandleNoCount(owner: string, ms: seq<Move>, t: seq<Row>)
    requires forall i :: 0 <= i < |t| && InScope(owner, t[i]) ==> !IsHandle(ms, t[i].link)
    ensures TotalCount(owner, ms, t) == 0
    decreases |ms|
  {
    if ms != [] {
      var front := ms[..|ms| - 1];
      forall i | 0 <= i < |t| && InScope(owner, t[i])
        ensures !IsHandle(front, t[i].link) && Rekey(front, t[i].link) == t[i].link != Last(ms).handle
      {
        assert ms == front + [Last(ms)];
        HandlesOfConcat(front, [Last(ms)], t[i].link);
        assert [Last(ms)][0] == Last(ms);
        NonHandleStays(front, t[i].link);
      }
      NoHandleNoCount(owner, front, t);
      NoMatchNoCount(owner, RekeyAll(owner, front, t), Last(ms));
    }
  }

  lemma {:induction false} NoMatchNoCount(owner: string, t: seq<Row>, m: Move)
    requires forall i :: 0 <= i < |t| ==> !Matches(owner, t[i], m)
    ensures RowCount(owner, t, m) == 0
    decreases |t|
  {
    if t != [] {
      NoMatchNoCount(owner, t[..|t| - 1], m);
    }
  }

  // ---- Exact counts ----

  /** Positions at which two tables of the same length differ. */
  function Changed(t: seq<Row>, t': seq<Row>): nat
    requires |t| == |t'|
  {
    if t == [] then 0
    else Changed(t[..|t| - 1], t'[..|t| - 1]) + if Last(t) != Last(t') then 1 else 0
  }

  /** With identities and handles separate, the counts are exactly the numbers of changed rows. */
  lemma {:induction false} CountsAreChanges(owner: string, ms: seq<Move>, t: seq<Row>)
    requires Separate(ms)
    ensures TotalCount(owner, ms, t) == Changed(t, RekeyAll(owner, ms, t))
    decreases |ms|
  {
    if ms == [] {
      NothingChanged(t, RekeyAll(owner, ms, t));
    } else {
      var front, m := ms[..|ms| - 1], Last(ms);
      assert ms == front + [m];
      SeparateParts(front, [m]);
      CountsAreChanges(owner, front, t);
      forall i | 0 <= i < |t| && Matches(owner, RekeyRow(owner, front, t[i]), m)
        ensures RekeyRow(owner, front, t[i]) == t[i] && m.identity != m.handle
      {
        RekeyImage(front, t[i].link);
        assert forall k :: 0 <= k < |front| ==> front[k] == ms[k] && !IsHandle(ms, ms[k].identity);
        assert !IsHandle(ms, ms[|ms| - 1].identity);
        assert ms[|ms| - 1].handle == m.handle;
        if IsHandle(front, t[i].link) {
          IdentityOfFront(front, t[i].link);
          assert false;
        }
      }
      forall i | 0 <= i < |t| ensures RekeyAll(owner, ms, t)[i] == Update(owner, RekeyAll(owner, front, t), m)[i] {
      }
      ChangedStep(owner, t, RekeyAll(owner, front, t), m);
      assert RekeyAll(owner, ms, t) == Update(owner, RekeyAll(owner, front, t), m);
    }
  }

  lemma {:induction false} NothingChanged(t: seq<Row>, t': seq<Row>)
    requires t == t'
    ensures Changed(t, t') == 0
    decreases |t|
  {
    if t != [] {
      NothingChanged(t[..|t| - 1], t'[..|t| - 1]);
    }
  }

  /** An update that only touches still-unchanged rows, and changes each, adds its row count. */
  lemma {:induction false} ChangedStep(owner: string, t: seq<Row>, u: seq<Row>, m: Move)
    requires |t| == |u|
    requires forall i :: 0 <= i < |t| && Matches(owner, u[i], m) ==> u[i] == t[i] && m.identity != m.handle
    ensures Changed(t, Update(owner, u, m)) == Changed(t, u) + RowCount(owner, u, m)
    decreases |t|
  {
    if t != [] {
      var n := |t| - 1;
      assert Update(owner, u, m)[..n] == Update(owner, u[..n], m);
      ChangedStep(owner, t[..n], u[..n], m);
      assert Last(Update(owner, u, m)) == UpdateRow(owner, u[n], m);
    }
  }

  // ---- The UNIQUE constraint ----

  /** Every update up to `n` leaves the preferences unique. */
  predicate AllUnique(owner: string, ms: seq<Move>, t: seq<Row>) {
    forall n :: 0 <= n <= |ms| ==> Unique(RekeyAll(owner, ms[..n], t))
  }

  /**
  With identities and handles separate, no update violates the constraint exactly when the fully
  re-keyed preferences satisfy it.
  */
  lemma UniqueAtTheEndIsUniqueThroughout(owner: string, ms: seq<Move>, t: seq<Row>)
    requires Separate(ms) && Unique(t)
    ensures AllUnique(owner, ms, t) <==> Unique(RekeyAll(owner, ms, t))
  {
    assert ms[..|ms|] == ms;
    if !AllUnique(owner, ms, t) {
      var n := FirstClash(owner, ms, t);
      ClashPersists(owner, ms, t, n);
    }
  }

  lemma RekeyNothing(owner: string, ms: seq<Move>, t: seq<Row>)
    requires ms == []
    ensures RekeyAll(owner, ms, t) == t
  {
  }

  lemma FirstClash(owner: string, ms: seq<Move>, t: seq<Row>) returns (n: nat)
    requires Unique(t) && !AllUnique(owner, ms, t)
    ensures 0 < n <= |ms| && Unique(RekeyAll(owner, ms[..n - 1], t)) && !Unique(RekeyAll(owner, ms[..n], t))
  {
    hide Unique, RekeyAll;
    n := 0;
    assert RekeyAll(owner, ms[..0], t) == t by { RekeyNothing(owner, ms[..0], t); }
    var bad :| 0 <= bad <= |ms| && !Unique(RekeyAll(owner, ms[..bad], t));
    while Unique(RekeyAll(owner, ms[..n + 1], t))
      invariant n < bad && Unique(RekeyAll(owner, ms[..n], t))
      decreases bad - n
    {
      n := n + 1;
    }
    n := n + 1;
  }

  lemma ClashPersists(owner: string, ms: seq<Move>, t: seq<Row>, n: nat)
    requires Separate(ms) && 0 < n <= |ms|
    requires Unique(RekeyAll(owner, ms[..n - 1], t)) && !Unique(RekeyAll(owner, ms[..n], t))
    ensures !Unique(RekeyAll(owner, ms, t))
  {
    var m := ms[n - 1];
    var before, after := RekeyAll(owner, ms[..n - 1], t), RekeyAll(owner, ms[..n], t);
    assert ms[..n] == ms[..n - 1] + [m];
    RekeyAllStep(owner, ms[..n - 1], m, t);
    var i, j :| 0 <= i < j < |t| && after[i].ownerId == after[j].ownerId
                && after[i].link == after[j].link && after[i].name == after[j].name;
    assert after[i].link == m.identity by {
      assert before[i].link != before[j].link;
    }
    assert !IsHandle(ms, m.identity);
    SettledRowStays(owner, ms, t, n, i);
    SettledRowStays(owner, ms, t, n, j);
  }

  /** A row whose link is no handle is left alone by the remaining updates. */
  lemma SettledRowStays(owner: string, ms: seq<Move>, t: seq<Row>, n: nat, i: nat)
    requires n <= |ms| && i < |t| && !IsHandle(ms, RekeyAll(owner, ms[..n], t)[i].link)
    ensures RekeyAll(owner, ms, t)[i] == RekeyAll(owner, ms[..n], t)[i]
  {
    var front, rest := ms[..n], ms[n..];
    assert ms == front + rest;
    var link := RekeyAll(owner, front, t)[i].link;
    HandlesOfConcat(front, rest, link);
    NonHandleStays(rest, link);
    RekeyConcat(front, rest, t[i].link);
  }

  // ---- When re-running is a no-op ----

  /**
  Move `j` is taken by `link`, read off the list of moves: it is the first one that lists `link`,
  or the next one that lists the identity of a move already taken.
  */
  predicate Takes(ms: seq<Move>, link: string, j: nat)
    requires j < |ms|
    decreases j
  {
    || (ms[j].handle == link && NotListed(ms, 0, j, link))
    || exists i :: 0 <= i < j && Takes(ms, link, i) && ms[i].identity == ms[j].handle
                   && NotListed(ms, i + 1, j, ms[j].handle)
  }

  /** No move from `i` up to `j` lists the link as its handle. */
  predicate NotListed(ms: seq<Move>, i: nat, j: nat, link: string)
    requires j <= |ms|
  {
    forall k :: i <= k < j ==> ms[k].handle != link
  }

  /** A chain of moves ends at `j`: no later move lists its identity. */
  predicate EndsAt(ms: seq<Move>, link: string, j: nat)
    requires j < |ms|
  {
    Takes(ms, link, j) && NotListed(ms, j + 1, |ms|, ms[j].identity)
  }

  /** The link is listed nowhere, or the chain that starts at it comes back to it. */
  predicate Rests(ms: seq<Move>, link: string) {
    !IsHandle(ms, link) || exists j :: 0 <= j < |ms| && EndsAt(ms, link, j) && ms[j].identity == link
  }

  lemma RekeyStep(ms: seq<Move>, n: nat, link: string)
    requires n < |ms|
    ensures Rekey(ms[..n + 1], link)
            == if Rekey(ms[..n], link) == ms[n].handle then ms[n].identity else Rekey(ms[..n], link)
  {
    assert ms[..n + 1][..n] == ms[..n];
  }

  /** A value that no move from `i` on lists is kept from there on. */
  lemma {:induction false} RekeyKeeps(ms: seq<Move>, link: string, i: nat, n: nat)
    requires i <= n <= |ms| && NotListed(ms, i, n, Rekey(ms[..i], link))
    ensures Rekey(ms[..n], link) == Rekey(ms[..i], link)
    decreases n
  {
    if i < n {
      RekeyKeeps(ms, link, i, n - 1);
      RekeyStep(ms, n - 1, link);
    }
  }

  /** Where the value a link has before move `n` comes from: the link itself, or the last move it took. */
  lemma {:induction false} LastMoveTaken(ms: seq<Move>, link: string, n: nat) returns (i: int)
    requires n <= |ms|
    ensures -1 <= i < n && NotListed(ms, (i + 1) as nat, n, Rekey(ms[..n], link))
    ensures i < 0 ==> Rekey(ms[..n], link) == link
    ensures i >= 0 ==> Rekey(ms[..i], link) == ms[i].handle && ms[i].identity == Rekey(ms[..n], link)
    decreases n
  {
    if n == 0 {
      i := -1;
    } else {
      RekeyStep(ms, n - 1, link);
      if Rekey(ms[..n - 1], link) == ms[n - 1].handle {
        i := n - 1;
      } else {
        i := LastMoveTaken(ms, link, n - 1);
      }
    }
  }

  /** The moves read off the list are the moves the updates make. */
  lemma {:induction false} TakesIffReached(ms: seq<Move>, link: string, j: nat)
    requires j < |ms|
    ensures Takes(ms, link, j) <==> Rekey(ms[..j], link) == ms[j].handle
    decreases j
  {
    assert ms[..0] == [] && Rekey(ms[..0], link) == link;
    if Rekey(ms[..j], link) == ms[j].handle {
      var i := LastMoveTaken(ms, link, j);
      if i >= 0 {
        TakesIffReached(ms, link, i);
      }
    } else if Takes(ms, link, j) {
      if ms[j].handle == link && NotListed(ms, 0, j, link) {
        RekeyKeeps(ms, link, 0, j);
      } else {
        var i :| 0 <= i < j && Takes(ms, link, i) && ms[i].identity == ms[j].handle
                 && NotListed(ms, i + 1, j, ms[j].handle);
        TakesIffReached(ms, link, i);
        RekeyStep(ms, i, link);
        RekeyKeeps(ms, link, i + 1, j);
      }
      assert false;
    }
  }

  /** Where a link that is listed ends up: at the identity its chain ends with. */
  lemma EndOfChain(ms: seq<Move>, link: string, j: nat)
    requires j < |ms| && EndsAt(ms, link, j)
    ensures Rekey(ms, link) == ms[j].identity
  {
    TakesIffReached(ms, link, j);
    RekeyStep(ms, j, link);
    RekeyKeeps(ms, link, j + 1, |ms|);
    assert ms[..|ms|] == ms;
  }

  lemma ChainOf(ms: seq<Move>, link: string) returns (j: nat)
    requires IsHandle(ms, link)
    ensures j < |ms| && EndsAt(ms, link, j) && Rekey(ms, link) == ms[j].identity
  {
    assert ms[..|ms|] == ms;
    var i := LastMoveTaken(ms, link, |ms|);
    assert i >= 0;
    j := i;
    TakesIffReached(ms, link, j);
  }

  /** A link is left where it is exactly when it rests. */
  lemma StillIffRests(ms: seq<Move>, link: string)
    ensures Rekey(ms, link) == link <==> Rests(ms, link)
  {
    if !IsHandle(ms, link) {
      NonHandleStays(ms, link);
    } else {
      var j := ChainOf(ms, link);
      if Rests(ms, link) {
        var k :| 0 <= k < |ms| && EndsAt(ms, link, k) && ms[k].identity == link;
        EndOfChain(ms, link, k);
      }
    }
  }

  /** Every chain that starts at a listed handle ends at a link that rests. */
  predicate ChainsRest(ms: seq<Move>) {
    forall i, j :: 0 <= i < |ms| && 0 <= j < |ms| && EndsAt(ms, ms[i].handle, j) ==> Rests(ms, ms[j].identity)
  }

  ghost predicate Idempotent(owner: string, ms: seq<Move>) {
    forall t: seq<Row> :: RekeyAll(owner, ms, RekeyAll(owner, ms, t)) == RekeyAll(owner, ms, t)
  }

  /**
  Re-running changes no table exactly when, in the list of aliases, every chain of aliases ends at
  a link that is listed nowhere or lies on a cycle of aliases that brings it back.
  */
  lemma IdempotentIffChainsRest(owner: string, ms: seq<Move>)
    ensures Idempotent(owner, ms) <==> ChainsRest(ms)
  {
    hide Takes, EndsAt, Rests;
    if Idempotent(owner, ms) {
      forall i, j | 0 <= i < |ms| && 0 <= j < |ms| && EndsAt(ms, ms[i].handle, j) ensures Rests(ms, ms[j].identity) {
        EndOfChain(ms, ms[i].handle, j);
        var t := [Row(owner, ms[i].handle, None, "")];
        var once := RekeyAll(owner, ms, t);
        var twice := RekeyAll(owner, ms, once);
        assert twice == once;
        assert once[0].link == ms[j].identity && twice[0].link == Rekey(ms, once[0].link);
        StillIffRests(ms, ms[j].identity);
      }
    }
    if ChainsRest(ms) {
      forall t: seq<Row> ensures RekeyAll(owner, ms, RekeyAll(owner, ms, t)) == RekeyAll(owner, ms, t) {
        forall k | 0 <= k < |t| ensures Rekey(ms, Rekey(ms, t[k].link)) == Rekey(ms, t[k].link) {
          ImageRests(ms, t[k].link);
        }
        var once := RekeyAll(owner, ms, t);
        assert forall k :: 0 <= k < |t| ==> RekeyAll(owner, ms, once)[k] == once[k];
      }
    }
  }

  lemma ImageRests(ms: seq<Move>, link: string)
    requires ChainsRest(ms)
    ensures Rekey(ms, Rekey(ms, link)) == Rekey(ms, link)
  {
    hide Takes, EndsAt, Rests;
    if !IsHandle(ms, link) {
      NonHandleStays(ms, link);
    } else {
      var i :| 0 <= i < |ms| && ms[i].handle == link;
      var j := ChainOf(ms, link);
      StillIffRests(ms, ms[j].identity);
    }
  }

  /** Some rank falls along every move: there is no cycle of aliases. */
  ghost predicate Falls(ms: seq<Move>, rank: string -> nat) {
    forall i :: 0 <= i < |ms| ==> rank(ms[i].identity) < rank(ms[i].handle)
  }

  lemma {:induction false} RankFalls(ms: seq<Move>, link: string, rank: string -> nat)
    requires Falls(ms, rank)
    ensures rank(Rekey(ms, link)) <= rank(link) && (Rekey(ms, link) != link ==> rank(Rekey(ms, link)) < rank(link))
    decreases |ms|
  {
    if ms != [] {
      assert forall i :: 0 <= i < |ms| - 1 ==> ms[..|ms| - 1][i] == ms[i];
      RankFalls(ms[..|ms| - 1], link, rank);
    }
  }

  /** Without cycles of aliases a link rests only if it is listed nowhere. */
  lemma AcyclicRests(ms: seq<Move>, link: string, rank: string -> nat)
    requires Falls(ms, rank)
    ensures Rests(ms, link) <==> !IsHandle(ms, link)
  {
    hide Takes;
    if IsHandle(ms, link) && Rests(ms, link) {
      var j :| 0 <= j < |ms| && EndsAt(ms, link, j) && ms[j].identity == link;
      TakesIffReached(ms, link, j);
      assert Falls(ms[..j], rank);
      RankFalls(ms[..j], link, rank);
      assert false;
    }
  }

  predicate ListedOnce(ms: seq<Move>) {
    forall i, j :: 0 <= i < j < |ms| ==> ms[i].handle != ms[j].handle
  }

  /**
  With each handle listed once and no cycle of aliases, re-running changes no table exactly when no
  identity is a handle of the same or an earlier move.
  */
  lemma IdempotentIffNoEarlierHandle(owner: string, ms: seq<Move>, rank: string -> nat)
    requires ListedOnce(ms) && Falls(ms, rank)
    ensures Idempotent(owner, ms) <==> forall i, j :: 0 <= i <= j < |ms| ==> ms[i].handle != ms[j].identity
  {
    hide Idempotent, Rests;
    IdempotentIffChainsRest(owner, ms);
    if ChainsRest(ms) {
      forall i, j | 0 <= i <= j < |ms| ensures ms[i].handle != ms[j].identity {
        if ms[i].handle == ms[j].identity {
          assert EndsAt(ms, ms[j].handle, j);
          AcyclicRests(ms, ms[j].identity, rank);
          assert false;
        }
      }
    } else {
      var i, j :| 0 <= i < |ms| && 0 <= j < |ms| && EndsAt(ms, ms[i].handle, j) && !Rests(ms, ms[j].identity);
      AcyclicRests(ms, ms[j].identity, rank);
      var k :| 0 <= k < |ms| && ms[k].handle == ms[j].identity;
      assert k <= j;
    }
  }

  /** The documented idempotence fails when an identity is itself an earlier item's handle: a second run changes the table. */
  lemma ChainedAliasesNotIdempotent(owner: string)
    ensures var ms := Moves([Alias("ann", ["tg:1"]), Alias("tg:1", ["cli:1"])]);
            var once := RekeyAll(owner, ms, [Row(owner, "cli:1", None, "tier")]);
            once == [Row(owner, "tg:1", None, "tier")]
            && RekeyAll(owner, ms, once) == [Row(owner, "ann", None, "tier")] != once
  {
    var first, second := Alias("ann", ["tg:1"]), Alias("tg:1", ["cli:1"]);
    var ms := [Move("tg:1", "ann"), Move("cli:1", "tg:1")];
    assert [first, second][..1] == [first] && [first][..0] == [];
    assert Moves([first]) == [Move("tg:1", "ann")];
    assert Moves([first, second]) == ms;
    assert ms[..1] == [Move("tg:1", "ann")] && ms[..1][..0] == [];
    assert Rekey(ms[..1], "cli:1") == "cli:1" && Rekey(ms[..1], "tg:1") == "ann";
    assert Rekey(ms, "cli:1") == "tg:1" && Rekey(ms, "tg:1") == "ann" && "ann" != "tg:1";
    var start := [Row(owner, "cli:1", None, "tier")];
    var once := RekeyAll(owner, ms, start);
    assert once == [Row(owner, "tg:1", None, "tier")];
    assert RekeyAll(owner, ms, once)[0] == Row(owner, "ann", None, "tier");
  }

  /** A cycle of aliases listed in order brings its links back, so it does no harm. */
  lemma AliasCycleIsIdempotent(owner: string, a: string, b: string)
    requires a != b
    ensures Idempotent(owner, [Move(a, b), Move(b, a)])
  {
    var ms := [Move(a, b), Move(b, a)];
    assert ms[..1] == [Move(a, b)] && ms[..1][..0] == [];
    forall t: seq<Row> ensures RekeyAll(owner, ms, RekeyAll(owner, ms, t)) == RekeyAll(owner, ms, t) {
      forall k | 0 <= k < |t| ensures Rekey(ms, Rekey(ms, t[k].link)) == Rekey(ms, t[k].link) {
        assert Rekey(ms[..1], t[k].link) == if t[k].link == a then b else t[k].link;
        assert Rekey(ms[..1], a) == b;
      }
      var once := RekeyAll(owner, ms, t);
      assert forall k :: 0 <= k < |t| ==> RekeyAll(owner, ms, once)[k] == once[k];
    }
  }

  // ---- The operation ----

  class Database {
    var preferences: seq<Row>
    var staged: seq<Row>
    var committed: seq<Row>

    constructor (preferences: seq<Row>, staged: seq<Row>, committed: seq<Row>)
      ensures this.preferences == preferences && this.staged == staged && this.committed == committed
    {
      this.preferences, this.staged, this.committed := preferences, staged, committed;
    }

    /** The three UPDATE statements of one handle; `ok` is false when the constraint refuses the first. */
    method UpdateHandle(owner: string, m: Move) returns (ok: bool, n: Counts)
      modifies this
      ensures ok <==> Unique(Update(owner, old(preferences), m))
      ensures ok ==> preferences == Update(owner, old(preferences), m) && staged == Update(owner, old(staged), m)
                     && committed == Update(owner, old(committed), m)
      ensures n == Counts(RowCount(owner, old(preferences), m), RowCount(owner, old(staged), m),
                          RowCount(owner, old(committed), m))
    {
      n := Counts(RowCount(owner, preferences, m), RowCount(owner, staged, m), RowCount(owner, committed, m));
      ok := Unique(Update(owner, preferences, m));
      if ok {
        preferences := Update(owner, preferences, m);
        staged := Update(owner, staged, m);
        committed := Update(owner, committed, m);
      }
    }

    /**
    The nested in-place updates. A violated constraint rolls everything back and yields no counts;
    a dry run yields the counts of a real run and keeps nothing.
    */
    method Relink(aliases: seq<Alias>, owner: string, dryRun: bool) returns (r: Option<Counts>)
      requires Unique(preferences)
      modifies this
      ensures r.Some? <==> AllUnique(owner, Moves(aliases), old(preferences))
      ensures r.Some? ==> r.value.preferences == TotalCount(owner, Moves(aliases), old(preferences))
                          && r.value.facts == TotalCount(owner, Moves(aliases), old(staged))
                          && r.value.committed == TotalCount(owner, Moves(aliases), old(committed))
      ensures r.None? || dryRun ==> preferences == old(preferences) && staged == old(staged) && committed == old(committed)
      ensures r.Some? && !dryRun ==> preferences == RekeyAll(owner, Moves(aliases), old(preferences))
                                     && staged == RekeyAll(owner, Moves(aliases), old(staged))
                                     && committed == RekeyAll(owner, Moves(aliases), old(committed))
    {
      hide RekeyAll, Moves, TotalCount, Unique, AllUnique, Update, RowCount;
      var begin := Tables();
      var counts := Counts(0, 0, 0);
      ghost var done := [];
      Nothing(owner, begin);
      assert Moves(aliases[..0]) == [] by { NoMoves(); }
      for a := 0 to |aliases|
        invariant done == Moves(aliases[..a])
        invariant Tables() == RekeyTables(owner, done, begin) && counts == TotalCounts(owner, done, begin)
        invariant AllUnique(owner, done, begin.preferences)
      {
        var identity, handles := aliases[a].identity, aliases[a].handles;
        assert handles[..0] == [] && MovesOf(identity, []) == [];
        for b := 0 to |handles|
          invariant done == Moves(aliases[..a]) + MovesOf(identity, handles[..b])
          invariant Tables() == RekeyTables(owner, done, begin) && counts == TotalCounts(owner, done, begin)
          invariant AllUnique(owner, done, begin.preferences)
        {
          var m := Move(handles[b], identity);
          var ok, n := UpdateHandle(owner, m);
          OneMoreMove(owner, done, m, begin);
          MovesSoFar(aliases, a, b);
          if !ok {
            PrefixFails(owner, Moves(aliases), done + [m], begin.preferences);
            preferences, staged, committed := begin.preferences, begin.staged, begin.committed;
            return None;
          }
          counts := Counts(counts.preferences + n.preferences, counts.facts + n.facts, counts.committed + n.committed);
          done := done + [m];
        }
        assert handles[..|handles|] == handles;
        MovesSnoc(aliases, a);
      }
      assert aliases[..|aliases|] == aliases;
      if dryRun {
        preferences, staged, committed := begin.preferences, begin.staged, begin.committed;
      }
      r := Some(counts);
    }

    function Tables(): TableSet
      reads this
    {
      TableSet(preferences, staged, committed)
    }
  }

  datatype TableSet = TableSet(preferences: seq<Row>, staged: seq<Row>, committed: seq<Row>)

  function RekeyTables(owner: string, ms: seq<Move>, t: TableSet): TableSet {
    TableSet(RekeyAll(owner, ms, t.preferences), RekeyAll(owner, ms, t.staged), RekeyAll(owner, ms, t.committed))
  }

  function TotalCounts(owner: string, ms: seq<Move>, t: TableSet): Counts {
    Counts(TotalCount(owner, ms, t.preferences), TotalCount(owner, ms, t.staged), TotalCount(owner, ms, t.committed))
  }

  lemma NoMoves()
    ensures Moves([]) == []
  {
  }

  lemma Nothing(owner: string, t: TableSet)
    requires Unique(t.preferences)
    ensures RekeyTables(owner, [], t) == t && TotalCounts(owner, [], t) == Counts(0, 0, 0)
    ensures AllUnique(owner, [], t.preferences)
  {
    assert RekeyAll(owner, [], t.preferences) == t.preferences;
    assert RekeyAll(owner, [], t.staged) == t.staged;
    assert RekeyAll(owner, [], t.committed) == t.committed;
  }

  lemma TotalCountStep(owner: string, done: seq<Move>, m: Move, t: seq<Row>)
    ensures TotalCount(owner, done + [m], t) == TotalCount(owner, done, t) + RowCount(owner, RekeyAll(owner, done, t), m)
  {
    assert (done + [m])[..|done|] == done;
  }

  lemma AllUniqueStep(owner: string, done: seq<Move>, m: Move, t: seq<Row>)
    requires AllUnique(owner, done, t)
    ensures AllUnique(owner, done + [m], t) <==> Unique(RekeyAll(owner, done + [m], t))
  {
    hide Unique, RekeyAll;
    var all := done + [m];
    assert all[..|all|] == all;
    forall n | 0 <= n <= |done| ensures Unique(RekeyAll(owner, all[..n], t)) {
      assert all[..n] == done[..n];
    }
  }

  /** The effect of one more update on the tables, the counts and the constraint. */
  lemma OneMoreMove(owner: string, done: seq<Move>, m: Move, t: TableSet)
    requires AllUnique(owner, done, t.preferences)
    ensures var now := RekeyTables(owner, done, t);
            var next := RekeyTables(owner, done + [m], t);
            var n, n' := TotalCounts(owner, done, t), TotalCounts(owner, done + [m], t);
            && next == TableSet(Update(owner, now.preferences, m), Update(owner, now.staged, m), Update(owner, now.committed, m))
            && n' == Counts(n.preferences + RowCount(owner, now.preferences, m), n.facts + RowCount(owner, now.staged, m),
                            n.committed + RowCount(owner, now.committed, m))
            && (AllUnique(owner, done + [m], t.preferences) <==> Unique(next.preferences))
  {
    hide Unique, RekeyAll, TotalCount, AllUnique, Update;
    RekeyAllStep(owner, done, m, t.preferences);
    RekeyAllStep(owner, done, m, t.staged);
    RekeyAllStep(owner, done, m, t.committed);
    TotalCountStep(owner, done, m, t.preferences);
    TotalCountStep(owner, done, m, t.staged);
    TotalCountStep(owner, done, m, t.committed);
    AllUniqueStep(owner, done, m, t.preferences);
  }

  lemma PrefixFails(owner: string, ms: seq<Move>, front: seq<Move>, t: seq<Row>)
    requires front <= ms && !Unique(RekeyAll(owner, front, t))
    ensures !AllUnique(owner, ms, t)
  {
    assert ms[..|front|] == front;
  }

  lemma MovesSnoc(aliases: seq<Alias>, a: nat)
    requires a < |aliases|
    ensures Moves(aliases[..a + 1]) == Moves(aliases[..a]) + MovesOf(aliases[a].identity, aliases[a].handles)
  {
    assert aliases[..a + 1][..a] == aliases[..a];
  }

  lemma {:induction false} MovesPrefix(aliases: seq<Alias>, a: nat)
    requires a <= |aliases|
    ensures Moves(aliases[..a]) <= Moves(aliases)
    decreases |aliases| - a
  {
    if a < |aliases| {
      MovesSnoc(aliases, a);
      MovesPrefix(aliases, a + 1);
    } else {
      assert aliases[..a] == aliases;
    }
  }

  /** The updates done after handle `b` of item `a` are the first ones of the whole run. */
  lemma MovesSoFar(aliases: seq<Alias>, a: nat, b: nat)
    requires a < |aliases| && b < |aliases[a].handles|
    ensures var identity, handles := aliases[a].identity, aliases[a].handles;
            && MovesOf(identity, handles[..b + 1]) == MovesOf(identity, handles[..b]) + [Move(handles[b], identity)]
            && Moves(aliases[..a]) + MovesOf(identity, handles[..b]) + [Move(handles[b], identity)] <= Moves(aliases)
  {
    hide Moves;
    var identity, handles := aliases[a].identity, aliases[a].handles;
    assert MovesOf(identity, handles[..b + 1]) == MovesOf(identity, handles[..b]) + [Move(handles[b], identity)];
    MovesSnoc(aliases, a);
    MovesPrefix(aliases, a + 1);
    assert MovesOf(identity, handles[..b + 1]) <= MovesOf(identity, handles);
  }
}
