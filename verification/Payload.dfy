/**
The hashed text of one audit row: the length-prefixed, separator-joined v2 payload and the legacy
v1 concatenation (src/stackowl/audit/logger.py:40-89).
*/
module Payload {
  import opened Common

  const FIELD_SEP: string := "\U{1f}"
  const CHAIN_VERSION: string := "v2"

  function Digit(n: nat): char
    requires n < 10
  {
    "0123456789"[n]
  }

  /** Python's `str` of a non-negative integer. */
  function Decimal(n: nat): (s: string)
    ensures |s| > 0 && forall i :: 0 <= i < |s| ==> '0' <= s[i] <= '9'
  {
    if n < 10 then [Digit(n)] else Decimal(n / 10) + [Digit(n % 10)]
  }

  function DecimalValue(s: string): int {
    if s == [] then 0 else 10 * DecimalValue(s[..|s| - 1]) + (Last(s) as int - '0' as int)
  }

  lemma {:induction false} DecimalRoundTrip(n: nat)
    ensures DecimalValue(Decimal(n)) == n
  {
    var s := Decimal(n);
    if n < 10 {
      assert s[..|s| - 1] == [];
      assert Digit(n) as int - '0' as int == n;
    } else {
      DecimalRoundTrip(n / 10);
      assert s[..|s| - 1] == Decimal(n / 10);
      assert Digit(n % 10) as int - '0' as int == n % 10;
    }
  }

  /** `None` and the empty string are one canonical value. */
  function Canonical(v: Option<string>): string {
    if v.None? then "" else v.value
  }

  function LengthPrefixed(v: Option<string>): string {
    Decimal(|Canonical(v)|) + ":" + Canonical(v)
  }

  /** A run of digits ended by a colon has only one end. */
  lemma DigitsEndAtColon(m: string, n: string, x: string, y: string)
    requires forall i :: 0 <= i < |m| ==> '0' <= m[i] <= '9'
    requires forall i :: 0 <= i < |n| ==> '0' <= n[i] <= '9'
    requires m + (":" + x) == n + (":" + y)
    ensures m == n && x == y
  {
    var t := m + (":" + x);
    assert t[|m|] == ':' && t[|n|] == ':';
    assert forall i :: 0 <= i < |m| ==> t[i] == m[i];
    assert forall i :: 0 <= i < |n| ==> t[i] == n[i];
    SplitAt(m, n, ":" + x, ":" + y);
    SplitAt(":", ":", x, y);
  }

  /** Equal concatenations with equally long fronts have equal fronts and equal rests. */
  lemma SplitAt(a: string, b: string, x: string, y: string)
    requires |a| == |b| && a + x == b + y
    ensures a == b && x == y
  {
    assert a == (a + x)[..|a|] && b == (b + y)[..|b|];
    assert x == (a + x)[|a|..] && y == (b + y)[|b|..];
  }

  /** A length-prefixed field can be read off the front of any text in only one way. */
  lemma LengthPrefixedCancels(v: Option<string>, w: Option<string>, x: string, y: string)
    requires LengthPrefixed(v) + x == LengthPrefixed(w) + y
    ensures Canonical(v) == Canonical(w) && x == y
  {
    var a, b := Canonical(v), Canonical(w);
    var m, n := Decimal(|a|), Decimal(|b|);
    assert m + (":" + (a + x)) == LengthPrefixed(v) + x == LengthPrefixed(w) + y == n + (":" + (b + y));
    DigitsEndAtColon(m, n, a + x, b + y);
    DecimalRoundTrip(|a|);
    DecimalRoundTrip(|b|);
    SplitAt(a, b, x, y);
  }

  /** Fields joined by the separator, each length-prefixed. */
  function Joined(fields: seq<Option<string>>): string {
    if fields == [] then "" else FIELD_SEP + LengthPrefixed(fields[0]) + Joined(fields[1..])
  }

  /** A field in front of any rest: the field and the rest are both determined. */
  lemma FieldCancels(v: Option<string>, w: Option<string>, x: string, y: string)
    requires FIELD_SEP + LengthPrefixed(v) + x == FIELD_SEP + LengthPrefixed(w) + y
    ensures Canonical(v) == Canonical(w) && x == y
  {
    assert LengthPrefixed(v) + x == (FIELD_SEP + LengthPrefixed(v) + x)[1..];
    assert LengthPrefixed(w) + y == (FIELD_SEP + LengthPrefixed(w) + y)[1..];
    LengthPrefixedCancels(v, w, x, y);
  }

  lemma {:induction false} JoinedInjective(f: seq<Option<string>>, g: seq<Option<string>>)
    requires |f| == |g| && Joined(f) == Joined(g)
    ensures forall i :: 0 <= i < |f| ==> Canonical(f[i]) == Canonical(g[i])
  {
    if f != [] {
      FieldCancels(f[0], g[0], Joined(f[1..]), Joined(g[1..]));
      JoinedInjective(f[1..], g[1..]);
      forall i | 0 < i < |f| ensures Canonical(f[i]) == Canonical(g[i]) {
        assert f[i] == f[1..][i - 1] && g[i] == g[1..][i - 1];
      }
    }
  }

  function PayloadV2(prev: string, eventType: string, actor: Option<string>, target: Option<string>,
                     time: string, details: string): string
  {
    CHAIN_VERSION + Joined([Some(prev), Some(eventType), actor, target, Some(time), Some(details)])
  }

  function PayloadV1(prev: string, eventType: string, time: string, details: string): string {
    prev + eventType + time + details
  }

  /** One field as it stands in the payload. */
  function Field(v: string): string {
    "\U{1f}" + (Decimal(|v|) + ":" + v)
  }

  /** The six fields stand behind the version in this order, each with its length. */
  lemma PayloadText(prev: string, eventType: string, actor: Option<string>, target: Option<string>,
                    time: string, details: string)
    ensures PayloadV2(prev, eventType, actor, target, time, details)
            == "v2" + (Field(prev) + (Field(eventType) + (Field(Canonical(actor)) + (Field(Canonical(target))
               + (Field(time) + Field(details))))))
  {
    hide Decimal, Joined;
    var f := [Some(prev), Some(eventType), actor, target, Some(time), Some(details)];
    assert f[1..] == [Some(eventType), actor, target, Some(time), Some(details)];
    JoinedCons(f);
    JoinedCons(f[1..]);
    assert f[1..][1..] == f[2..] && f[2..][1..] == f[3..] && f[3..][1..] == f[4..] && f[4..][1..] == f[5..] && f[5..][1..] == [];
    JoinedCons(f[2..]);
    JoinedCons(f[3..]);
    JoinedCons(f[4..]);
    JoinedCons(f[5..]);
    JoinedNothing();
    assert Field(details) + "" == Field(details);
  }

  /** Behind one predecessor hash, v1 payloads agree exactly when type, time and details read the same in a row. */
  lemma V1PayloadsAgreeIff(prev: string, eventType: string, time: string, details: string,
                           eventType': string, time': string, details': string)
    ensures PayloadV1(prev, eventType, time, details) == PayloadV1(prev, eventType', time', details')
            <==> eventType + time + details == eventType' + time' + details'
  {
    var x, y := eventType + time + details, eventType' + time' + details';
    assert PayloadV1(prev, eventType, time, details) == prev + x && PayloadV1(prev, eventType', time', details') == prev + y;
    if prev + x == prev + y {
      SplitAt(prev, prev, x, y);
    }
  }

  /**
  The v2 payload is uniquely decodable: whatever digits, colons or separators the fields contain,
  two equal payloads were built from the same six fields, up to `None` being the empty string.
  */
  lemma PayloadDecodesUniquely(
    prev: string, eventType: string, actor: Option<string>, target: Option<string>, time: string, details: string,
    prev': string, eventType': string, actor': Option<string>, target': Option<string>, time': string, details': string)
    ensures PayloadV2(prev, eventType, actor, target, time, details)
            == PayloadV2(prev', eventType', actor', target', time', details')
            <==> prev == prev' && eventType == eventType' && Canonical(actor) == Canonical(actor')
                 && Canonical(target) == Canonical(target') && time == time' && details == details'
  {
    var f := [Some(prev), Some(eventType), actor, target, Some(time), Some(details)];
    var g := [Some(prev'), Some(eventType'), actor', target', Some(time'), Some(details')];
    if CHAIN_VERSION + Joined(f) == CHAIN_VERSION + Joined(g) {
      assert Joined(f) == (CHAIN_VERSION + Joined(f))[|CHAIN_VERSION|..];
      assert Joined(g) == (CHAIN_VERSION + Joined(g))[|CHAIN_VERSION|..];
      JoinedInjective(f, g);
      assert Canonical(f[0]) == Canonical(g[0]) && Canonical(f[1]) == Canonical(g[1])
             && Canonical(f[2]) == Canonical(g[2]) && Canonical(f[3]) == Canonical(g[3])
             && Canonical(f[4]) == Canonical(g[4]) && Canonical(f[5]) == Canonical(g[5]);
    } else if prev == prev' && eventType == eventType' && Canonical(actor) == Canonical(actor')
              && Canonical(target) == Canonical(target') && time == time' && details == details' {
      JoinedCanonical(f, g);
    }
  }

  /** Only the canonical values of the fields reach the payload. */
  lemma {:induction false} JoinedCanonical(f: seq<Option<string>>, g: seq<Option<string>>)
    requires |f| == |g| && forall i :: 0 <= i < |f| ==> Canonical(f[i]) == Canonical(g[i])
    ensures Joined(f) == Joined(g)
  {
    if f != [] {
      assert Canonical(f[0]) == Canonical(g[0]);
      JoinedCanonical(f[1..], g[1..]);
    }
  }

  // ---- The v1/v2 boundary ----

  /** Behind a hexadecimal hash no v1 payload reads as a v2 payload. */
  lemma HashedV1NeverReadsAsV2(prev: string, eventType: string, time: string, details: string, v2: seq<Option<string>>)
    requires prev != "" && prev[0] != 'v'
    ensures PayloadV1(prev, eventType, time, details) != CHAIN_VERSION + Joined(v2)
  {
    hide Joined;
    assert PayloadV1(prev, eventType, time, details)[0] == prev[0];
    assert (CHAIN_VERSION + Joined(v2))[0] == 'v';
  }

  /** The joined text ends in the value of its last field. */
  lemma {:induction false} JoinedEndsWith(f: seq<Option<string>>) returns (front: string)
    requires f != []
    ensures Joined(f) == front + Canonical(Last(f))
    decreases |f|
  {
    hide Decimal, Joined;
    JoinedCons(f);
    var v := Canonical(f[0]);
    if |f| == 1 {
      var prefix := Decimal(|v|) + ":";
      front := FIELD_SEP + prefix;
      assert f[1..] == [];
      JoinedNothing();
      assert FIELD_SEP + (prefix + v) + "" == front + v;
    } else {
      hide LengthPrefixed;
      var rest := JoinedEndsWith(f[1..]);
      var last := Canonical(Last(f));
      front := FIELD_SEP + LengthPrefixed(f[0]) + rest;
      assert FIELD_SEP + LengthPrefixed(f[0]) + (rest + last) == front + last;
    }
  }

  lemma JoinedCons(f: seq<Option<string>>)
    requires f != []
    ensures Joined(f) == FIELD_SEP + LengthPrefixed(f[0]) + Joined(f[1..])
  {
    hide LengthPrefixed;
  }

  lemma JoinedNothing()
    ensures Joined([]) == ""
  {
  }

  /**
  The very first row is the exception: with no hash in front, a v1 event type can spell out a v2
  payload up to the place in its details where the v1 time text stands.
  */
  lemma FirstV1MayReadAsV2(f: seq<Option<string>>, before: string, time: string, details: string) returns (eventType: string)
    requires f != [] && Canonical(Last(f)) == before + time + details
    ensures PayloadV1("", eventType, time, details) == CHAIN_VERSION + Joined(f)
  {
    hide Joined;
    var front := JoinedEndsWith(f);
    eventType := CHAIN_VERSION + front + before;
    assert "" + eventType + time + details == CHAIN_VERSION + (front + (before + time + details));
  }

  /** What every text of a float satisfies. */
  predicate IsTimeText(time: string) {
    |time| >= 2 && time[0] != 'v' && FIELD_SEP[0] !in time
  }

  /** And only an event type that itself starts with the version literal and a separator can. */
  lemma FirstV1ReadsAsV2OnlyIf(eventType: string, time: string, details: string, f: seq<Option<string>>)
    requires f != [] && IsTimeText(time)
    ensures PayloadV1("", eventType, time, details) == CHAIN_VERSION + Joined(f) ==>
              CHAIN_VERSION + FIELD_SEP <= eventType
  {
    hide Joined, LengthPrefixed;
    JoinedCons(f);
    var v1, v2 := PayloadV1("", eventType, time, details), CHAIN_VERSION + Joined(f);
    assert v2[0] == 'v' && v2[1] == '2' && v2[2] == FIELD_SEP[0];
    assert v1 == eventType + (time + details);
    assert forall k :: 0 <= k < |eventType| ==> v1[k] == eventType[k];
    assert v1[|eventType|] == time[0] && v1[|eventType| + 1] == time[1];
    assert time[0] in time && time[1] in time;
    if v1 == v2 {
      assert |eventType| >= 3;
    }
  }
}
