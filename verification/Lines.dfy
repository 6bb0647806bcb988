/** `str.split` on one character, `"\n".join` and `sep.join`. */
module Lines {
  import opened Common

  predicate NoNewline(s: string) {
    '\n' !in s
  }

  /** One more character in front of the parts. */
  function Push(sep: char, c: char, ps: seq<string>): (r: seq<string>)
    requires ps != []
    ensures r != []
  {
    if c == sep then [""] + ps else [[c] + ps[0]] + ps[1..]
  }

  /** `t.split(sep)`. */
  function SplitOn(sep: char, t: string): (ps: seq<string>)
    ensures ps != [] && forall i :: 0 <= i < |ps| ==> sep !in ps[i]
  {
    if t == "" then [""] else Push(sep, t[0], SplitOn(sep, t[1..]))
  }

  function SplitLines(t: string): (ls: seq<string>)
    ensures |ls| > 0 && forall i :: 0 <= i < |ls| ==> NoNewline(ls[i])
  {
    SplitOn('\n', t)
  }

  function JoinLines(ls: seq<string>): string {
    if |ls| == 0 then "" else if |ls| == 1 then ls[0] else ls[0] + "\n" + JoinLines(ls[1..])
  }

  /** `sep.join(parts)`. */
  function Join(sep: string, parts: seq<string>): string {
    if |parts| == 0 then ""
    else if |parts| == 1 then parts[0]
    else Join(sep, parts[..|parts| - 1]) + sep + Last(parts)
  }

  /** The lines of the pieces, one piece after the other. */
  function AllLines(pieces: seq<string>): seq<string> {
    if pieces == [] then [] else SplitLines(pieces[0]) + AllLines(pieces[1..])
  }

  lemma JoinPush(c: char, ls: seq<string>)
    requires ls != []
    ensures JoinLines(Push('\n', c, ls)) == [c] + JoinLines(ls)
  {
    if c == '\n' {
      assert ([""] + ls)[1..] == ls;
    } else {
      assert Push('\n', c, ls)[1..] == ls[1..];
      assert |ls| > 1 ==> [c] + (ls[0] + "\n" + JoinLines(ls[1..])) == ([c] + ls[0]) + "\n" + JoinLines(ls[1..]);
    }
  }

  lemma {:induction false} JoinSplit(t: string)
    ensures JoinLines(SplitLines(t)) == t
    decreases |t|
  {
    hide Push, JoinLines;
    if t == "" {
      assert JoinLines([""]) == "" by { JoinOne(""); }
    } else {
      JoinSplit(t[1..]);
      JoinPush(t[0], SplitLines(t[1..]));
      assert t == [t[0]] + t[1..];
    }
  }

  lemma JoinOne(s: string)
    ensures JoinLines([s]) == s
  {
  }

  lemma PushConcat(sep: char, c: char, front: seq<string>, back: seq<string>)
    requires front != []
    ensures Push(sep, c, front + back) == Push(sep, c, front) + back
  {
    assert (front + back)[1..] == front[1..] + back;
  }

  /** Splitting two texts joined by the separator splits each. */
  lemma {:induction false} SplitAtSeparator(sep: char, a: string, b: string)
    ensures SplitOn(sep, a + [sep] + b) == SplitOn(sep, a) + SplitOn(sep, b)
    decreases |a|
  {
    var t := a + [sep] + b;
    if a == "" {
      assert t[1..] == b;
    } else {
      hide Push;
      assert t[0] == a[0] && t[1..] == a[1..] + [sep] + b;
      SplitAtSeparator(sep, a[1..], b);
      PushConcat(sep, a[0], SplitOn(sep, a[1..]), SplitOn(sep, b));
    }
  }

  lemma SplitAtNewline(a: string, b: string)
    ensures SplitLines(a + "\n" + b) == SplitLines(a) + SplitLines(b)
  {
    SplitAtSeparator('\n', a, b);
    assert "\n" == ['\n'];
  }

  lemma {:induction false} SplitOnPlain(sep: char, s: string)
    requires sep !in s
    ensures SplitOn(sep, s) == [s]
    decreases |s|
  {
    if s != "" {
      assert forall c :: c in s[1..] ==> c in s;
      SplitOnPlain(sep, s[1..]);
      assert s == [s[0]] + s[1..];
    }
  }

  lemma SplitPlain(s: string)
    requires NoNewline(s)
    ensures SplitLines(s) == [s]
  {
    SplitOnPlain('\n', s);
  }

  /** A part holds only characters of the text. */
  lemma {:induction false} SplitOnChars(sep: char, t: string, i: nat)
    requires i < |SplitOn(sep, t)|
    ensures forall c :: c in SplitOn(sep, t)[i] ==> c in t
    decreases |t|
  {
    if t != "" {
      var rest := SplitOn(sep, t[1..]);
      assert forall c :: c in t[1..] ==> c in t;
      if t[0] == sep {
        if i > 0 {
          SplitOnChars(sep, t[1..], i - 1);
        }
      } else {
        SplitOnChars(sep, t[1..], i);
        assert i > 0 ==> SplitOn(sep, t)[i] == rest[i];
      }
    }
  }

  /** Splitting undoes joining parts that do not contain the separator. */
  lemma {:induction false} SplitOnJoin(sep: char, parts: seq<string>)
    requires parts != [] && forall i :: 0 <= i < |parts| ==> sep !in parts[i]
    ensures SplitOn(sep, Join([sep], parts)) == parts
    decreases |parts|
  {
    hide SplitOn;
    SplitOnPlain(sep, Last(parts));
    if |parts| > 1 {
      SplitOnJoin(sep, parts[..|parts| - 1]);
      SplitAtSeparator(sep, Join([sep], parts[..|parts| - 1]), Last(parts));
    }
  }

  lemma {:induction false} SplitJoin(pieces: seq<string>)
    requires pieces != []
    ensures SplitLines(JoinLines(pieces)) == AllLines(pieces)
    decreases |pieces|
  {
    if |pieces| == 1 {
      assert AllLines(pieces[1..]) == [];
    } else {
      SplitJoin(pieces[1..]);
      SplitAtNewline(pieces[0], JoinLines(pieces[1..]));
    }
  }

  lemma {:induction false} AllLinesPlain(ls: seq<string>)
    requires forall i :: 0 <= i < |ls| ==> NoNewline(ls[i])
    ensures AllLines(ls) == ls
    decreases |ls|
  {
    if ls != [] {
      SplitPlain(ls[0]);
      AllLinesPlain(ls[1..]);
    }
  }

  /** Joining brings in no character that is in neither the separator nor a part. */
  lemma {:induction false} JoinAvoids(c: char, sep: string, parts: seq<string>)
    requires c !in sep && forall i :: 0 <= i < |parts| ==> c !in parts[i]
    ensures c !in Join(sep, parts)
    decreases |parts|
  {
    if |parts| > 1 {
      JoinAvoids(c, sep, parts[..|parts| - 1]);
    }
  }

  lemma {:induction false} JoinLinesAvoids(c: char, ls: seq<string>)
    requires c != '\n' && forall i :: 0 <= i < |ls| ==> c !in ls[i]
    ensures c !in JoinLines(ls)
    decreases |ls|
  {
    if |ls| > 1 {
      JoinLinesAvoids(c, ls[1..]);
    }
  }
}
