/** Transcript assembly: the segments the transcript service returns are
    turned into one plain-text corpus by joining their texts, in order, with a
    single space (the `map(...).join(" ")` of the question handler). */
module Transcript {

  /** One timed caption unit as the transcript service returns it. The offset
      and duration are carried along but play no part in assembly. */
  datatype Segment = Segment(text: string, offset: real, duration: real)

  /** The separator placed between neighbouring segment texts. */
  const Separator: string := " "

  /** The texts of the segments, in order. */
  function Texts(segments: seq<Segment>): (ts: seq<string>)
    ensures |ts| == |segments|
    ensures forall k :: 0 <= k < |ts| ==> ts[k] == segments[k].text
  {
    seq(|segments|, k requires 0 <= k < |segments| => segments[k].text)
  }

  /** `Array.prototype.join(" ")` on a list of strings: the empty list gives
      the empty string, one element gives itself, and otherwise the first
      element, a space, and the join of the rest. The result is exactly as
      long as the texts together plus one separator between each pair of
      neighbours. */
  function Join(ts: seq<string>): (r: string)
    ensures |ts| == 0 ==> r == ""
    ensures |ts| > 0 ==> |r| == TotalLength(ts) + |ts| - 1
  {
    if |ts| == 0 then ""
    else if |ts| == 1 then ts[0]
    else ts[0] + Separator + Join(ts[1..])
  }

  /** The transcript text handed to the prompt builder. */
  function Assemble(segments: seq<Segment>): (text: string)
    ensures |segments| == 0 ==> text == ""
    ensures |segments| == 1 ==> text == segments[0].text
  {
    Join(Texts(segments))
  }

  /** The sum of the lengths of the strings. */
  function TotalLength(ts: seq<string>): nat
  {
    if |ts| == 0 then 0 else |ts[0]| + TotalLength(ts[1..])
  }

  /** Where the k-th text starts in the joined string: all earlier texts and
      one separator after each of them. */
  function Offset(ts: seq<string>, k: nat): nat
    requires k <= |ts|
  {
    if k == 0 then 0 else |ts[0]| + |Separator| + Offset(ts[1..], k - 1)
  }

  /** Joining a list that starts with `t`: `t` alone, or `t`, a space and
      the join of the rest. */
  lemma JoinCons(t: string, ts: seq<string>)
    ensures Join([t] + ts) == if |ts| == 0 then t else t + Separator + Join(ts)
  {
    assert ([t] + ts)[1..] == ts;
  }

  /** The k-th text appears verbatim at its offset in the joined string, and
      unless it is the last one it is followed by exactly one space. Together
      with the length that `Join` states, this pins down every character of
      the result. */
  lemma {:induction false} JoinLayout(ts: seq<string>, k: nat)
    requires k < |ts|
    ensures Offset(ts, k) + |ts[k]| <= |Join(ts)|
    ensures Join(ts)[Offset(ts, k)..Offset(ts, k) + |ts[k]|] == ts[k]
    ensures k + 1 < |ts| ==> Offset(ts, k) + |ts[k]| < |Join(ts)|
    ensures k + 1 < |ts| ==> Join(ts)[Offset(ts, k) + |ts[k]|] == ' '
  {
    if k == 0 {
      JoinLayoutFirst(ts);
    } else {
      JoinLayout(ts[1..], k - 1);
      JoinLayoutShift(ts, k);
    }
  }

  /** The first text starts the joined string and is followed by a space
      when there are more. */
  lemma JoinLayoutFirst(ts: seq<string>)
    requires |ts| > 0
    ensures Offset(ts, 0) == 0
    ensures |ts[0]| <= |Join(ts)| && Join(ts)[..|ts[0]|] == ts[0]
    ensures |ts| > 1 ==> |ts[0]| < |Join(ts)| && Join(ts)[|ts[0]|] == ' '
  {
    assert ts[..0] == [];
    var rest := ts[1..];
    assert ts == [ts[0]] + rest;
    JoinCons(ts[0], rest);
    if |ts| > 1 {
      var j := Join(ts);
      assert j == ts[0] + (Separator + Join(rest));
      assert j[..|ts[0]|] == ts[0];
    }
  }

  /** The layout of the tail of the list carries over to the whole list,
      shifted by the first text and one space. */
  lemma JoinLayoutShift(ts: seq<string>, k: nat)
    requires 0 < k < |ts|
    requires var o := Offset(ts[1..], k - 1);
      && o + |ts[k]| <= |Join(ts[1..])|
      && Join(ts[1..])[o..o + |ts[k]|] == ts[k]
      && (k + 1 < |ts| ==> o + |ts[k]| < |Join(ts[1..])| && Join(ts[1..])[o + |ts[k]|] == ' ')
    ensures Offset(ts, k) + |ts[k]| <= |Join(ts)|
    ensures Join(ts)[Offset(ts, k)..Offset(ts, k) + |ts[k]|] == ts[k]
    ensures k + 1 < |ts| ==> Offset(ts, k) + |ts[k]| < |Join(ts)|
    ensures k + 1 < |ts| ==> Join(ts)[Offset(ts, k) + |ts[k]|] == ' '
  {
    var rest := ts[1..];
    assert ts == [ts[0]] + rest;
    JoinCons(ts[0], rest);
    var head := ts[0] + Separator;
    var o := Offset(rest, k - 1);
    assert Offset(ts, k) == |head| + o;
    var j := Join(ts);
    assert j == head + Join(rest);
    assert j[|head| + o..|head| + o + |ts[k]|] == Join(rest)[o..o + |ts[k]|];
  }

  /** The assembled transcript of n >= 1 segments is their texts in their
      original order with exactly one space between neighbours: as long as
      the texts together plus n - 1, and the k-th text verbatim at its offset,
      followed by a space unless it is the last. */
  lemma AssembleLayout(segments: seq<Segment>, k: nat)
    requires k < |segments|
    ensures |Assemble(segments)| == TotalLength(Texts(segments)) + |segments| - 1
    ensures var ts := Texts(segments);
            && Offset(ts, k) + |segments[k].text| <= |Assemble(segments)|
            && Assemble(segments)[Offset(ts, k)..Offset(ts, k) + |segments[k].text|] == segments[k].text
            && (k + 1 < |segments| ==>
                  && Offset(ts, k) + |segments[k].text| < |Assemble(segments)|
                  && Assemble(segments)[Offset(ts, k) + |segments[k].text|] == ' ')
  {
    var ts := Texts(segments);
    assert Assemble(segments) == Join(ts) && |ts| == |segments| && ts[k] == segments[k].text;
    JoinLayout(ts, k);
  }

  /** The position of the first space in `s`, or `|s|` when there is none. */
  function SpaceIndex(s: string): (k: nat)
    ensures k <= |s|
    ensures forall j :: 0 <= j < k ==> s[j] != ' '
    ensures k < |s| ==> s[k] == ' '
  {
    if |s| == 0 || s[0] == ' ' then 0 else 1 + SpaceIndex(s[1..])
  }

  /** The first space is the only position that is a space with none
      before it. */
  lemma {:induction false} SpaceIndexAt(s: string, k: nat)
    requires k <= |s|
    requires forall j :: 0 <= j < k ==> s[j] != ' '
    requires k < |s| ==> s[k] == ' '
    ensures SpaceIndex(s) == k
  {
    if k > 0 {
      assert s[0] != ' ';
      var t := s[1..];
      forall j | 0 <= j < k - 1
        ensures t[j] != ' '
      {
        assert t[j] == s[j + 1];
      }
      SpaceIndexAt(t, k - 1);
    }
  }

  /** `String.prototype.split(" ")`: the pieces between the spaces of `s`,
      always at least one. It is the reference inverse of `Join`. */
  function Split(s: string): (parts: seq<string>)
    ensures |parts| >= 1
    decreases |s|
  {
    var k := SpaceIndex(s);
    if k == |s| then [s] else [s[..k]] + Split(s[k + 1..])
  }

  /** Splitting a string and joining the pieces with a space gives the string
      back: the join loses nothing. */
  lemma {:induction false} JoinSplit(s: string)
    ensures Join(Split(s)) == s
    decreases |s|
  {
    var k := SpaceIndex(s);
    if k == |s| {
      JoinCons(s, []);
      assert [s] + [] == [s];
    } else {
      var rest := Split(s[k + 1..]);
      JoinSplit(s[k + 1..]);
      JoinCons(s[..k], rest);
      assert s == s[..k] + Separator + s[k + 1..];
    }
  }

  /** The text contains no separator character. */
  predicate SpaceFree(t: string)
  {
    forall i :: 0 <= i < |t| ==> t[i] != ' '
  }

  /** When no text contains a space, splitting the join of a non-empty list
      gives the list back: the join is injective on such lists. */
  lemma {:induction false} SplitJoin(ts: seq<string>)
    requires |ts| > 0
    requires forall k :: 0 <= k < |ts| ==> SpaceFree(ts[k])
    ensures Split(Join(ts)) == ts
  {
    var t := ts[0];
    assert SpaceFree(t);
    if |ts| == 1 {
      SpaceIndexAt(t, |t|);
    } else {
      var rest := ts[1..];
      SplitJoin(rest);
      var s := Join(ts);
      assert s == t + Separator + Join(rest);
      SpaceIndexAt(s, |t|);
      assert s[..|t|] == t;
      assert s[|t| + 1..] == Join(rest);
      assert Split(s) == [t] + rest;
    }
  }

  /** Three segments that already end in a space give a double space at
      each join. */
  lemma AssembleThreeSegments()
    ensures Assemble([Segment("Intro ", 0.0, 1.0), Segment("middle part ", 1.0, 1.0),
                      Segment("end.", 2.0, 1.0)]) == "Intro  middle part  end."
  {
    AssembleThree(Segment("Intro ", 0.0, 1.0), Segment("middle part ", 1.0, 1.0),
                  Segment("end.", 2.0, 1.0));
  }

  /** The transcript of three segments: their texts with a space between
      each neighbouring pair. */
  lemma AssembleThree(x: Segment, y: Segment, z: Segment)
    ensures Assemble([x, y, z]) == x.text + Separator + y.text + Separator + z.text
  {
    assert Texts([x, y, z]) == [x.text] + ([y.text] + [z.text]);
    JoinThree(x.text, y.text, z.text);
  }

  /** Three texts are joined with a space between each neighbouring pair. */
  lemma JoinThree(a: string, b: string, c: string)
    ensures Join([a] + ([b] + [c])) == a + Separator + b + Separator + c
  {
    JoinCons(b, [c]);
    JoinCons(a, [b] + [c]);
  }
}
