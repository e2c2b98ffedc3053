/** Left-to-right, non-overlapping search for a pattern in a text, as Python's
    `re.findall` and `re.finditer` perform it: try a match at the current
    position; on success report it and resume right after it, otherwise
    move one character on. The pattern itself is a matcher that looks at
    the text from a given position onwards. */
module Matching {
  import opened Base

  /** What a matcher reports at the start of the text it is given: the
      captured value and how many characters the whole match spans. */
  datatype Hit<T> = Hit(value: T, len: nat)

  /** One match found in a text: its span `[start, end)` and its captured value. */
  datatype Found<T> = Found(start: nat, end: nat, value: T)

  /** A hit that consumes at least one and at most `room` characters. */
  predicate Advances<T>(h: Option<Hit<T>>, room: nat) {
    h.Some? && 0 < h.value.len <= room
  }

  /** All matches of `m` in `s` from position `i` on, in text order. */
  function Scan<T>(m: string -> Option<Hit<T>>, s: string, i: nat): (r: seq<Found<T>>)
    decreases |s| - i
  {
    if i >= |s| then []
    else
      var h := m(s[i..]);
      if Advances(h, |s| - i) then [Found(i, i + h.value.len, h.value.value)] + Scan(m, s, i + h.value.len)
      else Scan(m, s, i + 1)
  }

  /** Every reported match is a real match of the pattern at its start,
      lies within the text from `i` on, and the matches do not overlap and
      come in text order. */
  lemma {:induction false} ScanSound<T>(m: string -> Option<Hit<T>>, s: string, i: nat)
    ensures forall k :: 0 <= k < |Scan(m, s, i)| ==> Reported(m, s, i, Scan(m, s, i)[k])
    ensures forall k, l :: 0 <= k < l < |Scan(m, s, i)| ==> Scan(m, s, i)[k].end <= Scan(m, s, i)[l].start
    decreases |s| - i
  {
    if i < |s| {
      var h := m(s[i..]);
      if Advances(h, |s| - i) {
        var next := i + h.value.len;
        ScanSound(m, s, next);
        var tail := Scan(m, s, next);
        var r := [Found(i, next, h.value.value)] + tail;
        assert Scan(m, s, i) == r;
        assert forall k :: 1 <= k < |r| ==> r[k] == tail[k - 1];
      } else {
        ScanSound(m, s, i + 1);
      }
    }
  }

  /** `f` is a match of `m` in `s` that starts at or after `i`. */
  ghost predicate Reported<T>(m: string -> Option<Hit<T>>, s: string, i: nat, f: Found<T>) {
    i <= f.start < f.end <= |s| && m(s[f.start..]) == Some(Hit(f.value, f.end - f.start))
  }

  /** The captured values of a list of matches, in the same order. */
  function Values<T>(r: seq<Found<T>>): (v: seq<T>)
    ensures |v| == |r| && forall k :: 0 <= k < |r| ==> v[k] == r[k].value
  {
    seq(|r|, k requires 0 <= k < |r| => r[k].value)
  }

  /** A property every hit of the matcher has is had by every reported value. */
  lemma ScanValuesHold<T>(m: string -> Option<Hit<T>>, s: string, i: nat, P: T -> bool)
    requires forall t :: m(t).Some? ==> P(m(t).value.value)
    ensures forall k :: 0 <= k < |Scan(m, s, i)| ==> P(Scan(m, s, i)[k].value)
  {
    var r := Scan(m, s, i);
    ScanSound(m, s, i);
    forall k | 0 <= k < |r| ensures P(r[k].value) {
      assert Reported(m, s, i, r[k]);
      assert m(s[r[k].start..]) == Some(Hit(r[k].value, r[k].end - r[k].start));
    }
  }

  /** Nothing is missed: every position from `i` on where the pattern
      matches lies inside one of the reported matches (at its start, or
      inside an earlier match that the scan had already consumed). */
  lemma {:induction false} ScanComplete<T>(m: string -> Option<Hit<T>>, s: string, i: nat, p: nat)
      returns (k: nat)
    requires i <= p < |s| && Advances(m(s[p..]), |s| - p)
    ensures k < |Scan(m, s, i)| && Scan(m, s, i)[k].start <= p < Scan(m, s, i)[k].end
    decreases |s| - i
  {
    var r := Scan(m, s, i);
    var h := m(s[i..]);
    if Advances(h, |s| - i) {
      var next := i + h.value.len;
      var tail := Scan(m, s, next);
      assert r == [Found(i, next, h.value.value)] + tail;
      if p < next {
        k := 0;
      } else {
        var j := ScanComplete(m, s, next, p);
        k := j + 1;
        assert r[k] == tail[j];
      }
    } else {
      assert r == Scan(m, s, i + 1);
      assert p != i;
      k := ScanComplete(m, s, i + 1, p);
    }
  }

  /** The scan finds nothing exactly when the pattern matches at no position. */
  lemma ScanEmpty<T>(m: string -> Option<Hit<T>>, s: string)
    ensures Scan(m, s, 0) == [] <==> forall p :: 0 <= p < |s| ==> !Advances(m(s[p..]), |s| - p)
  {
    var r := Scan(m, s, 0);
    if r != [] {
      ScanSound(m, s, 0);
      assert Reported(m, s, 0, r[0]);
      assert Advances(m(s[r[0].start..]), |s| - r[0].start);
    } else {
      forall p | 0 <= p < |s| ensures !Advances(m(s[p..]), |s| - p) {
        if Advances(m(s[p..]), |s| - p) {
          var k := ScanComplete(m, s, 0, p);
        }
      }
    }
  }

  /** Two matcher answers that agree on whether there is a match and on its
      length, and whose captured values are related by `rel`. */
  predicate SameHit<T>(h1: Option<Hit<T>>, h2: Option<Hit<T>>, rel: (T, T) -> bool) {
    (h1.None? && h2.None?)
    || (h1.Some? && h2.Some? && h1.value.len == h2.value.len && rel(h1.value.value, h2.value.value))
  }

  /** Two texts on which the matcher answers alike at every position are
      scanned alike: the same spans, with related captured values. */
  lemma {:induction false} ScanCorresponds<T>(m: string -> Option<Hit<T>>, s: string, t: string, i: nat, rel: (T, T) -> bool)
    requires |s| == |t|
    requires forall p :: i <= p < |s| ==> SameHit(m(s[p..]), m(t[p..]), rel)
    ensures |Scan(m, s, i)| == |Scan(m, t, i)|
    ensures forall k :: 0 <= k < |Scan(m, s, i)| ==>
      Scan(m, s, i)[k].start == Scan(m, t, i)[k].start && Scan(m, s, i)[k].end == Scan(m, t, i)[k].end
      && rel(Scan(m, s, i)[k].value, Scan(m, t, i)[k].value)
    decreases |s| - i
  {
    if i < |s| {
      var h1, h2 := m(s[i..]), m(t[i..]);
      assert SameHit(h1, h2, rel);
      if Advances(h1, |s| - i) {
        var next := i + h1.value.len;
        ScanCorresponds(m, s, t, next, rel);
        var a, b := Scan(m, s, next), Scan(m, t, next);
        assert Scan(m, s, i) == [Found(i, next, h1.value.value)] + a;
        assert Scan(m, t, i) == [Found(i, next, h2.value.value)] + b;
      } else {
        ScanCorresponds(m, s, t, i + 1, rel);
      }
    }
  }

  /** Scanning the tail of a text after a fixed head finds what scanning
      the tail alone finds. */
  lemma {:induction false} ScanShift<T>(m: string -> Option<Hit<T>>, x: string, y: string, j: nat)
    requires j <= |y|
    ensures Values(Scan(m, x + y, |x| + j)) == Values(Scan(m, y, j))
    decreases |y| - j
  {
    var s := x + y;
    if j < |y| {
      assert s[|x| + j..] == y[j..];
      var h := m(y[j..]);
      if Advances(h, |y| - j) {
        ScanShift(m, x, y, j + h.value.len);
        assert |x| + j + h.value.len == |x| + (j + h.value.len);
        var a := Scan(m, s, |x| + j);
        var b := Scan(m, y, j);
        assert Values(a) == [h.value.value] + Values(Scan(m, s, |x| + j + h.value.len));
        assert Values(b) == [h.value.value] + Values(Scan(m, y, j + h.value.len));
      } else {
        ScanShift(m, x, y, j + 1);
      }
    }
  }

  /** Positions from which the matcher never matches are skipped. */
  lemma {:induction false} ScanSkip<T>(m: string -> Option<Hit<T>>, x: string, sep: string, y: string, k: nat)
    requires k <= |sep|
    requires forall j, rest :: 0 <= j < |sep| ==> m(sep[j..] + rest) == None
    ensures Scan(m, x + (sep + y), |x| + k) == Scan(m, x + (sep + y), |x| + |sep|)
    decreases |sep| - k
  {
    var s := x + (sep + y);
    if k < |sep| {
      assert s[|x| + k..] == sep[k..] + y;
      ScanSkip(m, x, sep, y, k + 1);
    }
  }

  /** The text made of the renderings of `es`, separated by `sep`. */
  function RenderAll<T>(render: T -> string, sep: string, es: seq<T>): (r: string)
    decreases |es|
  {
    if es == [] then []
    else if |es| == 1 then render(es[0])
    else render(es[0]) + (sep + RenderAll(render, sep, es[1..]))
  }

  /** If the matcher recognises the rendering of each item in front of any
      text, capturing `value` of the item, and never matches inside the
      separator, scanning the rendering of a list gives back the values of
      the list, in order. */
  lemma {:induction false} ScanRenderAll<U, T>(m: string -> Option<Hit<T>>, render: U -> string, value: U -> T, sep: string, es: seq<U>)
    requires forall e, rest :: e in es ==> m(render(e) + rest) == Some(Hit(value(e), |render(e)|))
    requires forall e :: e in es ==> render(e) != []
    requires forall j, rest :: 0 <= j < |sep| ==> m(sep[j..] + rest) == None
    ensures Values(Scan(m, RenderAll(render, sep, es), 0)) == MapSeq(value, es)
    decreases |es|
  {
    if es != [] {
      var e := es[0];
      var x := render(e);
      var tail := if |es| == 1 then [] else sep + RenderAll(render, sep, es[1..]);
      assert m(x + tail) == Some(Hit(value(e), |x|));
      var tailValues := ScanAfterFirst(m, x, tail, value(e));
      if |es| == 1 {
        assert x + tail == x;
        assert tailValues == [];
      } else {
        var rest := RenderAll(render, sep, es[1..]);
        assert forall e :: e in es[1..] ==> e in es;
        ScanRenderAll(m, render, value, sep, es[1..]);
        ScanAfterSeparator(m, sep, x, rest);
      }
      assert MapSeq(value, es) == [value(e)] + MapSeq(value, es[1..]);
    }
  }

  /** `f` applied to every item, in order. */
  function MapSeq<U, T>(f: U -> T, es: seq<U>): (r: seq<T>)
    ensures |r| == |es| && forall k :: 0 <= k < |es| ==> r[k] == f(es[k])
  {
    seq(|es|, k requires 0 <= k < |es| => f(es[k]))
  }

  /** A match at the very start is reported first; the scan then resumes after it. */
  lemma ScanAfterFirst<T>(m: string -> Option<Hit<T>>, x: string, tail: string, e: T) returns (vs: seq<T>)
    requires x != [] && m(x + tail) == Some(Hit(e, |x|))
    ensures vs == Values(Scan(m, x + tail, |x|))
    ensures Values(Scan(m, x + tail, 0)) == [e] + vs
    ensures tail == [] ==> vs == []
  {
    var s := x + tail;
    assert s[0..] == s;
    assert Scan(m, s, 0) == [Found(0, |x|, e)] + Scan(m, s, |x|);
    vs := Values(Scan(m, s, |x|));
  }

  lemma ScanAfterSeparator<T>(m: string -> Option<Hit<T>>, sep: string, x: string, rest: string)
    requires forall j, rest :: 0 <= j < |sep| ==> m(sep[j..] + rest) == None
    ensures Values(Scan(m, x + (sep + rest), |x|)) == Values(Scan(m, rest, 0))
  {
    ScanSkip(m, x, sep, rest, 0);
    assert |x| + 0 == |x|;
    assert x + (sep + rest) == (x + sep) + rest;
    ScanShift(m, x + sep, rest, 0);
    assert |x + sep| + 0 == |x| + |sep|;
  }
}
