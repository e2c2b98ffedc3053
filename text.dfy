/** The pieces of Python's `str` behaviour the pipeline relies on: whitespace
    (`str.isspace`, `str.strip`, the regex class `\s`), ASCII case folding,
    the built-in string order `<`, `str.join`, `str.split` with an explicit
    separator, and decimal digit strings (`int(...)`). */
module Text {
  import opened Base

  /** `str.isspace()` for one character; the regex class `\s` of a `str`
      pattern and `str.strip()` use the same set. */
  predicate IsSpace(c: char) {
    ('\t' <= c <= '\r') || ('\U{1C}' <= c <= ' ') || c == '\U{85}' || c == '\U{A0}'
    || c == '\U{1680}' || ('\U{2000}' <= c <= '\U{200A}') || c == '\U{2028}'
    || c == '\U{2029}' || c == '\U{202F}' || c == '\U{205F}' || c == '\U{3000}'
  }

  /** The regex class `\d`, restricted to ASCII digits. */
  predicate IsDigit(c: char) {
    '0' <= c <= '9'
  }

  /** ASCII lower-casing, as `re.IGNORECASE` and `str.lower()` act on ASCII letters. */
  function Lower(c: char): (r: char)
    ensures 'A' <= c <= 'Z' ==> 'a' <= r <= 'z' && r as int - c as int == 32
    ensures !('A' <= c <= 'Z') ==> r == c
  {
    if 'A' <= c <= 'Z' then (c as int + 32) as char else c
  }

  /** Python `s.lower()` for ASCII letters. */
  function LowerStr(s: string): (r: string)
    ensures |r| == |s|
  {
    if s == [] then [] else [Lower(s[0])] + LowerStr(s[1..])
  }

  /** `s.lower()` lowers each character in place. */
  lemma {:induction false} LowerStrAt(s: string, k: nat)
    requires k < |s|
    ensures LowerStr(s)[k] == Lower(s[k])
    decreases k
  {
    if k > 0 {
      LowerStrAt(s[1..], k - 1);
    }
  }

  /** The two characters are equal up to ASCII case. */
  predicate FoldEq(a: char, b: char) {
    Lower(a) == Lower(b)
  }

  /** The two strings are equal up to ASCII case, character by character. */
  predicate FoldEqStr(a: string, b: string) {
    LowerStr(a) == LowerStr(b)
  }

  /** `lit` is, up to ASCII case, a prefix of `s`. */
  predicate FoldPrefix(lit: string, s: string) {
    |lit| <= |s| && forall k :: 0 <= k < |lit| ==> FoldEq(s[k], lit[k])
  }

  /** `p` does not tell ASCII upper case from lower case. */
  predicate CaseBlind(p: char -> bool) {
    forall c :: p(c) == p(Lower(c))
  }

  /** A character in front of strings equal up to case. */
  lemma FoldEqCons(a: char, b: char, x: string, y: string)
    requires FoldEq(a, b) && FoldEqStr(x, y)
    ensures FoldEqStr([a] + x, [b] + y)
  {
    assert ([a] + x)[1..] == x && ([b] + y)[1..] == y;
  }

  /** Slices of strings equal up to case are equal up to case. */
  lemma FoldEqSlice(s: string, t: string, i: nat, j: nat)
    requires FoldEqStr(s, t) && i <= j <= |s|
    ensures FoldEqStr(s[i..j], t[i..j])
  {
    forall k | 0 <= k < j - i ensures LowerStr(s[i..j])[k] == LowerStr(t[i..j])[k] {
      LowerStrAt(s[i..j], k);
      LowerStrAt(t[i..j], k);
      LowerStrAt(s, i + k);
      LowerStrAt(t, i + k);
    }
  }

  lemma FoldEqSuffix(s: string, t: string, i: nat)
    requires FoldEqStr(s, t) && i <= |s|
    ensures FoldEqStr(s[i..], t[i..])
  {
    FoldEqSlice(s, t, i, |s|);
    assert s[i..|s|] == s[i..] && t[i..|t|] == t[i..];
  }

  lemma FoldEqPrefix(s: string, t: string, j: nat)
    requires FoldEqStr(s, t) && j <= |s|
    ensures FoldEqStr(s[..j], t[..j])
  {
    FoldEqSlice(s, t, 0, j);
    assert s[0..j] == s[..j] && t[0..j] == t[..j];
  }

  /** Two characters at the same place in strings equal up to case are equal up to case. */
  lemma FoldEqAt(s: string, t: string, k: nat)
    requires FoldEqStr(s, t) && k < |s|
    ensures FoldEq(s[k], t[k])
  {
    LowerStrAt(s, k);
    LowerStrAt(t, k);
  }

  /** A string of digits is equal up to case only to itself. */
  lemma FoldEqDigits(a: string, b: string)
    requires AllDigits(a) && FoldEqStr(a, b)
    ensures a == b
  {
    forall k | 0 <= k < |a| ensures a[k] == b[k] {
      FoldEqAt(a, b, k);
    }
  }

  /** `lit` holds no ASCII letter. */
  predicate NoLetters(lit: string) {
    forall k :: 0 <= k < |lit| ==> !('A' <= lit[k] <= 'Z') && !('a' <= lit[k] <= 'z')
  }

  /** Up to case, a literal without letters is matched only by itself. */
  lemma FoldPrefixNoLetters(lit: string, s: string)
    requires NoLetters(lit) && FoldPrefix(lit, s)
    ensures s[..|lit|] == lit
  {
    forall k | 0 <= k < |lit| ensures s[k] == lit[k] {
      assert FoldEq(s[k], lit[k]);
    }
  }

  /** `x` is what is left of `s` after some prefix. */
  predicate IsSuffix(x: string, s: string) {
    |x| <= |s| && x == s[|s| - |x|..]
  }

  /** The first `n` characters of a suffix, read in the whole string. */
  lemma SuffixSlice(x: string, s: string, n: nat)
    requires IsSuffix(x, s) && n <= |x|
    ensures s[|s| - |x|..|s| - |x| + n] == x[..n]
  {
  }

  lemma SuffixTrans(x: string, y: string, z: string)
    requires IsSuffix(x, y) && IsSuffix(y, z)
    ensures IsSuffix(x, z)
  {
    assert z[|z| - |y|..][|y| - |x|..] == z[|z| - |x|..];
  }

  /** Removing leading characters that satisfy `p` (the greedy `p*` of a regex). */
  function SkipWhile(s: string, p: char -> bool): (r: string)
    ensures |r| <= |s| && r == s[|s| - |r|..]
    ensures forall k :: 0 <= k < |s| - |r| ==> p(s[k])
    ensures r == [] || !p(r[0])
    decreases |s|
  {
    if s != [] && p(s[0]) then SkipWhile(s[1..], p) else s
  }

  /** The greedy skip stops exactly at the first character outside the class. */
  lemma SkipWhileConcat(x: string, y: string, p: char -> bool)
    requires forall k :: 0 <= k < |x| ==> p(x[k])
    requires y == [] || !p(y[0])
    ensures SkipWhile(x + y, p) == y
  {
    var s := x + y;
    var r := SkipWhile(s, p);
    var j := |s| - |r|;
    assert forall k :: 0 <= k < |x| ==> p(s[k]);
    assert |x| < |s| ==> !p(s[|x|]);
    assert j < |s| ==> r[0] == s[j];
    assert r == s[|x|..] == y;
  }

  /** A case-blind class is skipped alike in strings equal up to case. */
  lemma {:induction false} SkipWhileFold(s: string, t: string, p: char -> bool)
    requires FoldEqStr(s, t) && CaseBlind(p)
    ensures |SkipWhile(s, p)| == |SkipWhile(t, p)|
    decreases |s|
  {
    if s != [] {
      FoldEqAt(s, t, 0);
      assert p(s[0]) == p(Lower(s[0])) == p(Lower(t[0])) == p(t[0]);
      FoldEqSuffix(s, t, 1);
      SkipWhileFold(s[1..], t[1..], p);
    }
  }

  /** ... and splits both strings at the same place into parts equal up to case. */
  lemma SkipWhileFoldParts(s: string, t: string, p: char -> bool) returns (n: nat)
    requires FoldEqStr(s, t) && CaseBlind(p)
    ensures n <= |s| == |t| && SkipWhile(s, p) == s[n..] && SkipWhile(t, p) == t[n..]
    ensures FoldEqStr(s[..n], t[..n]) && FoldEqStr(s[n..], t[n..])
  {
    SkipWhileFold(s, t, p);
    n := |s| - |SkipWhile(s, p)|;
    FoldEqPrefix(s, t, n);
    FoldEqSuffix(s, t, n);
  }

  /** Removing trailing characters that satisfy `p`. */
  function TrimEnd(s: string, p: char -> bool): (r: string)
    ensures |r| <= |s| && r == s[..|r|]
    ensures forall k :: |r| <= k < |s| ==> p(s[k])
    ensures r == [] || !p(r[|r| - 1])
    decreases |s|
  {
    if s != [] && p(s[|s| - 1]) then TrimEnd(s[..|s| - 1], p) else s
  }

  /** Removing both the leading and the trailing characters that satisfy `p`. */
  function Trim(s: string, p: char -> bool): (r: string)
    ensures |r| <= |s|
    ensures r == [] || (!p(r[0]) && !p(r[|r| - 1]))
  {
    TrimEnd(SkipWhile(s, p), p)
  }

  /** The trimmed string is the slice `s[i..j]`, and everything before and
      after it satisfies `p`. */
  lemma TrimSlice(s: string, p: char -> bool) returns (i: nat, j: nat)
    ensures i <= j <= |s| && Trim(s, p) == s[i..j]
    ensures forall k :: 0 <= k < i ==> p(s[k])
    ensures forall k :: j <= k < |s| ==> p(s[k])
  {
    var t := SkipWhile(s, p);
    i := |s| - |t|;
    assert t == s[i..];
    j := TrimEndOfSuffix(s, i, p);
  }

  lemma TrimEndOfSuffix(s: string, i: nat, p: char -> bool) returns (j: nat)
    requires i <= |s|
    ensures i <= j <= |s| && TrimEnd(s[i..], p) == s[i..j]
    ensures forall k :: j <= k < |s| ==> p(s[k])
  {
    var t := s[i..];
    var r := TrimEnd(t, p);
    j := i + |r|;
    assert r == t[..|r|] == s[i..j];
    forall k | j <= k < |s|
      ensures p(s[k])
    {
      assert s[k] == t[k - i];
    }
  }

  /** A string trims to nothing exactly when every character satisfies `p`. */
  lemma TrimEmpty(s: string, p: char -> bool)
    ensures Trim(s, p) == [] <==> forall k :: 0 <= k < |s| ==> p(s[k])
  {
    var i, j := TrimSlice(s, p);
    if i < j {
      assert Trim(s, p)[0] == s[i];
    }
  }

  /** Python `s.strip()`. */
  function Strip(s: string): (r: string) {
    Trim(s, IsSpace)
  }

  // ---------------------------------------------------------------------
  // Python's built-in string order: lexicographic by code point, a proper
  // prefix being smaller.

  predicate StrLess(a: string, b: string)
    decreases |a|
  {
    if a == [] then b != []
    else if b == [] then false
    else if a[0] != b[0] then a[0] < b[0]
    else StrLess(a[1..], b[1..])
  }

  lemma {:induction false} StrLessIrreflexive(a: string)
    ensures !StrLess(a, a)
    decreases |a|
  {
    if a != [] {
      StrLessIrreflexive(a[1..]);
    }
  }

  lemma {:induction false} StrLessTransitive(a: string, b: string, c: string)
    requires StrLess(a, b) && StrLess(b, c)
    ensures StrLess(a, c)
    decreases |a|
  {
    if a != [] && a[0] == b[0] && b[0] == c[0] {
      StrLessTransitive(a[1..], b[1..], c[1..]);
    }
  }

  /** Two different strings are always ordered one way or the other. */
  lemma {:induction false} StrLessTotal(a: string, b: string)
    requires a != b
    ensures StrLess(a, b) || StrLess(b, a)
    decreases |a|
  {
    if a != [] && b != [] && a[0] == b[0] {
      assert a == [a[0]] + a[1..] && b == [b[0]] + b[1..];
      StrLessTotal(a[1..], b[1..]);
    }
  }

  lemma {:induction false} StrLessAsymmetric(a: string, b: string)
    requires StrLess(a, b)
    ensures !StrLess(b, a)
  {
    if StrLess(b, a) {
      StrLessTransitive(a, b, a);
      StrLessIrreflexive(a);
    }
  }

  /** The larger of two strings under Python's order. */
  function StrMax(a: string, b: string): (r: string)
    ensures r == a || r == b
    ensures !StrLess(r, a) && !StrLess(r, b)
  {
    StrLessIrreflexive(a);
    StrLessIrreflexive(b);
    if StrLess(a, b) then StrLessAsymmetric(a, b); b
    else if a == b then a
    else StrLessTotal(a, b); a
  }

  /** The maximum of `base` and every element of `vals`. */
  function MaxOf(base: string, vals: seq<string>): (r: string)
    ensures r == base || r in vals
    ensures !StrLess(r, base)
    ensures forall v :: v in vals ==> !StrLess(r, v)
    decreases |vals|
  {
    if vals == [] then (StrLessIrreflexive(base); base)
    else
      var m := MaxOf(base, vals[..|vals| - 1]);
      var r := StrMax(m, vals[|vals| - 1]);
      assert forall v :: v in vals ==> v in vals[..|vals| - 1] || v == vals[|vals| - 1];
      MaxUpperBound(r, m, base, vals[..|vals| - 1]);
      r
  }

  /** One more value raises the maximum to the larger of the two. */
  lemma MaxOfSnoc(base: string, vals: seq<string>, v: string)
    ensures MaxOf(base, vals + [v]) == StrMax(MaxOf(base, vals), v)
  {
    assert (vals + [v])[..|vals|] == vals;
  }

  lemma MaxUpperBound(r: string, m: string, base: string, vals: seq<string>)
    requires !StrLess(r, m) && !StrLess(m, base)
    requires forall v :: v in vals ==> !StrLess(m, v)
    ensures !StrLess(r, base) && forall v :: v in vals ==> !StrLess(r, v)
  {
    forall v | v in vals + [base] ensures !StrLess(r, v) {
      if StrLess(r, v) {
        if r == m {
        } else {
          StrLessTotal(r, m);
          StrLessTransitive(m, r, v);
        }
      }
    }
    assert base in vals + [base];
  }

  /** An upper bound that is also one of the candidates is the maximum:
      the maximum is determined by the set of candidates alone. */
  lemma MaxUnique(x: string, y: string, cands: set<string>)
    requires x in cands && y in cands
    requires forall v :: v in cands ==> !StrLess(x, v) && !StrLess(y, v)
    ensures x == y
  {
    if x != y {
      StrLessTotal(x, y);
    }
  }

  /** The empty string is below every other string. */
  lemma EmptyIsLeast(s: string)
    requires s != []
    ensures StrLess([], s)
  {
  }

  // ---------------------------------------------------------------------
  // str.join and str.split

  /** Python `sep.join(xs)`. */
  function Join(xs: seq<string>, sep: string): (r: string)
    decreases |xs|
  {
    if xs == [] then []
    else if |xs| == 1 then xs[0]
    else xs[0] + sep + Join(xs[1..], sep)
  }

  /** Joining with one more piece adds the separator and the piece at the end. */
  lemma {:induction false} JoinSnoc(xs: seq<string>, x: string, sep: string)
    requires xs != []
    ensures Join(xs + [x], sep) == Join(xs, sep) + sep + x
    decreases |xs|
  {
    if |xs| == 1 {
      assert xs + [x] == [xs[0], x];
    } else {
      assert (xs + [x])[1..] == xs[1..] + [x];
      JoinSnoc(xs[1..], x, sep);
    }
  }

  /** Python `s.split(sep)` for a non-empty separator: the pieces between
      the non-overlapping occurrences of `sep`, found left to right. */
  function Split(s: string, sep: string): (r: seq<string>)
    requires sep != []
    ensures |r| >= 1
    decreases |s|
  {
    if s == [] then [[]]
    else if sep <= s then [[]] + Split(s[|sep|..], sep)
    else
      var rest := Split(s[1..], sep);
      [[s[0]] + rest[0]] + rest[1..]
  }

  /** Joining the pieces back with the separator restores the string. */
  lemma {:induction false} JoinSplit(s: string, sep: string)
    requires sep != []
    ensures Join(Split(s, sep), sep) == s
    decreases |s|
  {
    if s == [] {
    } else if sep <= s {
      var rest := Split(s[|sep|..], sep);
      assert Split(s, sep) == [[]] + rest;
      JoinSplit(s[|sep|..], sep);
      JoinCons([], rest, sep);
      assert s == [] + sep + s[|sep|..];
    } else {
      var rest := Split(s[1..], sep);
      assert Split(s, sep) == [[s[0]] + rest[0]] + rest[1..];
      JoinSplit(s[1..], sep);
      JoinPrepend(s[0], rest, sep);
      assert s == [s[0]] + s[1..];
    }
  }

  lemma JoinCons(x: string, xs: seq<string>, sep: string)
    requires xs != []
    ensures Join([x] + xs, sep) == x + sep + Join(xs, sep)
  {
    assert ([x] + xs)[1..] == xs;
  }

  /** Prepending a character to the first piece prepends it to the join. */
  lemma JoinPrepend(c: char, xs: seq<string>, sep: string)
    requires xs != []
    ensures Join([[c] + xs[0]] + xs[1..], sep) == [c] + Join(xs, sep)
  {
    var ys := [[c] + xs[0]] + xs[1..];
    assert ys[0] == [c] + xs[0] && ys[1..] == xs[1..];
    if |xs| > 1 {
      assert Join(ys, sep) == ys[0] + sep + Join(xs[1..], sep);
      assert Join(xs, sep) == xs[0] + sep + Join(xs[1..], sep);
    }
  }

  /** Number of occurrences of `c` in `s` (Python `s.count(c)`). */
  function Count(s: string, c: char): (r: nat)
    decreases |s|
  {
    if s == [] then 0 else (if s[0] == c then 1 else 0) + Count(s[1..], c)
  }

  /** Splitting on one character gives one piece more than it has occurrences,
      and no piece contains it. */
  lemma {:induction false} SplitOnChar(s: string, c: char)
    ensures |Split(s, [c])| == Count(s, c) + 1
    ensures forall k :: 0 <= k < |Split(s, [c])| ==> c !in Split(s, [c])[k]
    decreases |s|
  {
    if s != [] {
      SplitOnChar(s[1..], c);
      if [c] <= s {
        assert s[0] == c;
      } else {
        var rest := Split(s[1..], [c]);
        assert s[0] != c;
        var r := [[s[0]] + rest[0]] + rest[1..];
        assert forall k :: 1 <= k < |r| ==> r[k] == rest[k];
      }
    }
  }

  /** A prefix free of the separator's first character stays in the first piece. */
  lemma {:induction false} SplitFreePrefix(x: string, tail: string, sep: string)
    requires sep != [] && sep[0] !in x
    ensures Split(x + tail, sep) == [x + Split(tail, sep)[0]] + Split(tail, sep)[1..]
    decreases |x|
  {
    var r := Split(tail, sep);
    if x == [] {
      assert x + tail == tail && x + r[0] == r[0];
      assert [x + r[0]] + r[1..] == r;
    } else {
      var s := x + tail;
      assert s[0] == x[0] && s[1..] == x[1..] + tail;
      assert !(sep <= s);
      SplitFreePrefix(x[1..], tail, sep);
      assert [s[0]] + (x[1..] + r[0]) == x + r[0];
    }
  }

  /** Splitting a join restores the pieces when no piece holds the
      separator's first character. */
  lemma {:induction false} SplitJoin(xs: seq<string>, sep: string)
    requires sep != [] && xs != []
    requires forall k :: 0 <= k < |xs| ==> sep[0] !in xs[k]
    ensures Split(Join(xs, sep), sep) == xs
    decreases |xs|
  {
    if |xs| == 1 {
      SplitFreePrefix(xs[0], [], sep);
      assert xs[0] + [] == xs[0];
    } else {
      var j := Join(xs[1..], sep);
      SplitJoin(xs[1..], sep);
      assert xs[0] + sep + j == xs[0] + (sep + j);
      SplitFreePrefix(xs[0], sep + j, sep);
      assert (sep + j)[|sep|..] == j;
      assert sep <= sep + j;
      assert Split(sep + j, sep) == [[]] + xs[1..];
      assert xs[0] + [] == xs[0];
      assert xs == [xs[0]] + xs[1..];
    }
  }

  // ---------------------------------------------------------------------
  // Decimal digit strings, as `int(...)` reads them.

  predicate AllDigits(ds: string) {
    forall k :: 0 <= k < |ds| ==> IsDigit(ds[k])
  }

  function DigitValue(c: char): (r: nat)
    requires IsDigit(c)
  {
    c as int - '0' as int
  }

  /** Python `int(ds)` for a string of ASCII digits. */
  function DecimalValue(ds: string): (r: nat)
    requires AllDigits(ds)
    decreases |ds|
  {
    if ds == [] then 0 else 10 * DecimalValue(ds[..|ds| - 1]) + DigitValue(ds[|ds| - 1])
  }
}
