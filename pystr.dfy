/** The few Python `str` operations the text engine relies on, written out with
    Python's semantics: `startswith`, `replace`, `split`, `count` (all with a
    non-empty separator), plus `join` and list concatenation as their partners. */
module PyStr {

  predicate StartsWith(s: string, p: string) {
    |p| <= |s| && s[..|p|] == p
  }

  /** `p` occurs somewhere in `s`. */
  ghost predicate Occurs(s: string, p: string) {
    exists i | 0 <= i <= |s| :: StartsWith(s[i..], p)
  }

  /** Python's `s.replace(p, r)`: scanning left to right, every occurrence of
      `p` that does not overlap an earlier rewritten one becomes `r`. */
  function Replace(s: string, p: string, r: string): string
    requires p != []
    decreases |s|
  {
    if s == [] then []
    else if StartsWith(s, p) then r + Replace(s[|p|..], p, r)
    else [s[0]] + Replace(s[1..], p, r)
  }

  /** Python's `s.split(d)`: the pieces between the non-overlapping occurrences
      of `d`, found left to right. */
  function Split(s: string, d: string): (pieces: seq<string>)
    requires d != []
    ensures |pieces| >= 1
    decreases |s|
  {
    if s == [] then [[]]
    else if StartsWith(s, d) then [[]] + Split(s[|d|..], d)
    else
      var rest := Split(s[1..], d);
      [[s[0]] + rest[0]] + rest[1..]
  }

  /** Python's `d.join(pieces)` for a non-empty list. */
  function Join(pieces: seq<string>, d: string): string
    requires |pieces| >= 1
  {
    if |pieces| == 1 then pieces[0] else pieces[0] + d + Join(pieces[1..], d)
  }

  /** Python's `s.count(d)`: non-overlapping occurrences, left to right. */
  function Count(s: string, d: string): nat
    requires d != []
    decreases |s|
  {
    if s == [] then 0
    else if StartsWith(s, d) then 1 + Count(s[|d|..], d)
    else Count(s[1..], d)
  }

  /** `''.join(items)`. */
  function Concat(items: seq<string>): string {
    if items == [] then [] else items[0] + Concat(items[1..])
  }

  // ---------------------------------------------------------------- prefixes

  lemma StartsWithAppend(w: string, y: string, p: string)
    requires StartsWith(w, p)
    ensures StartsWith(w + y, p)
  {
    assert (w + y)[..|p|] == w[..|p|];
  }

  lemma StartsWithTrans(s: string, t: string, p: string)
    requires StartsWith(s, t) && StartsWith(t, p)
    ensures StartsWith(s, p)
  {
    assert s[..|p|] == t[..|p|];
  }

  lemma StartsWithTail(s: string, p: string)
    requires s != [] && |p| >= 1
    ensures StartsWith(s, p) <==> s[0] == p[0] && StartsWith(s[1..], p[1..])
  {
    if s[0] == p[0] && StartsWith(s[1..], p[1..]) {
      assert s[..|p|] == [s[0]] + s[1..][..|p| - 1];
      assert p == [p[0]] + p[1..];
    }
    if StartsWith(s, p) {
      assert s[1..][..|p| - 1] == s[..|p|][1..];
    }
  }

  /** One mismatching character rules a prefix out. */
  lemma MismatchAt(s: string, p: string, i: nat)
    requires i < |s| && i < |p| && s[i] != p[i]
    ensures !StartsWith(s, p)
  {
  }

  /** A shared front can be stripped from both sides of a prefix test. */
  lemma StartsWithCommon(w: string, y: string, z: string)
    ensures StartsWith(w + y, w + z) <==> StartsWith(y, z)
  {
    if StartsWith(y, z) {
      assert (w + y)[..|w + z|] == w + y[..|z|];
    }
    if StartsWith(w + y, w + z) {
      assert y[..|z|] == (w + y)[..|w + z|][|w|..];
    }
  }

  lemma OccursInSuffix(s: string, j: nat, p: string)
    requires j <= |s| && Occurs(s[j..], p)
    ensures Occurs(s, p)
  {
    var i :| 0 <= i <= |s[j..]| && StartsWith(s[j..][i..], p);
    assert s[j..][i..] == s[j + i..];
  }

  lemma OccursInPrefix(s: string, t: string, p: string)
    requires StartsWith(s, t) && Occurs(t, p)
    ensures Occurs(s, p)
  {
    var i :| 0 <= i <= |t| && StartsWith(t[i..], p);
    assert i + |p| <= |t| <= |s|;
    forall k | 0 <= k < |p|
      ensures s[i..][..|p|][k] == p[k]
    {
      assert s[i + k] == s[..|t|][i + k] == t[i + k] == t[i..][..|p|][k];
    }
    assert s[i..][..|p|] == p;
  }

  /** A text occurring in one item occurs in the items glued together. */
  lemma {:induction false} OccursInConcat(items: seq<string>, i: nat, p: string)
    requires i < |items|
    ensures Occurs(items[i], p) ==> Occurs(Concat(items), p)
  {
    var whole := Concat(items);
    assert whole == items[0] + Concat(items[1..]);
    if i == 0 {
      if Occurs(items[0], p) {
        StartsWithAppend(items[0], Concat(items[1..]), items[0]);
        OccursInPrefix(whole, items[0], p);
      }
    } else {
      OccursInConcat(items[1..], i - 1, p);
      if Occurs(items[i], p) {
        assert whole[|items[0]|..] == Concat(items[1..]);
        OccursInSuffix(whole, |items[0]|, p);
      }
    }
  }

  // ----------------------------------------------------------------- replace

  /** Without an occurrence of `p`, `replace` changes nothing. */
  lemma {:induction false} ReplaceAbsent(s: string, p: string, r: string)
    requires p != [] && !Occurs(s, p)
    ensures Replace(s, p, r) == s
  {
    if s != [] {
      assert s[0..] == s;
      if !Occurs(s[1..], p) {
        ReplaceAbsent(s[1..], p, r);
      } else {
        OccursInSuffix(s, 1, p);
      }
    }
  }

  /** Text free of the pattern's first character passes through `replace`
      unchanged and does not disturb what follows. */
  lemma {:induction false} ReplaceSkip(w: string, y: string, p: string, r: string)
    requires p != [] && p[0] !in w
    ensures Replace(w + y, p, r) == w + Replace(y, p, r)
  {
    if w != [] {
      var s := w + y;
      assert s[0] == w[0] && s[1..] == w[1..] + y;
      assert !StartsWith(s, p);
      ReplaceSkip(w[1..], y, p, r);
      calc {
        Replace(s, p, r);
        [s[0]] + Replace(s[1..], p, r);
        [w[0]] + (w[1..] + Replace(y, p, r));
        { assert w == [w[0]] + w[1..]; }
        w + Replace(y, p, r);
      }
    } else {
      assert w + y == y;
    }
  }

  /** A match at the front is rewritten and the scan resumes after it. */
  lemma ReplaceMatch(x: string, y: string, p: string, r: string)
    requires x == p + y && p != []
    ensures Replace(x, p, r) == r + Replace(y, p, r)
  {
    assert x[..|p|] == p && x[|p|..] == y;
  }

  /** Text free of the characters that start `p` and `r` is a prefix of
      `replace`'s result exactly when it is a prefix of the input. */
  lemma {:induction false} ReplaceStartsWith(s: string, w: string, p: string, r: string)
    requires p != [] && r != [] && p[0] !in w && r[0] !in w
    ensures StartsWith(Replace(s, p, r), w) <==> StartsWith(s, w)
    decreases |s|
  {
    if w == [] || s == [] {
    } else if StartsWith(s, p) {
      assert s[0] == p[0];
      StartsWithTail(s, w);
      StartsWithTail(Replace(s, p, r), w);
      assert Replace(s, p, r)[0] == r[0];
    } else {
      var t := Replace(s[1..], p, r);
      assert Replace(s, p, r) == [s[0]] + t;
      StartsWithTail(s, w);
      StartsWithTail([s[0]] + t, w);
      assert ([s[0]] + t)[1..] == t;
      ReplaceStartsWith(s[1..], w[1..], p, r);
    }
  }

  /** A one-character pattern whose replacement lacks it is gone afterwards. */
  lemma {:induction false} ReplaceRemovesChar(s: string, c: char, r: string)
    requires c !in r
    ensures c !in Replace(s, [c], r)
    decreases |s|
  {
    if s != [] {
      ReplaceRemovesChar(s[1..], c, r);
      if !StartsWith(s, [c]) {
        assert s[..1] == [s[0]];
      }
    }
  }

  /** `replace` introduces no character that neither the input nor the
      replacement holds. */
  lemma {:induction false} ReplaceKeepsAbsent(s: string, c: char, p: string, r: string)
    requires p != [] && c !in s && c !in r
    ensures c !in Replace(s, p, r)
    decreases |s|
  {
    if s != [] {
      if StartsWith(s, p) {
        ReplaceKeepsAbsent(s[|p|..], c, p, r);
      } else {
        ReplaceKeepsAbsent(s[1..], c, p, r);
      }
    }
  }

  /** A character that cannot be part of a match survives `replace`. */
  lemma ReplaceKeepsChar(s: string, c: char, p: string, r: string)
    requires p != [] && c in s && c !in p
    ensures c in Replace(s, p, r)
  {
    var i :| 0 <= i < |s| && s[i] == c;
    ReplaceKeepsCharAt(s, i, p, r);
  }

  lemma {:induction false} ReplaceKeepsCharAt(s: string, i: nat, p: string, r: string)
    requires p != [] && i < |s| && s[i] !in p
    ensures s[i] in Replace(s, p, r)
    decreases |s|
  {
    if StartsWith(s, p) {
      if i >= |p| {
        assert s[|p|..][i - |p|] == s[i];
        ReplaceKeepsCharAt(s[|p|..], i - |p|, p, r);
      }
    } else if i > 0 {
      assert s[1..][i - 1] == s[i];
      ReplaceKeepsCharAt(s[1..], i - 1, p, r);
    }
  }

  // ------------------------------------------------------------------- split

  /** `split` and `join` are inverse: the pieces glued back with the separator
      give the original string. */
  lemma {:induction false} SplitJoin(s: string, d: string)
    requires d != []
    ensures Join(Split(s, d), d) == s
    decreases |s|
  {
    if s == [] {
    } else if StartsWith(s, d) {
      var y := s[|d|..];
      SplitJoin(y, d);
      JoinLeading(Split(y, d), d);
      assert s == d + y;
    } else {
      SplitJoin(s[1..], d);
      JoinGrowFirst([s[0]], Split(s[1..], d), d);
      assert s == [s[0]] + s[1..];
    }
  }

  /** An empty first piece contributes only its separator. */
  lemma JoinLeading(rest: seq<string>, d: string)
    requires |rest| >= 1
    ensures Join([[]] + rest, d) == d + Join(rest, d)
  {
    var p := [[]] + rest;
    assert p[0] == [] && p[1..] == rest;
  }

  /** Growing the first piece grows the joined string at the front. */
  lemma JoinGrowFirst(c: string, rest: seq<string>, d: string)
    requires |rest| >= 1
    ensures Join([c + rest[0]] + rest[1..], d) == c + Join(rest, d)
  {
    var p := [c + rest[0]] + rest[1..];
    if |rest| > 1 {
      assert p[1..] == rest[1..];
      assert (c + rest[0]) + d + Join(rest[1..], d) == c + (rest[0] + d + Join(rest[1..], d));
    }
  }

  /** One more piece than there are (non-overlapping) separators. */
  lemma {:induction false} SplitCount(s: string, d: string)
    requires d != []
    ensures |Split(s, d)| == Count(s, d) + 1
    decreases |s|
  {
    if s == [] {
    } else if StartsWith(s, d) {
      SplitCount(s[|d|..], d);
    } else {
      SplitCount(s[1..], d);
    }
  }

  /** The first piece is a prefix of the string. */
  lemma {:induction false} SplitFirstIsPrefix(s: string, d: string)
    requires d != []
    ensures StartsWith(s, Split(s, d)[0])
    decreases |s|
  {
    if s != [] && !StartsWith(s, d) {
      SplitFirstIsPrefix(s[1..], d);
      var r0 := Split(s[1..], d)[0];
      assert s[..|r0| + 1] == [s[0]] + s[1..][..|r0|];
    }
  }

  /** Every piece is a substring: an occurrence inside a piece is one in `s`. */
  lemma {:induction false} SplitPieceOccurs(s: string, d: string, k: nat, p: string)
    requires d != [] && k < |Split(s, d)| && Occurs(Split(s, d)[k], p)
    ensures Occurs(s, p)
    decreases |s|
  {
    var pieces := Split(s, d);
    if s == [] {
    } else if StartsWith(s, d) {
      if k == 0 {
        assert pieces[0] == [];
        var i :| 0 <= i <= 0 && StartsWith(pieces[0][i..], p);
        assert StartsWith(s[|d|..], p);
        OccursInSuffix(s, |d|, p);
      } else {
        SplitPieceOccurs(s[|d|..], d, k - 1, p);
        OccursInSuffix(s, |d|, p);
      }
    } else {
      var rest := Split(s[1..], d);
      if k == 0 {
        SplitFirstIsPrefix(s[1..], d);
        assert s[..|rest[0]| + 1] == [s[0]] + rest[0];
        OccursInPrefix(s, pieces[0], p);
      } else {
        assert pieces[k] == rest[k];
        SplitPieceOccurs(s[1..], d, k, p);
        OccursInSuffix(s, 1, p);
      }
    }
  }

  /** No piece contains the separator. */
  lemma {:induction false} SplitPiecesFree(s: string, d: string, k: nat)
    requires d != [] && k < |Split(s, d)|
    ensures !Occurs(Split(s, d)[k], d)
    decreases |s|
  {
    var pieces := Split(s, d);
    if s == [] {
    } else if StartsWith(s, d) {
      if k > 0 {
        SplitPiecesFree(s[|d|..], d, k - 1);
      }
    } else {
      var rest := Split(s[1..], d);
      SplitPiecesFree(s[1..], d, 0);
      if k == 0 {
        forall i | 0 <= i <= |pieces[0]|
          ensures !StartsWith(pieces[0][i..], d)
        {
          if i == 0 {
            SplitFirstIsPrefix(s[1..], d);
            assert s[..|rest[0]| + 1] == pieces[0];
            if StartsWith(pieces[0], d) {
              StartsWithTrans(s, pieces[0], d);
            }
          } else {
            assert pieces[0][i..] == rest[0][i - 1..];
          }
        }
      } else {
        SplitPiecesFree(s[1..], d, k);
      }
    }
  }

  /** Text free of the separator's first character stays glued to the front of
      the first piece. */
  lemma {:induction false} SplitPrefixFree(w: string, y: string, d: string)
    requires d != [] && d[0] !in w
    ensures Split(w + y, d) == [w + Split(y, d)[0]] + Split(y, d)[1..]
  {
    if w != [] {
      var s := w + y;
      assert s[0] == w[0] && s[1..] == w[1..] + y;
      assert !StartsWith(s, d);
      SplitPrefixFree(w[1..], y, d);
      var rest := Split(s[1..], d);
      assert rest == [w[1..] + Split(y, d)[0]] + Split(y, d)[1..];
      assert [s[0]] + rest[0] == w + Split(y, d)[0];
      assert rest[1..] == Split(y, d)[1..];
    } else {
      var pieces := Split(y, d);
      assert w + y == y;
      assert w + pieces[0] == pieces[0];
      assert pieces == [pieces[0]] + pieces[1..];
    }
  }

  /** A front character that does not start the divider joins the first piece. */
  lemma SplitNoMatch(c: char, y: string, d: string)
    requires d != [] && !StartsWith([c] + y, d)
    ensures Split([c] + y, d) == [[c] + Split(y, d)[0]] + Split(y, d)[1..]
  {
    assert ([c] + y)[1..] == y;
  }

  /** A leading separator produces an empty first piece. */
  lemma SplitLeading(y: string, d: string)
    requires d != []
    ensures Split(d + y, d) == [[]] + Split(y, d)
  {
    var s := d + y;
    assert s[..|d|] == d && s[|d|..] == y;
  }

  // ------------------------------------------------------------------- count

  /** Text free of the first character of `p` holds no occurrence of it and
      does not disturb the count of what follows. */
  lemma {:induction false} CountSkip(w: string, z: string, p: string)
    requires p != [] && p[0] !in w
    ensures Count(w + z, p) == Count(z, p)
  {
    if w != [] {
      var s := w + z;
      assert s[0] == w[0] && s[1..] == w[1..] + z;
      assert !StartsWith(s, p);
      CountSkip(w[1..], z, p);
    } else {
      assert w + z == z;
    }
  }

  /** An occurrence at the front of `w + y` that reaches into `y` holds the
      first character of `y`. */
  lemma PrefixWithinFront(w: string, y: string, p: string)
    requires StartsWith(w + y, p) && (y == [] || y[0] !in p)
    ensures |p| <= |w|
  {
    if |p| > |w| {
      PrefixReaches(w, y, p);
      assert false;
    }
  }

  lemma PrefixReaches(w: string, y: string, p: string)
    requires StartsWith(w + y, p) && |p| > |w|
    ensures y != [] && y[0] == p[|w|]
  {
    assert (w + y)[|w|] == p[|w|];
  }

  /** When what follows cannot continue an occurrence, the counts add up. */
  lemma {:induction false} CountAppend(w: string, y: string, p: string)
    requires p != [] && (y == [] || y[0] !in p)
    ensures Count(w + y, p) == Count(w, p) + Count(y, p)
    decreases |w|
  {
    var s := w + y;
    if w == [] {
      assert s == y;
    } else if StartsWith(s, p) {
      PrefixWithinFront(w, y, p);
      assert w[..|p|] == s[..|p|];
      assert s[|p|..] == w[|p|..] + y;
      CountAppend(w[|p|..], y, p);
    } else {
      if StartsWith(w, p) {
        StartsWithAppend(w, y, p);
      }
      assert s[1..] == w[1..] + y;
      CountAppend(w[1..], y, p);
    }
  }

  // ------------------------------------------------------------------ concat

  lemma {:induction false} ConcatAppend(a: seq<string>, b: seq<string>)
    ensures Concat(a + b) == Concat(a) + Concat(b)
  {
    if a != [] {
      assert (a + b)[0] == a[0] && (a + b)[1..] == a[1..] + b;
      ConcatAppend(a[1..], b);
    } else {
      assert a + b == b;
    }
  }
}
