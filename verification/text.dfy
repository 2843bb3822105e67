/**
 The string primitives the playback injector is built from, with Python's
 semantics: the substring test `q in s`, `s.count(q)`, `s.replace(q, rep)`,
 `s.split(q)` and `sep.join(parts)`. Strings are sequences of characters.

 Matching is leftmost and non-overlapping: the scan looks for `q` at the
 current position; on a match it consumes all of `q` and resumes right after
 it, otherwise it moves on by one character.
 */
module Text {

  /** `q` occurs in `s` starting at index `i`. */
  predicate StartsAt(s: string, i: int, q: string)
  {
    0 <= i && i + |q| <= |s| && s[i..i + |q|] == q
  }

  /** Python's substring test `q in s`. */
  predicate Contains(s: string, q: string)
  {
    exists i | 0 <= i <= |s| - |q| :: StartsAt(s, i, q)
  }

  /** Python's `s.count(q)`: the number of matches the left-to-right scan finds. */
  function Count(s: string, q: string): nat
    requires |q| > 0
    decreases |s|
  {
    if |s| < |q| then 0
    else if s[..|q|] == q then 1 + Count(s[|q|..], q)
    else Count(s[1..], q)
  }

  /** Python's `sep.join(parts)`. */
  function Join(parts: seq<string>, sep: string): string
  {
    if |parts| == 0 then ""
    else if |parts| == 1 then parts[0]
    else parts[0] + sep + Join(parts[1..], sep)
  }

  /** Python's `s.split(q)`: the text between consecutive matches, always at least one piece. */
  function Split(s: string, q: string): (parts: seq<string>)
    requires |q| > 0
    ensures |parts| == Count(s, q) + 1
    decreases |s|
  {
    if |s| < |q| then [s]
    else if s[..|q|] == q then [""] + Split(s[|q|..], q)
    else
      var rest := Split(s[1..], q);
      [[s[0]] + rest[0]] + rest[1..]
  }

  /** Python's `s.replace(q, rep)` for a non-empty `q`. */
  function ReplaceAll(s: string, q: string, rep: string): string
    requires |q| > 0
    decreases |s|
  {
    if |s| < |q| then s
    else if s[..|q|] == q then rep + ReplaceAll(s[|q|..], q, rep)
    else [s[0]] + ReplaceAll(s[1..], q, rep)
  }

  /** When `s` does not start with `q`, `q in s` holds exactly when `q` is in the rest
      of `s`: the scan just steps over the first character. */
  lemma ContainsStep(s: string, q: string)
    requires |s| >= |q|
    requires s[..|q|] != q
    ensures Contains(s, q) <==> Contains(s[1..], q)
  {
    if Contains(s, q) {
      var i :| 0 <= i <= |s| - |q| && StartsAt(s, i, q);
      assert i != 0;
      assert s[1..][i - 1..i - 1 + |q|] == s[i..i + |q|];
      assert StartsAt(s[1..], i - 1, q);
    }
    if Contains(s[1..], q) {
      var i :| 0 <= i <= |s[1..]| - |q| && StartsAt(s[1..], i, q);
      assert s[i + 1..i + 1 + |q|] == s[1..][i..i + |q|];
      assert StartsAt(s, i + 1, q);
    }
  }

  /** A match at the front of `s` is a match. */
  lemma ContainsFront(s: string, q: string)
    requires |s| >= |q|
    requires s[..|q|] == q
    ensures Contains(s, q)
  {
    assert StartsAt(s, 0, q);
  }

  /** `s.count(q)` is zero exactly when `q in s` is false. */
  lemma {:induction false} CountZeroIff(s: string, q: string)
    requires |q| > 0
    ensures Count(s, q) == 0 <==> !Contains(s, q)
    decreases |s|
  {
    if |s| < |q| {
    } else if s[..|q|] == q {
      ContainsFront(s, q);
    } else {
      ContainsStep(s, q);
      CountZeroIff(s[1..], q);
    }
  }

  /** A text without a match is left exactly as it is by `replace`. */
  lemma {:induction false} ReplaceWithoutMatch(s: string, q: string, rep: string)
    requires |q| > 0
    ensures !Contains(s, q) ==> ReplaceAll(s, q, rep) == s
    decreases |s|
  {
    if |s| < |q| {
    } else if s[..|q|] == q {
      ContainsFront(s, q);
    } else {
      ContainsStep(s, q);
      ReplaceWithoutMatch(s[1..], q, rep);
    }
  }

  /** The first piece of a join is a prefix of the joined text. */
  lemma JoinFirst(parts: seq<string>, sep: string)
    requires |parts| > 0
    ensures |parts[0]| <= |Join(parts, sep)|
    ensures Join(parts, sep)[..|parts[0]|] == parts[0]
  {
  }

  /** Growing the first piece of a join grows the joined text at its front. */
  lemma JoinExtendFirst(c: string, parts: seq<string>, sep: string)
    requires |parts| > 0
    ensures Join([c + parts[0]] + parts[1..], sep) == c + Join(parts, sep)
  {
    var ps := [c + parts[0]] + parts[1..];
    if |parts| > 1 {
      assert ps[1..] == parts[1..];
    }
  }

  /** Joining `[a] + rest` puts one separator between `a` and the rest. */
  lemma JoinCons(a: string, rest: seq<string>, sep: string)
    requires |rest| > 0
    ensures Join([a] + rest, sep) == a + sep + Join(rest, sep)
  {
    assert ([a] + rest)[1..] == rest;
  }

  /** Splitting on `q` and joining with `q` gives back the text. */
  lemma {:induction false} SplitJoin(s: string, q: string)
    requires |q| > 0
    ensures Join(Split(s, q), q) == s
    decreases |s|
  {
    if |s| < |q| {
      assert Split(s, q) == [s];
    } else if s[..|q|] == q {
      var rest := Split(s[|q|..], q);
      assert Split(s, q) == [""] + rest;
      SplitJoin(s[|q|..], q);
      JoinCons("", rest, q);
      assert s == q + s[|q|..];
    } else {
      var rest := Split(s[1..], q);
      assert Split(s, q) == [[s[0]] + rest[0]] + rest[1..];
      SplitJoin(s[1..], q);
      JoinExtendFirst([s[0]], rest, q);
      assert s == [s[0]] + s[1..];
    }
  }

  /** No piece of `s.split(q)` contains `q`: every match the scan finds is a separator. */
  lemma {:induction false} SplitPiecesFree(s: string, q: string)
    requires |q| > 0
    ensures forall k :: 0 <= k < |Split(s, q)| ==> !Contains(Split(s, q)[k], q)
    decreases |s|
  {
    var parts := Split(s, q);
    if |s| < |q| {
      assert parts == [s];
    } else if s[..|q|] == q {
      var rest := Split(s[|q|..], q);
      SplitPiecesFree(s[|q|..], q);
      assert parts == [""] + rest;
      assert !Contains("", q);
      forall k | 0 <= k < |parts| ensures !Contains(parts[k], q) {
        if k > 0 {
          assert parts[k] == rest[k - 1];
        }
      }
    } else {
      var rest := Split(s[1..], q);
      SplitPiecesFree(s[1..], q);
      SplitJoin(s[1..], q);
      JoinFirst(rest, q);
      var w := [s[0]] + rest[0];
      assert parts == [w] + rest[1..];
      // w is a prefix of s, so a match at its front would be one at the front of s
      assert w == s[..|w|];
      assert rest[0] == w[1..];
      if |w| >= |q| {
        assert w[..|q|] == s[..|q|];
        ContainsStep(w, q);
      }
      forall k | 0 <= k < |parts| ensures !Contains(parts[k], q) {
        if k > 0 {
          assert parts[k] == rest[k];
        }
      }
    }
  }

  /** For a non-empty `q`, `s.replace(q, rep)` equals `rep.join(s.split(q))`: the scan's
      replacement and the split-then-join construction agree on every input. */
  lemma {:induction false} ReplaceIsSplitJoin(s: string, q: string, rep: string)
    requires |q| > 0
    ensures ReplaceAll(s, q, rep) == Join(Split(s, q), rep)
    decreases |s|
  {
    if |s| < |q| {
    } else if s[..|q|] == q {
      ReplaceIsSplitJoin(s[|q|..], q, rep);
      JoinCons("", Split(s[|q|..], q), rep);
    } else {
      ReplaceIsSplitJoin(s[1..], q, rep);
      JoinExtendFirst([s[0]], Split(s[1..], q), rep);
    }
  }

  /** One more factor `d` in a product: `(n + 1) * d == n * d + d`. */
  lemma MulSucc(n: int, d: int)
    ensures (n + 1) * d == n * d + d
  {
  }

  /** Joining the same pieces with a different separator changes the length by the
      difference in separator length, once per gap between pieces. */
  lemma {:induction false} JoinLength(parts: seq<string>, a: string, b: string)
    requires |parts| > 0
    ensures |Join(parts, b)| == |Join(parts, a)| + (|parts| - 1) * (|b| - |a|)
    decreases |parts|
  {
    if |parts| > 1 {
      var rest := parts[1..];
      JoinLength(rest, a, b);
      assert |Join(parts, a)| == |parts[0]| + |a| + |Join(rest, a)|;
      assert |Join(parts, b)| == |parts[0]| + |b| + |Join(rest, b)|;
      MulSucc(|rest| - 1, |b| - |a|);
    }
  }

  /** Every match grows (or shrinks) the text by the difference between the replacement
      and the pattern; nothing else changes its length. */
  lemma {:induction false} ReplaceLength(s: string, q: string, rep: string)
    requires |q| > 0
    ensures |ReplaceAll(s, q, rep)| == |s| + Count(s, q) * (|rep| - |q|)
  {
    // the same pieces joined by `q` give `s` and joined by `rep` give the result
    SplitJoin(s, q);
    ReplaceIsSplitJoin(s, q, rep);
    JoinLength(Split(s, q), q, rep);
  }

  /** The replacement keeps the text up to and including the first match when the
      replacement starts with the pattern: the first `|q|` characters are unchanged. */
  lemma {:induction false} InsertAfterKeepsFront(s: string, q: string, x: string)
    requires |q| > 0
    requires |s| >= |q|
    ensures |ReplaceAll(s, q, q + x)| >= |q|
    ensures ReplaceAll(s, q, q + x)[..|q|] == s[..|q|]
    decreases |s|
  {
    if s[..|q|] != q {
      var t := s[1..];
      var r := ReplaceAll(t, q, q + x);
      if |t| >= |q| {
        InsertAfterKeepsFront(t, q, x);
        assert r[..|q| - 1] == t[..|q| - 1];
      }
      assert ([s[0]] + r)[..|q|] == [s[0]] + r[..|q| - 1];
      assert s[..|q|] == [s[0]] + t[..|q| - 1];
    }
  }

  /** Inserting `x` after every match of `q` can be undone: replacing each `q + x` by `q`
      gives back the original text. */
  lemma {:induction false} InsertAfterUndo(s: string, q: string, x: string)
    requires |q| > 0
    ensures ReplaceAll(ReplaceAll(s, q, q + x), q + x, q) == s
    decreases |s|
  {
    var qx := q + x;
    var out := ReplaceAll(s, q, qx);
    if |s| < |q| {
    } else if s[..|q|] == q {
      var tail := ReplaceAll(s[|q|..], q, qx);
      InsertAfterUndo(s[|q|..], q, x);
      assert out == qx + tail;
      assert out[..|qx|] == qx;
      assert out[|qx|..] == tail;
      assert s == q + s[|q|..];
    } else {
      var t := s[1..];
      var tail := ReplaceAll(t, q, qx);
      InsertAfterUndo(t, q, x);
      assert out == [s[0]] + tail;
      InsertAfterKeepsFront(s, q, x);
      if |out| < |qx| {
        // too short to hold `q + x`: then so is `tail`, which is therefore `t` itself
        assert ReplaceAll(tail, qx, q) == tail;
        assert s == [s[0]] + t;
      } else {
        assert out[..|q|] == s[..|q|];
        assert out[..|qx|][..|q|] == out[..|q|];
        assert out[..|qx|] != qx;
        assert out[1..] == tail;
        assert s == [s[0]] + t;
      }
    }
  }

  /** No match of `q` in `x + y` overlaps the boundary between `x` and `y`. */
  ghost predicate NoStraddle(x: string, y: string, q: string)
  {
    forall i :: 0 <= i < |x| < i + |q| ==> !StartsAt(x + y, i, q)
  }

  /** Dropping a prefix of `x` keeps the boundary with `y` free of straddling matches. */
  lemma NoStraddleDrop(x: string, y: string, q: string, n: nat)
    requires NoStraddle(x, y, q)
    requires n <= |x|
    ensures NoStraddle(x[n..], y, q)
  {
    var s := x + y;
    var x' := x[n..];
    forall i | 0 <= i < |x'| < i + |q| ensures !StartsAt(x' + y, i, q) {
      assert 0 <= i + n < |x| < i + n + |q|;
      assert !StartsAt(s, i + n, q);
      if i + |q| <= |x' + y| {
        assert x' + y == s[n..];
        assert (x' + y)[i..i + |q|] == s[i + n..i + n + |q|];
      }
    }
  }

  /** When no match straddles the boundary, counting distributes over concatenation. */
  lemma {:induction false} CountConcat(x: string, y: string, q: string)
    requires |q| > 0
    requires NoStraddle(x, y, q)
    ensures Count(x + y, q) == Count(x, q) + Count(y, q)
    decreases |x|
  {
    var s := x + y;
    if |x| == 0 {
      assert s == y;
    } else if |s| < |q| {
    } else if s[..|q|] == q {
      assert StartsAt(s, 0, q);
      assert |x| >= |q|;
      assert x[..|q|] == q;
      assert s[|q|..] == x[|q|..] + y;
      NoStraddleDrop(x, y, q, |q|);
      CountConcat(x[|q|..], y, q);
    } else {
      assert s[1..] == x[1..] + y;
      if |x| >= |q| {
        assert x[..|q|] == s[..|q|];
      }
      NoStraddleDrop(x, y, q, 1);
      CountConcat(x[1..], y, q);
    }
  }

  /** `r` is `s` with every match the scan finds replaced by `rep` and nothing else changed:
      the same pieces, free of `q`, joined by `q` give `s` and joined by `rep` give `r`. */
  ghost predicate Spliced(s: string, r: string, q: string, rep: string)
    requires |q| > 0
  {
    var parts := Split(s, q);
    && s == Join(parts, q)
    && r == Join(parts, rep)
    && forall k :: 0 <= k < |parts| ==> !Contains(parts[k], q)
  }

  /** `s.replace(q, rep)` splices `rep` in at exactly the matches of `q`. */
  lemma ReplaceSplices(s: string, q: string, rep: string)
    requires |q| > 0
    ensures Spliced(s, ReplaceAll(s, q, rep), q, rep)
  {
    SplitJoin(s, q);
    ReplaceIsSplitJoin(s, q, rep);
    SplitPiecesFree(s, q);
  }

  /** With exactly one match, the replacement changes the text at that one place only. */
  lemma SingleMatch(s: string, q: string, rep: string)
    requires |q| > 0
    requires Count(s, q) == 1
    ensures |Split(s, q)| == 2
    ensures s == Split(s, q)[0] + q + Split(s, q)[1]
    ensures ReplaceAll(s, q, rep) == Split(s, q)[0] + rep + Split(s, q)[1]
  {
    var parts := Split(s, q);
    SplitJoin(s, q);
    ReplaceIsSplitJoin(s, q, rep);
    JoinCons(parts[0], parts[1..], q);
    JoinCons(parts[0], parts[1..], rep);
    assert [parts[0]] + parts[1..] == parts;
  }
}
