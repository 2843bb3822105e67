/**
 Why inserting markup around one tag cannot create or hide another.

 A tag such as `</body>` starts with '<' and has no other '<'. A match of it
 therefore cannot begin before a '<' and run across it. If every '<' in a
 fragment `t` starts something that differs from the tag, then no match
 begins inside `t` either. Such a fragment is "inert" for the tag:
 surrounding text keeps exactly the matches it had.
 */
module Markup {
  import opened Text

  /** `q` opens with '<' and contains no other '<'. */
  predicate SingleTag(q: string)
  {
    |q| > 0 && q[0] == '<' && forall j :: 1 <= j < |q| ==> q[j] != '<'
  }

  /** `w` and `q` differ within their common length, so `q` does not begin where `w` does. */
  predicate Clash(w: string, q: string)
  {
    exists j | 0 <= j < |w| && j < |q| :: w[j] != q[j]
  }

  /** The character of `t` at `k` does not start a match of `q` within `t`. */
  predicate NoTagAt(t: string, k: nat, q: string)
    requires k < |t|
  {
    t[k] == '<' ==> Clash(t[k..], q)
  }

  /** `t` starts with '<', and no '<' in `t` starts a match of `q`. */
  predicate Inert(t: string, q: string)
  {
    && |t| > 0
    && t[0] == '<'
    && forall k :: 0 <= k < |t| ==> NoTagAt(t, k, q)
  }

  /** A single tag that does not start like `q` is inert for `q`. */
  lemma InertSegment(t: string, q: string)
    requires |t| > 0 && t[0] == '<'
    requires forall k :: 1 <= k < |t| ==> t[k] != '<'
    requires Clash(t, q)
    ensures Inert(t, q)
  {
    assert t[0..] == t;
    forall k | 0 <= k < |t| ensures NoTagAt(t, k, q) {
    }
  }

  /** Inert fragments stay inert when placed side by side. */
  lemma InertConcat(a: string, b: string, q: string)
    requires Inert(a, q) && Inert(b, q)
    ensures Inert(a + b, q)
  {
    var t := a + b;
    forall k | 0 <= k < |t| ensures NoTagAt(t, k, q) {
      if k < |a| {
        assert NoTagAt(a, k, q);
        if t[k] == '<' {
          var j :| 0 <= j < |a[k..]| && j < |q| && a[k..][j] != q[j];
          assert t[k..][j] == a[k..][j];
        }
      } else {
        assert NoTagAt(b, k - |a|, q);
        assert t[k..] == b[k - |a|..];
      }
    }
  }

  /** No match of a tag `q` begins inside an inert fragment, whatever follows it. */
  lemma NoMatchInside(t: string, y: string, i: int, q: string)
    requires SingleTag(q)
    requires Inert(t, q)
    requires 0 <= i < |t|
    ensures !StartsAt(t + y, i, q)
  {
    var s := t + y;
    if t[i] != '<' {
      if i + |q| <= |s| {
        assert s[i..i + |q|][0] == t[i];
      }
    } else {
      assert NoTagAt(t, i, q);
      var j :| 0 <= j < |t[i..]| && j < |q| && t[i..][j] != q[j];
      if i + |q| <= |s| {
        assert s[i..i + |q|][j] == t[i..][j];
      }
    }
  }

  /** Placing an inert fragment between two texts neither creates nor destroys matches of `q`:
      the count is the sum of the counts on either side. */
  lemma InertIsolates(x: string, t: string, y: string, q: string)
    requires SingleTag(q)
    requires Inert(t, q)
    ensures Count(x + t + y, q) == Count(x, q) + Count(y, q)
  {
    // nothing straddles the front of t: it would have a second '<'
    forall i | 0 <= i < |x| < i + |q| ensures !StartsAt(x + (t + y), i, q) {
      if i + |q| <= |x + (t + y)| {
        assert (x + (t + y))[i..i + |q|][|x| - i] == t[0];
      }
    }
    // nothing begins inside t, so nothing straddles its end and t holds no match
    forall i | 0 <= i < |t| < i + |q| ensures !StartsAt(t + y, i, q) {
      NoMatchInside(t, y, i, q);
    }
    forall i | 0 <= i <= |t| - |q| ensures !StartsAt(t, i, q) {
      NoMatchInside(t, [], i, q);
      assert t + [] == t;
    }
    CountZeroIff(t, q);
    CountConcat(t, y, q);
    CountConcat(x, t + y, q);
    assert x + t + y == x + (t + y);
  }

  /** Joining the same pieces with two separators that are both inert for `q` gives texts
      with the same number of matches of `q`. */
  lemma {:induction false} JoinKeepsCount(parts: seq<string>, a: string, b: string, q: string)
    requires SingleTag(q)
    requires Inert(a, q) && Inert(b, q)
    ensures Count(Join(parts, a), q) == Count(Join(parts, b), q)
    decreases |parts|
  {
    if |parts| > 1 {
      JoinKeepsCount(parts[1..], a, b, q);
      InertIsolates(parts[0], a, Join(parts[1..], a), q);
      InertIsolates(parts[0], b, Join(parts[1..], b), q);
    }
  }
}
