/**
 The Python `str` operations the scraper's target derivation relies on:
 `startswith`, `endswith`, `in`, `rfind`, `find`, `split` and `join` with a
 one-character separator, `rstrip` of one character, `lower`, and slicing
 with a clamped upper bound (`xs[:n]`).
 */
module Text {

  function Min(a: int, b: int): int {
    if a <= b then a else b
  }

  /** Python's `s.startswith(prefix)`. */
  predicate StartsWith(s: string, prefix: string) {
    |prefix| <= |s| && s[..|prefix|] == prefix
  }

  /** Python's `s.endswith(suffix)`. */
  predicate EndsWith(s: string, suffix: string) {
    |suffix| <= |s| && s[|s| - |suffix|..] == suffix
  }

  /** `sub` occurs in `s` starting at index `i`. */
  predicate OccursAt(s: string, sub: string, i: int) {
    0 <= i && i + |sub| <= |s| && s[i..i + |sub|] == sub
  }

  /** Python's `sub in s`, as a scan from the left. */
  predicate Contains(s: string, sub: string)
    decreases |s|
  {
    StartsWith(s, sub) || (s != [] && Contains(s[1..], sub))
  }

  /** The left-to-right scan finds `sub` exactly when it occurs somewhere in `s`. */
  lemma {:induction false} ContainsIffOccurs(s: string, sub: string)
    ensures Contains(s, sub) <==> exists i :: OccursAt(s, sub, i)
    decreases |s|
  {
    if StartsWith(s, sub) {
      assert OccursAt(s, sub, 0);
    } else if s == [] {
      forall i | OccursAt(s, sub, i) ensures false {
      }
    } else {
      ContainsIffOccurs(s[1..], sub);
      if i :| OccursAt(s[1..], sub, i) {
        assert s[1..][i..i + |sub|] == s[i + 1..i + 1 + |sub|];
        assert OccursAt(s, sub, i + 1);
      }
      forall i | OccursAt(s, sub, i) ensures OccursAt(s[1..], sub, i - 1) {
        assert i != 0;
        assert s[1..][i - 1..i - 1 + |sub|] == s[i..i + |sub|];
      }
    }
  }

  /** Python's `s.rfind(c)`: the index of the last `c`, or -1 when there is none. */
  function LastIndex(s: string, c: char): (k: int)
    ensures -1 <= k < |s|
    ensures k >= 0 ==> s[k] == c
    ensures forall j :: k < j < |s| ==> s[j] != c
    decreases |s|
  {
    if s == [] then -1
    else if s[|s| - 1] == c then |s| - 1
    else LastIndex(s[..|s| - 1], c)
  }

  /** Searching `a + b` from the right finds the last `c` of `b`, or failing that the last of `a`. */
  lemma {:induction false} LastIndexAppend(a: string, b: string, c: char)
    ensures LastIndex(a + b, c) == if LastIndex(b, c) >= 0 then |a| + LastIndex(b, c) else LastIndex(a, c)
    decreases |b|
  {
    if b == [] {
      assert a + b == a;
    } else if b[|b| - 1] != c {
      assert (a + b)[..|a + b| - 1] == a + b[..|b| - 1];
      LastIndexAppend(a, b[..|b| - 1], c);
    }
  }

  /** Python's `s.find(c, start)`, with |s| standing for "not found". */
  function Find(s: string, c: char, start: nat): (k: nat)
    requires start <= |s|
    ensures start <= k <= |s|
    ensures k < |s| ==> s[k] == c
    ensures forall i :: start <= i < k ==> s[i] != c
    decreases |s| - start
  {
    if start == |s| then |s|
    else if s[start] == c then start
    else Find(s, c, start + 1)
  }

  /** Python's slice `xs[:n]`, which stops at the end of `xs`. */
  function Take<T>(xs: seq<T>, n: nat): (r: seq<T>)
    ensures |r| == Min(n, |xs|)
    ensures r == xs[..|r|]
  {
    xs[..Min(n, |xs|)]
  }

  /** Python's `s.split(c)` with an explicit one-character separator. */
  function Split(s: string, c: char): (parts: seq<string>)
    ensures |parts| >= 1
    ensures forall i :: 0 <= i < |parts| ==> c !in parts[i]
    decreases |s|
  {
    if s == [] then [[]]
    else
      var rest := Split(s[1..], c);
      if s[0] == c then [[]] + rest
      else [[s[0]] + rest[0]] + rest[1..]
  }

  /** Python's `c.join(parts)` with a one-character separator. */
  function Join(parts: seq<string>, c: char): (s: string)
    ensures |parts| >= 1 ==> StartsWith(s, parts[0])
    decreases |parts|
  {
    if |parts| == 0 then []
    else if |parts| == 1 then parts[0]
    else parts[0] + [c] + Join(parts[1..], c)
  }

  /** Joining fields free of `c` puts exactly one `c` between each two of them. */
  lemma {:induction false} JoinOccurrences(parts: seq<string>, c: char)
    requires forall i :: 0 <= i < |parts| ==> c !in parts[i]
    ensures Occurrences(Join(parts, c), c) == if parts == [] then 0 else |parts| - 1
    decreases |parts|
  {
    if |parts| > 1 {
      JoinOccurrences(parts[1..], c);
      assert c !in multiset(parts[0]);
      assert multiset(Join(parts, c)) == multiset(parts[0]) + multiset([c]) + multiset(Join(parts[1..], c));
    } else if |parts| == 1 {
      assert c !in multiset(parts[0]);
    }
  }

  lemma JoinPrependToFirst(x: char, parts: seq<string>, c: char)
    requires |parts| >= 1
    ensures Join([[x] + parts[0]] + parts[1..], c) == [x] + Join(parts, c)
  {
    var q := [[x] + parts[0]] + parts[1..];
    if |parts| > 1 {
      assert q[1..] == parts[1..];
    }
  }

  /** Splitting and then joining with the same separator gives back the text. */
  lemma {:induction false} JoinSplit(s: string, c: char)
    ensures Join(Split(s, c), c) == s
    decreases |s|
  {
    if s != [] {
      var rest := Split(s[1..], c);
      JoinSplit(s[1..], c);
      if s[0] == c {
        assert ([[]] + rest)[1..] == rest;
      } else {
        JoinPrependToFirst(s[0], rest, c);
      }
    }
  }

  /** Number of occurrences of `c` in `s`. */
  function Occurrences(s: string, c: char): nat {
    multiset(s)[c]
  }

  /**
   `p` is `s` cut just before its `n`-th `c`, or all of `s` when `s` holds
   fewer than `n` of them.
   */
  predicate CutBefore(s: string, p: string, c: char, n: nat) {
    && StartsWith(s, p)
    && Occurrences(p, c) < n
    && (p == s || (s[|p|] == c && Occurrences(p, c) == n - 1))
  }

  /** At most one prefix is the cut of `s` before its `n`-th `c`. */
  lemma CutBeforeUnique(s: string, p: string, q: string, c: char, n: nat)
    requires CutBefore(s, p, c, n) && CutBefore(s, q, c, n)
    ensures p == q
  {
    if |p| < |q| {
      CutBeforeLonger(s, p, q, c, n);
    } else if |q| < |p| {
      CutBeforeLonger(s, q, p, c, n);
    } else {
      assert p == s[..|p|] == q;
    }
  }

  lemma CutBeforeLonger(s: string, p: string, q: string, c: char, n: nat)
    requires CutBefore(s, p, c, n) && StartsWith(s, q) && |p| < |q|
    ensures Occurrences(q, c) >= n
  {
    assert q == p + [s[|p|]] + q[|p| + 1..] by {
      assert q[..|p|] == p;
    }
    assert multiset(q) == multiset(p) + multiset([s[|p|]]) + multiset(q[|p| + 1..]);
  }

  /**
   `c.join(s.split(c)[:n])` keeps `s` up to, not including, its `n`-th `c`
   (all of `s` when it holds fewer).
   */
  lemma {:induction false} JoinTakeSplit(s: string, c: char, n: nat)
    requires n >= 1
    ensures CutBefore(s, Join(Take(Split(s, c), n), c), c, n)
    decreases |s|
  {
    if s == [] || (s[0] == c && n == 1) {
      JoinTakeSplitEmptyField(s, c, n);
    } else if s[0] == c {
      JoinTakeSplit(s[1..], c, n - 1);
      JoinTakeSplitStep(s, c, n, n - 1);
    } else {
      JoinTakeSplit(s[1..], c, n);
      JoinTakeSplitStep(s, c, n, n);
    }
  }

  /** An empty text, or one starting with the only `c` wanted, is cut to nothing. */
  lemma JoinTakeSplitEmptyField(s: string, c: char, n: nat)
    requires n >= 1 && (s == [] || (s[0] == c && n == 1))
    ensures CutBefore(s, Join(Take(Split(s, c), n), c), c, n)
  {
    assert Take(Split(s, c), n) == [[]];
  }

  /** The cut for `s` follows from the one for its tail, `m` being the count left for the tail. */
  lemma JoinTakeSplitStep(s: string, c: char, n: nat, m: nat)
    requires s != [] && n >= 1 && m == (if s[0] == c then n - 1 else n) && m >= 1
    requires CutBefore(s[1..], Join(Take(Split(s[1..], c), m), c), c, m)
    ensures CutBefore(s, Join(Take(Split(s, c), n), c), c, n)
  {
    if s[0] == c {
      JoinTakeSplitAtSeparator(s, c, n);
    } else {
      JoinTakeSplitAtOther(s, c, n);
    }
    CutBeforeTail(s, Join(Take(Split(s[1..], c), m), c), c, m);
  }

  /** The first field of `s.split(c)` is the cut of `s` before its first `c`. */
  lemma FirstFieldCut(s: string, c: char)
    ensures CutBefore(s, Split(s, c)[0], c, 1)
  {
    JoinTakeSplit(s, c, 1);
    var parts := Split(s, c);
    assert Take(parts, 1) == [parts[0]];
  }

  lemma JoinTakeSplitAtSeparator(s: string, c: char, n: nat)
    requires s != [] && s[0] == c && n >= 2
    ensures Join(Take(Split(s, c), n), c) == [c] + Join(Take(Split(s[1..], c), n - 1), c)
  {
    var rest := Split(s[1..], c);
    var t := Take(Split(s, c), n);
    assert t == [[]] + Take(rest, n - 1);
    assert t[1..] == Take(rest, n - 1);
  }

  lemma JoinTakeSplitAtOther(s: string, c: char, n: nat)
    requires s != [] && s[0] != c && n >= 1
    ensures Join(Take(Split(s, c), n), c) == [s[0]] + Join(Take(Split(s[1..], c), n), c)
  {
    var rest := Split(s[1..], c);
    var t := Take(Split(s, c), n);
    assert t == [[s[0]] + Take(rest, n)[0]] + Take(rest, n)[1..];
    JoinPrependToFirst(s[0], Take(rest, n), c);
  }

  /** A cut of the tail of `s`, with the first character of `s` put back, is a cut of `s`. */
  lemma CutBeforeTail(s: string, p: string, c: char, n: nat)
    requires s != [] && CutBefore(s[1..], p, c, n)
    ensures CutBefore(s, [s[0]] + p, c, if s[0] == c then n + 1 else n)
  {
    var x := s[0];
    assert s == [x] + s[1..];
    assert s[..|[x] + p|] == [x] + s[1..][..|p|];
    assert multiset([x] + p) == multiset([x]) + multiset(p);
    if p != s[1..] {
      assert s[|[x] + p|] == s[1..][|p|];
    }
  }

  /**
   Python's `s.rstrip(c)` for a single character `c`: drops every trailing
   `c`, not just one.
   */
  function RStrip(s: string, c: char): (r: string)
    ensures StartsWith(s, r)
    ensures r == [] || r[|r| - 1] != c
    ensures forall i :: |r| <= i < |s| ==> s[i] == c
    decreases |s|
  {
    if s != [] && s[|s| - 1] == c then RStrip(s[..|s| - 1], c) else s
  }

  /** ASCII case folding of one character. */
  function LowerChar(ch: char): char {
    if 'A' <= ch <= 'Z' then (ch as int + 32) as char else ch
  }

  /** Python's `s.lower()` restricted to ASCII letters. */
  function Lower(s: string): (r: string)
    ensures |r| == |s|
    ensures forall i :: 0 <= i < |s| ==> r[i] == LowerChar(s[i])
    decreases |s|
  {
    if s == [] then [] else [LowerChar(s[0])] + Lower(s[1..])
  }
}
