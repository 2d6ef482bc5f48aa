/** Similarity of two strings by their common n-grams; rounding to float is left out. */
module StringSim {

  function Grams(s: string, n: nat): (g: seq<string>)
    requires n <= |s|
    ensures |g| == |s| - n + 1
  {
    seq(|s| - n + 1, i requires 0 <= i <= |s| - n => s[i..i + n])
  }

  predicate OccursAt(s: string, needle: string, i: nat) {
    i + |needle| <= |s| && s[i..i + |needle|] == needle
  }

  /** strstr finds the needle somewhere. */
  predicate Contains(s: string, needle: string) {
    exists i :: 0 <= i <= |s| && OccursAt(s, needle, i)
  }

  /** The n-grams two strings share, each counted as often as it occurs in both. */
  function Shared(a: string, b: string, n: nat): multiset<string>
    requires n <= |a| && n <= |b|
  {
    multiset(Grams(a, n)) * multiset(Grams(b, n))
  }

  function Share(count: nat, of: nat): real
    requires of > 0
  {
    count as real / of as real
  }

  function Bit(b: bool): nat {
    if b then 1 else 0
  }

  function Score(a: string, b: string, n: nat): real {
    if a == "" || b == "" then 0.0
    else if |a| < n && |a| <= |b| then Share(Bit(Contains(b, a)), |b| - |a| + 1)
    else if |b| < n && |b| <= |a| then Share(Bit(Contains(a, b)), |a| - |b| + 1)
    else Share(2 * |Shared(a, b, n)|, |a| + |b| - 2 * n + 2)
  }

  // ---------- what the score means ----------

  lemma SubsetCount<T>(a: multiset<T>, b: multiset<T>)
    requires a <= b
    ensures |a| <= |b| && (|a| == |b| <==> a == b)
  {
    assert b == a + (b - a);
    if |b - a| == 0 {
      assert b - a == multiset{};
    }
  }

  lemma SharedCount(a: string, b: string, n: nat)
    requires n <= |a| && n <= |b|
    ensures |Shared(a, b, n)| <= |a| - n + 1 && |Shared(a, b, n)| <= |b| - n + 1
    ensures 2 * |Shared(a, b, n)| == |a| + |b| - 2 * n + 2 <==> multiset(Grams(a, n)) == multiset(Grams(b, n))
  {
    var ga, gb, c := multiset(Grams(a, n)), multiset(Grams(b, n)), Shared(a, b, n);
    SubsetCount(c, ga);
    SubsetCount(c, gb);
    if ga == gb {
      assert c == ga;
    }
  }

  lemma ShareRange(count: nat, of: nat)
    requires count <= of && of > 0
    ensures 0.0 <= Share(count, of) <= 1.0
    ensures Share(count, of) == 1.0 <==> count == of
    ensures Share(count, of) == 0.0 <==> count == 0
  {
  }

  lemma ContainsItself(a: string, b: string)
    requires |a| == |b|
    ensures Contains(b, a) <==> a == b
  {
    if a == b {
      assert OccursAt(b, a, 0);
    }
    if Contains(b, a) {
      var i :| 0 <= i <= |b| && OccursAt(b, a, i);
      assert i == 0 && b[0..|b|] == b;
    }
  }

  /** The order of the two strings does not matter. */
  lemma ScoreIsSymmetric(a: string, b: string, n: nat)
    ensures Score(a, b, n) == Score(b, a, n)
  {
    if |a| == |b| {
      ContainsItself(a, b);
      ContainsItself(b, a);
    }
    if n <= |a| && n <= |b| {
      assert Shared(a, b, n) == Shared(b, a, n);
    }
  }

  /** What makes two non-empty strings fully similar, and what makes them not similar at all. */
  predicate Alike(a: string, b: string, n: nat) {
    if n <= |a| && n <= |b| then multiset(Grams(a, n)) == multiset(Grams(b, n)) else a == b
  }

  predicate Unlike(a: string, b: string, n: nat) {
    if n <= |a| && n <= |b| then Shared(a, b, n) == multiset{} else !Contains(a, b) && !Contains(b, a)
  }

  lemma NotContainedInShorter(s: string, needle: string)
    requires |s| < |needle|
    ensures !Contains(s, needle)
  {
  }

  /** The score is between 0 and 1; it is 1 for alike strings only, and 0 for unlike or empty strings only. */
  lemma ScoreRange(a: string, b: string, n: nat)
    ensures 0.0 <= Score(a, b, n) <= 1.0
    ensures Score(a, b, n) == 1.0 <==> a != "" && b != "" && Alike(a, b, n)
    ensures Score(a, b, n) == 0.0 <==> a == "" || b == "" || Unlike(a, b, n)
  {
    if a != "" && b != "" {
      if n <= |a| && n <= |b| {
        SharedCount(a, b, n);
        ShareRange(2 * |Shared(a, b, n)|, |a| + |b| - 2 * n + 2);
      } else if |a| <= |b| {
        ShortRange(a, b);
      } else {
        ShortRange(b, a);
      }
    }
  }

  lemma ShareTimes(x: real, count: nat, of: nat)
    requires of > 0 && x == Share(count, of)
    ensures x * of as real == count as real
  {
  }

  lemma LastBranch(a: string, b: string, n: nat)
    requires a != "" && b != "" && n <= |a| && n <= |b|
    ensures Score(a, b, n) == Share(2 * |Shared(a, b, n)|, |Grams(a, n)| + |Grams(b, n)|)
  {
    assert |Grams(a, n)| + |Grams(b, n)| == |a| + |b| - 2 * n + 2;
    hide Shared;
    hide Contains;
    hide Share;
  }

  /** With room for an n-gram in both strings, the score is twice the shared n-grams over all n-grams of both. */
  lemma ScoreIsShare(a: string, b: string, n: nat)
    requires a != "" && b != "" && n <= |a| && n <= |b|
    ensures Score(a, b, n) * (|Grams(a, n)| + |Grams(b, n)|) as real == (2 * |Shared(a, b, n)|) as real
  {
    hide *;
    LastBranch(a, b, n);
    ShareTimes(Score(a, b, n), 2 * |Shared(a, b, n)|, |Grams(a, n)| + |Grams(b, n)|);
  }

  /** Without it, the score is 0, or if the shorter string stands somewhere in the longer one, 1 over the number of places
      where it could stand. */
  lemma ScoreOfShort(a: string, b: string, n: nat)
    requires a != "" && |a| < n && |a| <= |b|
    ensures !Contains(b, a) ==> Score(a, b, n) == 0.0 && Score(b, a, n) == 0.0
    ensures Contains(b, a) ==> Score(a, b, n) * (|b| - |a| + 1) as real == 1.0 && Score(b, a, n) == Score(a, b, n)
  {
    ScoreIsSymmetric(a, b, n);
    ShareTimes(Score(a, b, n), Bit(Contains(b, a)), |b| - |a| + 1);
  }

  function PositionsOf<T(==)>(q: seq<T>, x: T): set<nat> {
    set i: nat | i < |q| && q[i] == x
  }

  lemma {:induction false} CountPositions<T>(q: seq<T>, x: T)
    ensures multiset(q)[x] == |PositionsOf(q, x)|
  {
    if q == [] {
      assert PositionsOf(q, x) == {};
    } else {
      var n: nat := |q| - 1;
      var front := q[..n];
      CountPositions(front, x);
      assert q == front + [q[n]];
      assert PositionsOf(q, x) == if q[n] == x then PositionsOf(front, x) + {n} else PositionsOf(front, x);
    }
  }

  /** Where a needle occurs in a string. */
  function Places(s: string, needle: string): set<nat> {
    set i: nat | i <= |s| && OccursAt(s, needle, i)
  }

  /** An n-gram counts as often as it occurs in the string. */
  lemma GramCount(s: string, n: nat, g: string)
    requires n <= |s| && |g| == n
    ensures multiset(Grams(s, n))[g] == |Places(s, g)|
  {
    CountPositions(Grams(s, n), g);
    assert PositionsOf(Grams(s, n), g) == Places(s, g);
  }

  /** Two strings share an n-gram as often as it occurs in the one where it is rarer. */
  lemma SharedGram(a: string, b: string, n: nat, g: string)
    requires n <= |a| && n <= |b| && |g| == n
    ensures Shared(a, b, n)[g] == if |Places(a, g)| <= |Places(b, g)| then |Places(a, g)| else |Places(b, g)|
  {
    GramCount(a, n, g);
    GramCount(b, n, g);
    hide Places;
    hide Grams;
  }

  lemma ShortRange(a: string, b: string)
    requires |a| <= |b|
    ensures 0.0 <= Share(Bit(Contains(b, a)), |b| - |a| + 1) <= 1.0
    ensures Share(Bit(Contains(b, a)), |b| - |a| + 1) == 1.0 <==> a == b
    ensures Share(Bit(Contains(b, a)), |b| - |a| + 1) == 0.0 <==> !Contains(a, b) && !Contains(b, a)
  {
    ShareRange(Bit(Contains(b, a)), |b| - |a| + 1);
    if |a| == |b| {
      ContainsItself(a, b);
      ContainsItself(b, a);
    } else {
      NotContainedInShorter(a, b);
    }
  }

  // ---------- the code ----------

  method Strstr(s: string, needle: string) returns (found: bool)
    ensures found == Contains(s, needle)
  {
    for i := 0 to |s| + 1
      invariant forall k :: 0 <= k < i ==> !OccursAt(s, needle, k)
    {
      if OccursAt(s, needle, i) {
        return true;
      }
    }
    return false;
  }

  /** The count map holds the multiset m. */
  ghost predicate Counts(counts: map<string, int>, m: multiset<string>) {
    && (forall g :: g in counts ==> counts[g] == m[g] && m[g] > 0)
    && (forall g :: g in m ==> g in counts)
  }

  /** Taking the next n-gram of a from what is left of b's. */
  lemma NextGram(taken: multiset<string>, b: multiset<string>, g: string)
    ensures g in b - taken * b <==> taken[g] < b[g]
    ensures taken[g] < b[g] ==>
      (taken + multiset{g}) * b == taken * b + multiset{g} && b - (taken + multiset{g}) * b == (b - taken * b) - multiset{g}
    ensures taken[g] >= b[g] ==> (taken + multiset{g}) * b == taken * b
  {
  }

  lemma PrefixBag(g: seq<string>, i: nat)
    requires i < |g|
    ensures multiset(g[..i + 1]) == multiset(g[..i]) + multiset{g[i]}
  {
    assert g[..i + 1] == g[..i] + [g[i]];
  }

  method CountGrams(s: string, n: nat) returns (counts: map<string, int>)
    requires n <= |s|
    ensures Counts(counts, multiset(Grams(s, n)))
  {
    counts := map[];
    var g := Grams(s, n);
    hide Grams;
    for i := 0 to |g|
      invariant Counts(counts, multiset(g[..i]))
    {
      var gram := g[i];
      PrefixBag(g, i);
      counts := counts[gram := (if gram in counts then counts[gram] else 0) + 1];
    }
    assert g[..|g|] == g;
  }

  /** One n-gram is counted down, and leaves the map when its count reaches zero. */
  method CountDown(counts: map<string, int>, gram: string, ghost m: multiset<string>) returns (r: map<string, int>)
    requires Counts(counts, m) && gram in counts
    ensures Counts(r, m - multiset{gram})
  {
    r := counts[gram := counts[gram] - 1];
    if r[gram] == 0 {
      r := r - {gram};
    }
  }

  /** The body of the second loop: a counted n-gram is shared, and is counted down. */
  method MatchGram(counts: map<string, int>, gram: string, common: nat, ghost taken: multiset<string>, ghost gb: multiset<string>)
    returns (counts': map<string, int>, common': nat)
    requires Counts(counts, gb - taken * gb) && common == |taken * gb|
    ensures Counts(counts', gb - (taken + multiset{gram}) * gb) && common' == |(taken + multiset{gram}) * gb|
  {
    NextGram(taken, gb, gram);
    counts', common' := counts, common;
    if gram in counts {
      common' := common + 1;
      counts' := CountDown(counts, gram, gb - taken * gb);
    }
  }

  method CountShared(a: string, b: string, n: nat) returns (common: nat)
    requires n <= |a| && n <= |b|
    ensures common == |Shared(a, b, n)|
  {
    hide Grams;
    hide Counts;
    var counts := CountGrams(b, n);
    var g := Grams(a, n);
    ghost var gb, taken := multiset(Grams(b, n)), multiset{};
    common := 0;
    assert gb - taken * gb == gb && |taken * gb| == 0;
    assert g[..0] == [];
    for i := 0 to |g|
      invariant taken == multiset(g[..i]) && common == |taken * gb|
      invariant Counts(counts, gb - taken * gb)
    {
      PrefixBag(g, i);
      counts, common := MatchGram(counts, g[i], common, taken, gb);
      taken := taken + multiset{g[i]};
    }
    assert g[..|g|] == g;
  }

  method CalStringSim(a: string, b: string, n: nat) returns (score: real)
    ensures score == Score(a, b, n)
  {
    if a == "" || b == "" {
      return 0.0;
    }
    if |a| < n && |a| <= |b| {
      var found := Strstr(b, a);
      return Share(Bit(found), |b| - |a| + 1);
    }
    if |b| < n && |b| <= |a| {
      var found := Strstr(a, b);
      return Share(Bit(found), |a| - |b| + 1);
    }
    // Only strings of at least n characters get here.
    assert n <= |a| && n <= |b|;
    var common := CountShared(a, b, n);
    return Share(2 * common, |a| + |b| - 2 * n + 2);
  }
}
