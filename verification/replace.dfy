/** repl_str of misc.c: replace every non-overlapping occurrence of `from`, scanning
    left to right, in two passes. The first pass records match offsets in a position
    cache that grows by an increment tripled on each growth and capped; the second
    sizes the result exactly and builds it by copying. */
module StrReplace {
  import opened Wrappers

  /** Initial growth increment of the position cache. */
  const CacheSzIncInit: nat := 16
  /** Factor the increment is multiplied by after each growth. */
  const CacheSzIncFactor: nat := 3
  /** The increment never exceeds this. */
  const CacheSzIncMax: nat := 1048576
  /** size_t arithmetic is modulo this. */
  const SizeMod: int := 0x1_0000_0000_0000_0000

  /** `pat` occurs in `s` at offset `i`. */
  predicate MatchAt(s: string, pat: string, i: nat)
  {
    i + |pat| <= |s| && s[i..i + |pat|] == pat
  }

  /** strstr(s + start, pat), as an offset into `s`: the first occurrence at or after
      `start`, or None. */
  function StrStr(s: string, pat: string, start: nat): (r: Option<nat>)
    requires start <= |s|
    ensures r.Some? ==> start <= r.value && r.value + |pat| <= |s|
    decreases |s| - start
  {
    if MatchAt(s, pat, start) then Some(start)
    else if start == |s| then None
    else StrStr(s, pat, start + 1)
  }

  /** strstr finds the first occurrence: what it returns is one, and nothing before
      it (nothing at all, when it returns NULL) is. */
  lemma {:induction false} StrStrFirst(s: string, pat: string, start: nat)
    requires start <= |s|
    ensures StrStr(s, pat, start).Some? ==> MatchAt(s, pat, StrStr(s, pat, start).value)
    ensures forall j: nat :: start <= j && (StrStr(s, pat, start).None? || j < StrStr(s, pat, start).value)
              ==> !MatchAt(s, pat, j)
    decreases |s| - start
  {
    if !MatchAt(s, pat, start) && start < |s| {
      StrStrFirst(s, pat, start + 1);
    }
  }

  /** An empty pattern occurs wherever the search starts, so a scan that resumes
      |from| = 0 characters after each match stays where it is. */
  lemma {:induction false} EmptyPatternStalls(s: string, start: nat)
    requires start <= |s|
    ensures StrStr(s, [], start) == Some(start)
  {
    assert s[start..start + 0] == [];
  }

  // ---------------------------------------------------------------------------
  // The reference definition

  /** Left-to-right replacement: if `from` begins `s`, emit `to` and continue after
      the match; otherwise keep the first character and continue after it. */
  function ReplaceAll(s: string, from: string, to: string): string
    requires |from| > 0
    decreases |s|
  {
    if |from| <= |s| && s[..|from|] == from then to + ReplaceAll(s[|from|..], from, to)
    else if s == [] then []
    else [s[0]] + ReplaceAll(s[1..], from, to)
  }

  // ---------------------------------------------------------------------------
  // The positions the scan pass records

  /** Offset `j` lies inside one of the matches of width `w` recorded at `ps`. */
  predicate Covered(ps: seq<nat>, w: nat, j: nat)
    decreases |ps|
  {
    |ps| > 0 && ((ps[0] <= j < ps[0] + w) || Covered(ps[1..], w, j))
  }

  /** No occurrence at or after `start` is missed: each lies inside a recorded match,
      as its start or overlapping one that begins earlier. */
  predicate Greedy(s: string, pat: string, ps: seq<nat>, start: nat)
  {
    forall j: nat :: start <= j <= |s| && MatchAt(s, pat, j) ==> Covered(ps, |pat|, j)
  }

  /** The offsets repl_str's scan pass caches, from `start` on. */
  function Matches(s: string, pat: string, start: nat): (ps: seq<nat>)
    requires |pat| > 0 && start <= |s|
    decreases |s| - start
  {
    match StrStr(s, pat, start)
    case None => []
    case Some(q) => [q] + Matches(s, pat, q + |pat|)
  }

  /** Every recorded position is an occurrence of `pat` at or after `start`, the
      positions strictly increase, and consecutive ones are at least |pat| apart, so
      the recorded matches never overlap. */
  lemma {:induction false} MatchesSound(s: string, pat: string, start: nat)
    requires |pat| > 0 && start <= |s|
    ensures forall i :: 0 <= i < |Matches(s, pat, start)| ==>
              start <= Matches(s, pat, start)[i] && MatchAt(s, pat, Matches(s, pat, start)[i])
    ensures forall i, j :: 0 <= i < j < |Matches(s, pat, start)| ==>
              Matches(s, pat, start)[i] + |pat| <= Matches(s, pat, start)[j]
    decreases |s| - start
  {
    var ps := Matches(s, pat, start);
    match StrStr(s, pat, start)
    case None =>
    case Some(q) =>
      StrStrFirst(s, pat, start);
      var rest := Matches(s, pat, q + |pat|);
      MatchesSound(s, pat, q + |pat|);
      assert ps == [q] + rest;
      assert forall i :: 0 < i < |ps| ==> ps[i] == rest[i - 1];
  }

  /** The recorded matches miss no occurrence except those overlapping a recorded
      match that begins earlier: the scan is leftmost and greedy. */
  lemma {:induction false} MatchesGreedy(s: string, pat: string, start: nat)
    requires |pat| > 0 && start <= |s|
    ensures Greedy(s, pat, Matches(s, pat, start), start)
    decreases |s| - start
  {
    StrStrFirst(s, pat, start);
    match StrStr(s, pat, start)
    case None =>
    case Some(q) =>
      var rest := Matches(s, pat, q + |pat|);
      var ps := Matches(s, pat, start);
      assert ps == [q] + rest;
      MatchesGreedy(s, pat, q + |pat|);
      assert ps[1..] == rest;
  }

  // ---------------------------------------------------------------------------
  // The reference replacement, one occurrence at a time

  /** The reference replacement of s[k..], stated by offsets into `s`. */
  function ReplaceFrom(s: string, from: string, to: string, k: nat): string
    requires |from| > 0 && k <= |s|
    decreases |s| - k
  {
    if MatchAt(s, from, k) then to + ReplaceFrom(s, from, to, k + |from|)
    else if k == |s| then []
    else [s[k]] + ReplaceFrom(s, from, to, k + 1)
  }

  /** Replacing by offsets is replacing the suffix. */
  lemma {:induction false} ReplaceFromIsReplaceAll(s: string, from: string, to: string, k: nat)
    requires |from| > 0 && k <= |s|
    ensures ReplaceFrom(s, from, to, k) == ReplaceAll(s[k..], from, to)
    decreases |s| - k
  {
    var t := s[k..];
    if |from| <= |t| {
      assert t[..|from|] == s[k..k + |from|];
    }
    if MatchAt(s, from, k) {
      assert t[|from|..] == s[k + |from|..];
      ReplaceFromIsReplaceAll(s, from, to, k + |from|);
    } else if k < |s| {
      assert t[1..] == s[k + 1..];
      ReplaceFromIsReplaceAll(s, from, to, k + 1);
    }
  }

  /** Without an occurrence in s[start..q], replacement copies that stretch as is. */
  lemma {:induction false} ReplaceSkip(s: string, from: string, to: string, start: nat, q: nat)
    requires |from| > 0 && start <= q <= |s|
    requires forall j: nat :: start <= j < q ==> !MatchAt(s, from, j)
    ensures ReplaceFrom(s, from, to, start) == s[start..q] + ReplaceFrom(s, from, to, q)
    decreases q - start
  {
    if start < q {
      ReplaceSkip(s, from, to, start + 1, q);
      SkipOne(s, from, to, start, q);
    }
  }

  /** One character that starts no occurrence is copied. */
  lemma {:induction false} SkipOne(s: string, from: string, to: string, start: nat, q: nat)
    requires |from| > 0 && start < q <= |s| && !MatchAt(s, from, start)
    requires ReplaceFrom(s, from, to, start + 1) == s[start + 1..q] + ReplaceFrom(s, from, to, q)
    ensures ReplaceFrom(s, from, to, start) == s[start..q] + ReplaceFrom(s, from, to, q)
  {
    var rest := ReplaceFrom(s, from, to, q);
    assert ReplaceFrom(s, from, to, start) == [s[start]] + ReplaceFrom(s, from, to, start + 1);
    assert s[start..q] == [s[start]] + s[start + 1..q];
    assert [s[start]] + (s[start + 1..q] + rest) == [s[start]] + s[start + 1..q] + rest;
  }

  /** The reference replacement from `start`, up to and through the first occurrence
      strstr finds there. */
  lemma {:induction false} ReplaceThroughMatch(s: string, from: string, to: string, start: nat, q: nat)
    requires |from| > 0 && start <= |s| && StrStr(s, from, start).Some? && StrStr(s, from, start).value == q
    ensures q + |from| <= |s|
    ensures ReplaceFrom(s, from, to, start) == s[start..q] + to + ReplaceFrom(s, from, to, q + |from|)
  {
    StrStrFirst(s, from, start);
    ReplaceSkip(s, from, to, start, q);
  }

  /** When strstr finds nothing from `start` on, replacement copies the rest. */
  lemma {:induction false} ReplaceNoMatch(s: string, from: string, to: string, start: nat)
    requires |from| > 0 && start <= |s| && StrStr(s, from, start).None?
    ensures ReplaceFrom(s, from, to, start) == s[start..]
  {
    StrStrFirst(s, from, start);
    ReplaceSkip(s, from, to, start, |s|);
    assert s[start..|s|] == s[start..];
  }

  /** The scan finds `q` first, so the cached positions from `start` are `q` followed
      by those found after that match. */
  lemma {:induction false} MatchesUnfold(s: string, from: string, start: nat, q: nat)
    requires |from| > 0 && start <= |s| && StrStr(s, from, start).Some? && StrStr(s, from, start).value == q
    ensures Matches(s, from, start) == [q] + Matches(s, from, q + |from|)
  {
  }

  /** Resuming after the `i`-th of the cached matches `ps`, strstr finds the next one,
      or, after the last, nothing. */
  predicate FindsNext(s: string, pat: string, ps: seq<nat>, i: nat)
    requires i < |ps|
  {
    && ps[i] + |pat| <= |s|
    && (if i + 1 < |ps| then StrStr(s, pat, ps[i] + |pat|).Some? && StrStr(s, pat, ps[i] + |pat|).value == ps[i + 1]
        else StrStr(s, pat, ps[i] + |pat|).None?)
  }

  /** The scan resumes after each cached match and finds the next cached one. */
  lemma {:induction false} MatchesNext(s: string, pat: string, start: nat, i: nat)
    requires |pat| > 0 && start <= |s| && i < |Matches(s, pat, start)|
    ensures FindsNext(s, pat, Matches(s, pat, start), i)
    decreases |s| - start
  {
    MatchesFirst(s, pat, start);
    var q := StrStr(s, pat, start).value;
    if i == 0 {
      MatchesNextFirst(s, pat, start, q);
    } else {
      MatchesUnfold(s, pat, start, q);
      MatchesNext(s, pat, q + |pat|, i - 1);
      MatchesNextShift(s, pat, start, q, i);
    }
  }

  lemma {:induction false} MatchesNextFirst(s: string, pat: string, start: nat, q: nat)
    requires |pat| > 0 && start <= |s| && StrStr(s, pat, start).Some? && StrStr(s, pat, start).value == q
    ensures 0 < |Matches(s, pat, start)|
    ensures FindsNext(s, pat, Matches(s, pat, start), 0)
  {
    var ps := Matches(s, pat, start);
    var rest := Matches(s, pat, q + |pat|);
    MatchesUnfold(s, pat, start, q);
    MatchesFirst(s, pat, q + |pat|);
    assert ps[0] == q;
    if 1 < |ps| {
      assert ps[1] == rest[0];
    }
  }

  lemma {:induction false} MatchesNextShift(s: string, pat: string, start: nat, q: nat, i: nat)
    requires |pat| > 0 && start <= |s| && StrStr(s, pat, start).Some? && StrStr(s, pat, start).value == q
    requires q + |pat| <= |s| && Matches(s, pat, start) == [q] + Matches(s, pat, q + |pat|)
    requires 0 < i < |Matches(s, pat, start)|
    requires FindsNext(s, pat, Matches(s, pat, q + |pat|), i - 1)
    ensures FindsNext(s, pat, Matches(s, pat, start), i)
  {
    var ps := Matches(s, pat, start);
    var rest := Matches(s, pat, q + |pat|);
    assert ps[i] == rest[i - 1];
    if i + 1 < |ps| {
      assert ps[i + 1] == rest[i];
    }
  }

  /** Before the first cached match there is no occurrence; with none cached there is
      none at all. */
  lemma {:induction false} MatchesFirst(s: string, pat: string, start: nat)
    requires |pat| > 0 && start <= |s|
    ensures Matches(s, pat, start) == [] <==> StrStr(s, pat, start).None?
    ensures Matches(s, pat, start) != [] ==> StrStr(s, pat, start).value == Matches(s, pat, start)[0]
  {
  }

  /** From `start`, replacement lengthens the input by |to| - |from| per cached match. */
  lemma {:induction false} ReplaceFromLength(s: string, from: string, to: string, start: nat)
    requires |from| > 0 && start <= |s|
    ensures |ReplaceFrom(s, from, to, start)|
            == |s| - start + (|to| - |from|) * |Matches(s, from, start)|
    decreases |s| - start
  {
    match StrStr(s, from, start)
    case None =>
      LengthNoMatch(s, from, to, start);
    case Some(q) =>
      ReplaceFromLength(s, from, to, q + |from|);
      LengthThroughMatch(s, from, to, start, q);
  }

  lemma {:induction false} LengthNoMatch(s: string, from: string, to: string, start: nat)
    requires |from| > 0 && start <= |s| && StrStr(s, from, start).None?
    ensures |ReplaceFrom(s, from, to, start)|
            == |s| - start + (|to| - |from|) * |Matches(s, from, start)|
  {
    ReplaceNoMatch(s, from, to, start);
    MatchesFirst(s, from, start);
    LengthNone(|ReplaceFrom(s, from, to, start)|, |s|, start, |from|, |to|, |Matches(s, from, start)|);
  }

  lemma {:induction false} LengthThroughMatch(s: string, from: string, to: string, start: nat, q: nat)
    requires |from| > 0 && start <= |s| && StrStr(s, from, start).Some? && StrStr(s, from, start).value == q
    requires q + |from| <= |s|
    requires |ReplaceFrom(s, from, to, q + |from|)|
             == |s| - (q + |from|) + (|to| - |from|) * |Matches(s, from, q + |from|)|
    ensures |ReplaceFrom(s, from, to, start)|
            == |s| - start + (|to| - |from|) * |Matches(s, from, start)|
  {
    ReplaceThroughMatchLength(s, from, to, start, q);
    MatchesUnfold(s, from, start, q);
    LengthStep(|ReplaceFrom(s, from, to, start)|, |ReplaceFrom(s, from, to, q + |from|)|,
               |s|, start, q, |from|, |to|, |Matches(s, from, q + |from|)|, |Matches(s, from, start)|);
  }

  /** The length of the replacement through the first occurrence strstr finds. */
  lemma {:induction false} ReplaceThroughMatchLength(s: string, from: string, to: string, start: nat, q: nat)
    requires |from| > 0 && start <= |s| && StrStr(s, from, start).Some? && StrStr(s, from, start).value == q
    ensures q + |from| <= |s|
    ensures |ReplaceFrom(s, from, to, start)| == (q - start) + |to| + |ReplaceFrom(s, from, to, q + |from|)|
  {
    ReplaceThroughMatch(s, from, to, start, q);
  }

  /** The length bookkeeping when nothing is replaced. */
  lemma LengthNone(whole: int, n: int, start: int, f: int, t: int, total: int)
    requires whole == n - start && total == 0
    ensures whole == n - start + (t - f) * total
  {
  }

  /** The length bookkeeping of one replaced occurrence. */
  lemma LengthStep(whole: int, rest: int, n: int, start: int, q: int, f: int, t: int, m: int, total: int)
    requires whole == (q - start) + t + rest
    requires rest == n - (q + f) + (t - f) * m
    requires total == m + 1
    ensures whole == n - start + (t - f) * total
  {
    assert (t - f) * (m + 1) == (t - f) * m + (t - f);
  }

  /** The whole input replaced by offsets is the reference replacement. */
  lemma {:induction false} ReplaceFromZero(s: string, from: string, to: string)
    requires |from| > 0
    ensures ReplaceFrom(s, from, to, 0) == ReplaceAll(s, from, to)
  {
    ReplaceFromIsReplaceAll(s, from, to, 0);
    assert s[0..] == s;
  }

  /** The reference replacement lengthens the input by |to| - |from| per match. */
  lemma {:induction false} ReplaceAllLength(s: string, from: string, to: string)
    requires |from| > 0
    ensures |ReplaceAll(s, from, to)| == |s| + (|to| - |from|) * |Matches(s, from, 0)|
  {
    ReplaceFromLength(s, from, to, 0);
    ReplaceFromZero(s, from, to);
  }

  /** With no occurrence of `from`, replacement is the identity. */
  lemma {:induction false} NoMatchIsCopy(s: string, from: string, to: string)
    requires |from| > 0 && Matches(s, from, 0) == []
    ensures ReplaceAll(s, from, to) == s
  {
    MatchesFirst(s, from, 0);
    ReplaceNoMatch(s, from, to, 0);
    ReplaceFromZero(s, from, to);
    assert s[0..] == s;
  }

  /** Replacing `from` by `to` and then `to` by `from` need not restore the input, even
      when neither string occurs in the other: a `to` already present in the input is
      turned into `from` as well. */
  lemma {:induction false} ReplaceBackNotInverse()
    ensures ReplaceAll("ab", "a", "b") == "bb"
    ensures ReplaceAll(ReplaceAll("ab", "a", "b"), "b", "a") == "aa" != "ab"
  {
    assert ReplaceAll("b", "a", "b") == "b" by {
      assert ReplaceAll("", "a", "b") == "";
    }
    assert ReplaceAll("b", "b", "a") == "a" by {
      assert ReplaceAll("", "b", "a") == "";
    }
  }

  // ---------------------------------------------------------------------------
  // The position cache's growth schedule

  /** cache_sz_inc after `k` growths. */
  function Increment(k: nat): nat
  {
    if k == 0 then CacheSzIncInit
    else
      var inc := Increment(k - 1) * CacheSzIncFactor;
      if inc > CacheSzIncMax then CacheSzIncMax else inc
  }

  /** cache_sz after `k` growths. */
  function Capacity(k: nat): nat
  {
    if k == 0 then 0 else Capacity(k - 1) + Increment(k - 1)
  }

  function Pow3(k: nat): nat
  {
    if k == 0 then 1 else 3 * Pow3(k - 1)
  }

  /** The increment is 16 tripled once per growth, never more than 1048576. */
  lemma {:induction false} IncrementClosedForm(k: nat)
    ensures Increment(k) == if CacheSzIncInit * Pow3(k) > CacheSzIncMax then CacheSzIncMax
                            else CacheSzIncInit * Pow3(k)
    ensures CacheSzIncInit <= Increment(k) <= CacheSzIncMax
  {
    if k > 0 {
      IncrementClosedForm(k - 1);
    }
  }

  lemma {:induction false} CapacityMonotone(i: nat, j: nat)
    requires i <= j
    ensures Capacity(i) + CacheSzIncInit * (j - i) <= Capacity(j)
    decreases j - i
  {
    if i < j {
      CapacityMonotone(i, j - 1);
      IncrementClosedForm(j - 1);
    }
  }

  /** `k` growths are the fewest whose capacity holds `n` positions (capacity only
      grows, so it is enough that one growth fewer would not do). */
  predicate IsGrowthCount(k: nat, n: nat)
  {
    Capacity(k) >= n && (k == 0 || Capacity(k - 1) < n)
  }

  function GrowthsFrom(n: nat, k: nat): (g: nat)
    requires k == 0 || Capacity(k - 1) < n
    ensures IsGrowthCount(g, n)
    decreases n - Capacity(k)
  {
    if Capacity(k) >= n then k
    else
      IncrementClosedForm(k);
      GrowthsFrom(n, k + 1)
  }

  /** How many times the position cache grows while `n` matches are recorded. */
  function Growths(n: nat): (g: nat)
    ensures IsGrowthCount(g, n)
  {
    GrowthsFrom(n, 0)
  }

  lemma {:induction false} GrowthCountUnique(k: nat, n: nat)
    requires IsGrowthCount(k, n)
    ensures k == Growths(n)
  {
    var g := Growths(n);
    if k < g {
      CapacityMonotone(k, g - 1);
    } else if g < k {
      CapacityMonotone(g, k - 1);
    }
  }

  /** The growths stay few: after the increment reaches its cap, each growth adds
      1048576 slots, so `n` positions take at most 12 + n / 1048576 growths. */
  lemma {:induction false} GrowthsBound(n: nat)
    ensures Growths(n) <= 12 + n / CacheSzIncMax
  {
    var q := n / CacheSzIncMax;
    CapacityAfterCap(11 + q);
    assert Capacity(12 + q) >= n;
    if Growths(n) > 12 + q {
      CapacityMonotone(12 + q, Growths(n) - 1);
    }

  }

  lemma {:induction false} CapacityAfterCap(k: nat)
    requires k >= 11
    ensures Capacity(k + 1) >= CacheSzIncMax * (k - 10)
    decreases k
  {
    IncrementClosedForm(k);
    assert Pow3(11) == 177147;
    PowMonotone(11, k);
    if k > 11 {
      CapacityAfterCap(k - 1);
    }
  }

  lemma {:induction false} PowMonotone(i: nat, j: nat)
    requires i <= j
    ensures Pow3(i) <= Pow3(j)
    decreases j - i
  {
    if i < j {
      PowMonotone(i, j - 1);
    }
  }

  // ---------------------------------------------------------------------------
  // The two passes

  /** Every allocation call with ordinal below `n` succeeds. */
  predicate AllOk(ok: nat -> bool, n: nat)
  {
    forall k: nat :: k < n ==> ok(k)
  }

  /** Scan pass of repl_str. `ok(k)` says whether the k-th allocation call succeeds.
      On success, `pos` are the greedy left-to-right matches, the cache has grown
      the fewest times that hold them, and its capacity is at least their number;
      it fails exactly when one of those growths fails. */
  method ScanMatches(str: string, from: string, ok: nat -> bool)
    returns (pos: seq<nat>, cacheSz: nat, reallocs: nat, failed: bool)
    requires |from| > 0
    ensures failed <==> !AllOk(ok, Growths(|Matches(str, from, 0)|))
    ensures !failed ==> pos == Matches(str, from, 0)
    ensures !failed ==> reallocs == Growths(|pos|) && AllOk(ok, reallocs)
    ensures !failed ==> cacheSz == Capacity(reallocs) && |pos| <= cacheSz
  {
    var cacheSzInc: nat := CacheSzIncInit;
    var count: nat := 0;
    pos, cacheSz, reallocs, failed := [], 0, 0, false;
    var p: nat := 0;
    var found := StrStr(str, from, p);
    while found.Some?
      invariant p <= |str| && found == StrStr(str, from, p)
      invariant count == |pos|
      invariant pos + Matches(str, from, p) == Matches(str, from, 0)
      invariant cacheSz == Capacity(reallocs) && cacheSzInc == Increment(reallocs)
      invariant IsGrowthCount(reallocs, count)
      invariant AllOk(ok, reallocs)
      decreases |str| - p
    {
      var q := found.value;
      ghost var pos0, p0 := pos, p;
      ScanStep(str, from, pos0, p0, q);
      count := count + 1;
      var growFailed;
      cacheSz, cacheSzInc, reallocs, growFailed := GrowCache(count, cacheSz, cacheSzInc, reallocs, ok);
      if growFailed {
        failed := true;
        GrowthFailureIsFatal(ok, reallocs, count, |Matches(str, from, 0)|);
        return;
      }
      pos := pos + [q];
      p := q + |from|;
      ScanAdvance(str, from, pos0, p0, q, pos, p);
      found := StrStr(str, from, p);
    }
    ScanDone(str, from, pos, p);
    GrowthCountUnique(reallocs, count);
  }

  /** The "increase the cache size when necessary" step for the `count`-th match:
      grow by the current increment, then triple the increment up to its cap. */
  method GrowCache(count: nat, cacheSz0: nat, cacheSzInc0: nat, reallocs0: nat, ok: nat -> bool)
    returns (cacheSz: nat, cacheSzInc: nat, reallocs: nat, failed: bool)
    requires count > 0 && IsGrowthCount(reallocs0, count - 1) && AllOk(ok, reallocs0)
    requires cacheSz0 == Capacity(reallocs0) && cacheSzInc0 == Increment(reallocs0)
    ensures failed ==> reallocs == reallocs0 && Capacity(reallocs) < count && !ok(reallocs)
    ensures !failed ==> IsGrowthCount(reallocs, count) && AllOk(ok, reallocs)
    ensures !failed ==> cacheSz == Capacity(reallocs) && cacheSzInc == Increment(reallocs)
  {
    cacheSz, cacheSzInc, reallocs, failed := cacheSz0, cacheSzInc0, reallocs0, false;
    if cacheSz < count {
      cacheSz := cacheSz + cacheSzInc;
      if !ok(reallocs) {
        failed := true;
        return;
      }
      GrowOnce(reallocs, count);
      reallocs := reallocs + 1;
      cacheSzInc := cacheSzInc * CacheSzIncFactor;
      if cacheSzInc > CacheSzIncMax {
        cacheSzInc := CacheSzIncMax;
      }
    } else {
      StayPut(reallocs, count);
    }
  }

  /** One round of the scan: the match found at or after `p` is the next cached
      position, and scanning resumes after it. */
  lemma {:induction false} ScanStep(str: string, from: string, pos: seq<nat>, p: nat, q: nat)
    requires |from| > 0 && p <= |str| && StrStr(str, from, p).Some? && StrStr(str, from, p).value == q
    requires pos + Matches(str, from, p) == Matches(str, from, 0)
    ensures q + |from| <= |str|
    ensures (pos + [q]) + Matches(str, from, q + |from|) == Matches(str, from, 0)
    ensures |pos| + 1 <= |Matches(str, from, 0)|
  {
    MatchesUnfold(str, from, p, q);
    var rest := Matches(str, from, q + |from|);
    assert (pos + [q]) + rest == pos + ([q] + rest);
  }

  lemma {:induction false} ScanAdvance(str: string, from: string, pos0: seq<nat>, p0: nat, q: nat, pos: seq<nat>, p: nat)
    requires |from| > 0 && p0 <= |str| && StrStr(str, from, p0).Some? && StrStr(str, from, p0).value == q
    requires pos0 + Matches(str, from, p0) == Matches(str, from, 0)
    requires pos == pos0 + [q] && p == q + |from|
    ensures p <= |str| && pos + Matches(str, from, p) == Matches(str, from, 0)
  {
    ScanStep(str, from, pos0, p0, q);
  }

  /** When strstr finds nothing more, the cache holds every match. */
  lemma {:induction false} ScanDone(str: string, from: string, pos: seq<nat>, p: nat)
    requires |from| > 0 && p <= |str| && StrStr(str, from, p).None?
    requires pos + Matches(str, from, p) == Matches(str, from, 0)
    ensures pos == Matches(str, from, 0)
  {
    assert Matches(str, from, p) == [];
    assert pos + [] == pos;
  }

  /** One more match: a full cache grows once and then holds it. */
  lemma {:induction false} GrowOnce(k: nat, count: nat)
    requires count > 0 && IsGrowthCount(k, count - 1) && Capacity(k) < count
    ensures IsGrowthCount(k + 1, count)
  {
    IncrementClosedForm(k);
  }

  /** One more match: a cache with room keeps its growth count. */
  lemma {:induction false} StayPut(k: nat, count: nat)
    requires count > 0 && IsGrowthCount(k, count - 1) && Capacity(k) >= count
    ensures IsGrowthCount(k, count)
  {
  }

  /** A growth that the final match count needs and that fails dooms the scan. */
  lemma {:induction false} GrowthFailureIsFatal(ok: nat -> bool, k: nat, count: nat, total: nat)
    requires Capacity(k) < count <= total && !ok(k)
    ensures !AllOk(ok, Growths(total))
  {
    if Growths(total) <= k {
      CapacityMonotone(Growths(total), k);
    }
  }

  /** The length repl_str allocates for, computed in size_t arithmetic. */
  function RetLen(orglen: nat, tolen: nat, fromlen: nat, count: nat): int
  {
    var diff := if tolen >= fromlen then tolen - fromlen else tolen - fromlen + SizeMod;
    (orglen + (diff * count) % SizeMod) % SizeMod
  }

  lemma ModShift(x: int, k: int)
    ensures (x + k * SizeMod) % SizeMod == x % SizeMod
  {
  }

  /** Reducing one summand first does not change the sum modulo 2^64. */
  lemma {:induction false} ModOfSum(a: int, b: int)
    ensures (a + b % SizeMod) % SizeMod == (a + b) % SizeMod
  {
    assert b % SizeMod == b + (-(b / SizeMod)) * SizeMod;
    ModShift(a + b, -(b / SizeMod));
  }

  lemma SmallMod(x: int)
    requires 0 <= x < SizeMod
    ensures x % SizeMod == x
  {
  }

  lemma MulAddDistrib(a: int, b: int, c: int)
    ensures (a + b) * c == a * c + c * b
  {
  }

  /** Even when |to| < |from| makes the size_t subtraction wrap, the computed length
      is the true one as long as that fits in a size_t. */
  lemma {:induction false} RetLenExact(orglen: nat, tolen: nat, fromlen: nat, count: nat)
    requires 0 <= orglen + (tolen - fromlen) * count < SizeMod
    requires tolen < SizeMod && fromlen < SizeMod
    ensures RetLen(orglen, tolen, fromlen, count) == orglen + (tolen - fromlen) * count
  {
    var d := tolen - fromlen;
    var diff := if tolen >= fromlen then d else d + SizeMod;
    if tolen < fromlen {
      MulAddDistrib(d, SizeMod, count);
      ModShift(d * count, count);
    }
    assert (diff * count) % SizeMod == (d * count) % SizeMod;
    ModOfSum(orglen, d * count);
    SmallMod(orglen + d * count);
  }

  /** repl_str(str, from, to). `ok(k)` says whether the k-th allocation call succeeds:
      the cache growths come first, then the result's malloc. The result is NULL
      exactly when one of them fails; otherwise it is the reference replacement, of
      the exact length the size computation predicts, and a plain copy when there is
      no match. The model takes `from` non-empty. With an empty `from`, strstr matches
      where the scan stands (EmptyPatternStalls) and the scan never advances, so the
      count keeps growing and the cache is reallocated again and again: the call
      returns NULL at the first failed realloc and does not return while every
      realloc succeeds. */
  method ReplStr(str: string, from: string, to: string, ok: nat -> bool) returns (r: Option<string>)
    requires |from| > 0
    requires |to| < SizeMod && |str| < SizeMod
    requires |str| + (|to| - |from|) * |Matches(str, from, 0)| + 1 < SizeMod
    ensures r.Some? <==> AllOk(ok, Growths(|Matches(str, from, 0)|) + 1)
    ensures r.Some? ==> r.value == ReplaceAll(str, from, to)
    ensures r.Some? ==> |r.value| == |str| + (|to| - |from|) * |Matches(str, from, 0)|
    ensures r.Some? && Matches(str, from, 0) == [] ==> r.value == str
  {
    var pos, cacheSz, reallocs, failed := ScanMatches(str, from, ok);
    if failed {
      return None;
    }
    var count := |pos|;
    var orglen := |str|;
    var retlen: int;
    ReplaceAllLength(str, from, to);
    if count > 0 {
      retlen := RetLen(orglen, |to|, |from|, count);
      RetLenExact(orglen, |to|, |from|, count);
    } else {
      retlen := orglen;
    }
    if !ok(reallocs) {
      return None;
    }
    if count == 0 {
      NoMatchIsCopy(str, from, to);
      r := Some(str);
    } else {
      var ret := Build(str, from, to, pos);
      assert |ret| == retlen;
      r := Some(ret);
    }
  }

  /** Cached positions the copy pass can walk: at least one, each match inside the
      input, and each ending before the next begins. */
  predicate WellSpaced(str: string, fromlen: nat, pos: seq<nat>)
  {
    && pos != []
    && (forall j :: 0 <= j < |pos| ==> pos[j] + fromlen <= |str|)
    && (forall j :: 0 <= j < |pos| - 1 ==> pos[j] + fromlen <= pos[j + 1])
  }

  /** What the copy pass has written after `i` rounds: the input before the first
      match, then per round `to` and the input from the end of that match up to the
      next match, or to the end after the last. */
  ghost function Built(str: string, to: string, fromlen: nat, pos: seq<nat>, i: nat): string
    requires WellSpaced(str, fromlen, pos) && i <= |pos|
  {
    if i == 0 then str[..pos[0]]
    else
      var j := i - 1;
      Built(str, to, fromlen, pos, j) + to + str[pos[j] + fromlen..(if j == |pos| - 1 then |str| else pos[j + 1])]
  }

  /** The copy pass of repl_str over the positions the scan pass cached: the input
      before the first match, then per match `to` and the input up to the next match
      or the end. When there is at least one match it yields the reference
      replacement. */
  method Build(str: string, from: string, to: string, pos: seq<nat>) returns (ret: string)
    requires |from| > 0 && pos == Matches(str, from, 0) && pos != []
    ensures ret == ReplaceAll(str, from, to)
  {
    BuiltIsReplaceAll(str, from, to);
    var fromlen := |from|;
    ret := str[..pos[0]];
    var i := 0;
    while i < |pos|
      invariant 0 <= i <= |pos|
      invariant ret == Built(str, to, fromlen, pos, i)
    {
      ret := ret + to;
      var cpyStart := pos[i] + fromlen;
      var cpyEnd := if i == |pos| - 1 then |str| else pos[i + 1];
      ret := ret + str[cpyStart..cpyEnd];
      i := i + 1;
    }
  }

  /** The cached positions `ps` as the scan leaves them: well spaced, the first the
      first occurrence, and each followed by the next one strstr finds. */
  predicate ScanChain(s: string, from: string, ps: seq<nat>)
  {
    && WellSpaced(s, |from|, ps)
    && StrStr(s, from, 0) == Some(ps[0])
    && (forall j :: 0 <= j < |ps| ==> FindsNext(s, from, ps, j))
  }

  /** After `i` rounds of the copy pass, the output followed by `to` and the
      reference replacement of what follows the `i`-th match is the whole reference
      replacement; after the last round it is the reference replacement. */
  lemma {:induction false} BuiltInvariant(s: string, from: string, to: string, ps: seq<nat>, i: nat)
    requires |from| > 0 && ScanChain(s, from, ps) && i <= |ps|
    ensures i < |ps| ==> Built(s, to, |from|, ps, i) + to + ReplaceFrom(s, from, to, ps[i] + |from|)
                         == ReplaceAll(s, from, to)
    ensures i == |ps| ==> Built(s, to, |from|, ps, i) == ReplaceAll(s, from, to)
    decreases i
  {
    if i == 0 {
      BuiltStart(s, from, to, ps);
    } else {
      var j := i - 1;
      BuiltInvariant(s, from, to, ps, j);
      BuiltRound(s, from, to, ps, j);
      assert j + 1 == i;
    }
  }

  /** The copy before the first match keeps BuiltInvariant's promise. */
  lemma {:induction false} BuiltStart(s: string, from: string, to: string, ps: seq<nat>)
    requires |from| > 0 && ScanChain(s, from, ps)
    ensures Built(s, to, |from|, ps, 0) + to + ReplaceFrom(s, from, to, ps[0] + |from|) == ReplaceAll(s, from, to)
  {
    assert Built(s, to, |from|, ps, 0) == s[..ps[0]];
    BuildStart(s, from, to, ps);
  }

  /** Round `i` of the copy pass keeps BuiltInvariant's promise. */
  lemma {:induction false} BuiltRound(s: string, from: string, to: string, ps: seq<nat>, i: nat)
    requires |from| > 0 && ScanChain(s, from, ps) && i < |ps|
    requires Built(s, to, |from|, ps, i) + to + ReplaceFrom(s, from, to, ps[i] + |from|) == ReplaceAll(s, from, to)
    ensures i + 1 < |ps| ==> Built(s, to, |from|, ps, i + 1) + to + ReplaceFrom(s, from, to, ps[i + 1] + |from|)
                             == ReplaceAll(s, from, to)
    ensures i + 1 == |ps| ==> Built(s, to, |from|, ps, i + 1) == ReplaceAll(s, from, to)
  {
    var done := Built(s, to, |from|, ps, i);
    var next := Built(s, to, |from|, ps, i + 1);
    assert next == done + to + s[ps[i] + |from|..(if i == |ps| - 1 then |s| else ps[i + 1])];
    assert FindsNext(s, from, ps, i);
    BuildStep(s, from, to, ps, i, done, next, ReplaceAll(s, from, to));
  }

  /** The scan's positions form a ScanChain. */
  lemma {:induction false} MatchesScanChain(s: string, from: string)
    requires |from| > 0 && Matches(s, from, 0) != []
    ensures ScanChain(s, from, Matches(s, from, 0))
  {
    var ps := Matches(s, from, 0);
    MatchesSound(s, from, 0);
    MatchesFirst(s, from, 0);
    forall j | 0 <= j < |ps|
      ensures FindsNext(s, from, ps, j)
    {
      MatchesNext(s, from, 0, j);
    }
  }

  /** The copy pass over the cached matches yields the reference replacement. */
  lemma {:induction false} BuiltIsReplaceAll(s: string, from: string, to: string)
    requires |from| > 0 && Matches(s, from, 0) != []
    ensures WellSpaced(s, |from|, Matches(s, from, 0))
    ensures Built(s, to, |from|, Matches(s, from, 0), |Matches(s, from, 0)|) == ReplaceAll(s, from, to)
  {
    MatchesScanChain(s, from);
    BuiltInvariant(s, from, to, Matches(s, from, 0), |Matches(s, from, 0)|);
  }

  /** The copy before the first match starts the build. */
  lemma {:induction false} BuildStart(s: string, from: string, to: string, ps: seq<nat>)
    requires |from| > 0 && ps != []
    requires StrStr(s, from, 0).Some? && StrStr(s, from, 0).value == ps[0]
    ensures ps[0] + |from| <= |s|
    ensures s[..ps[0]] + to + ReplaceFrom(s, from, to, ps[0] + |from|) == ReplaceAll(s, from, to)
  {
    ReplaceThroughMatch(s, from, to, 0, ps[0]);
    ReplaceFromZero(s, from, to);
    assert s[..ps[0]] == s[0..ps[0]];
  }

  /** A round of the copy loop keeps its invariant. */
  lemma {:induction false} BuildStep(s: string, from: string, to: string, ps: seq<nat>, i: nat, done: string, ret: string, whole: string)
    requires |from| > 0 && i < |ps| && FindsNext(s, from, ps, i)
    requires done + to + ReplaceFrom(s, from, to, ps[i] + |from|) == whole
    requires ret == done + to + s[ps[i] + |from|..(if i == |ps| - 1 then |s| else ps[i + 1])]
    ensures i + 1 < |ps| ==> ps[i + 1] + |from| <= |s|
    ensures i + 1 < |ps| ==> ret + to + ReplaceFrom(s, from, to, ps[i + 1] + |from|) == whole
    ensures i + 1 == |ps| ==> ret == whole
  {
    if i + 1 < |ps| {
      CopyToMatch(s, from, to, ps[i] + |from|, ps[i + 1], done, ret, whole);
    } else {
      CopyToEnd(s, from, to, ps[i] + |from|, done, ret, whole);
    }
  }

  /** A copy round that resumes at `a` and stops at the next match `b`. */
  lemma {:induction false} CopyToMatch(s: string, from: string, to: string, a: nat, b: nat, done: string, ret: string, whole: string)
    requires |from| > 0 && a <= |s| && StrStr(s, from, a).Some? && StrStr(s, from, a).value == b
    requires done + to + ReplaceFrom(s, from, to, a) == whole
    requires ret == done + to + s[a..b]
    ensures b + |from| <= |s|
    ensures ret + to + ReplaceFrom(s, from, to, b + |from|) == whole
  {
    ReplaceThroughMatch(s, from, to, a, b);
    Regroup(done, to, s[a..b], ReplaceFrom(s, from, to, b + |from|), whole, ret);
  }

  /** The last copy round, resuming at `a` with no match after it, completes the
      replacement. */
  lemma {:induction false} CopyToEnd(s: string, from: string, to: string, a: nat, done: string, ret: string, whole: string)
    requires |from| > 0 && a <= |s| && StrStr(s, from, a).None?
    requires done + to + ReplaceFrom(s, from, to, a) == whole
    requires ret == done + to + s[a..]
    ensures ret == whole
  {
    ReplaceNoMatch(s, from, to, a);
  }

  /** Regrouping the output of one copy round. */
  lemma Regroup(done: string, to: string, mid: string, rest: string, whole: string, next: string)
    requires done + to + (mid + to + rest) == whole && next == done + to + mid
    ensures next + to + rest == whole
  {
    assert done + to + (mid + to + rest) == done + to + mid + to + rest;
  }
}
