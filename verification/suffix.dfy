/** EndsWith of misc.c and the bounded comparison it is built on. Strings are the
    characters before the C terminator, so they hold no NUL and strncmp's early stop
    at a terminator coincides with its length bound. */
module Suffix {
  import opened Wrappers

  /** strncmp(a, b, n): zero exactly when the first `n` characters agree, otherwise the
      difference of the first pair that differs. */
  function StrNCmp(a: string, b: string, n: nat): (r: int)
    requires n <= |a| && n <= |b|
    ensures r == 0 <==> a[..n] == b[..n]
    decreases n
  {
    if n == 0 then 0
    else if a[0] != b[0] then a[0] as int - b[0] as int
    else
      assert a[..n] == [a[0]] + a[1..][..n - 1];
      assert b[..n] == [b[0]] + b[1..][..n - 1];
      StrNCmp(a[1..], b[1..], n - 1)
  }

  /** EndsWith(str, suffix): false when either pointer is NULL or the suffix is the
      longer string; otherwise whether the last |suffix| characters equal it. */
  function EndsWith(str: Option<string>, suffix: Option<string>): (r: bool)
    ensures str.None? || suffix.None? ==> !r
    ensures str.Some? && suffix.Some? && |suffix.value| > |str.value| ==> !r
    ensures str.Some? && suffix.Some? && |suffix.value| <= |str.value| ==>
              (r <==> str.value[|str.value| - |suffix.value|..] == suffix.value)
  {
    if str.None? || suffix.None? then false
    else
      var lenstr := |str.value|;
      var lensuffix := |suffix.value|;
      if lensuffix > lenstr then false
      else StrNCmp(str.value[lenstr - lensuffix..], suffix.value, lensuffix) == 0
  }

  /** EndsWith agrees with the textbook definition of a suffix: `t` ends `s` exactly
      when `s` is some string followed by `t`. */
  lemma EndsWithIffConcat(s: string, t: string)
    ensures EndsWith(Some(s), Some(t)) <==> exists p :: s == p + t
  {
    if EndsWith(Some(s), Some(t)) {
      var p := s[..|s| - |t|];
      assert s == p + t;
    }
    if exists p :: s == p + t {
      var p :| s == p + t;
      assert s[|s| - |t|..] == t;
    }
  }

  /** The empty suffix ends every string, and every string ends itself. */
  lemma EmptyAndSelfSuffix(s: string)
    ensures EndsWith(Some(s), Some([]))
    ensures EndsWith(Some(s), Some(s))
  {
    assert s[|s|..] == [];
    assert s[0..] == s;
  }
}
