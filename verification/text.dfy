/**
 * ECMAScript `String.prototype.trim`, which Mongoose applies to a schema path
 * declared with `trim: true`. `Trim` is defined by peeling whitespace off both
 * ends; `TrimUnique` connects it to the declarative reading "the stripped middle
 * of a whitespace / text / whitespace split".
 */
module Text {

  /** ECMAScript WhiteSpace and LineTerminator code points (the set `trim` removes). */
  predicate IsWhite(c: char) {
    var n := c as int;
    || n == 0x09 || n == 0x0A || n == 0x0B || n == 0x0C || n == 0x0D || n == 0x20
    || n == 0xA0 || n == 0x1680 || (0x2000 <= n <= 0x200A)
    || n == 0x2028 || n == 0x2029 || n == 0x202F || n == 0x205F
    || n == 0x3000 || n == 0xFEFF
  }

  /** Every character of `s` at an index in `[lo, hi)` is whitespace. */
  predicate WhiteBetween(s: string, lo: nat, hi: nat)
    requires lo <= hi <= |s|
  {
    forall k | lo <= k < hi :: IsWhite(s[k])
  }

  /** Every character of `s` is whitespace. */
  predicate AllWhite(s: string) {
    WhiteBetween(s, 0, |s|)
  }

  /** Neither end of `s` is whitespace. */
  predicate Stripped(s: string) {
    s == [] || (!IsWhite(s[0]) && !IsWhite(s[|s| - 1]))
  }

  /** `s` without its leading whitespace. */
  function TrimStart(s: string): (r: string)
    ensures |r| <= |s| && r == s[|s| - |r|..]
    ensures WhiteBetween(s, 0, |s| - |r|)
    ensures r == [] || !IsWhite(r[0])
    decreases |s|
  {
    if |s| > 0 && IsWhite(s[0]) then
      var r := TrimStart(s[1..]);
      assert forall k | 1 <= k < |s| - |r| :: s[k] == s[1..][k - 1];
      r
    else s
  }

  /** `s` without its trailing whitespace. */
  function TrimEnd(s: string): (r: string)
    ensures |r| <= |s| && r == s[..|r|]
    ensures WhiteBetween(s, |r|, |s|)
    ensures r == [] || !IsWhite(r[|r| - 1])
    decreases |s|
  {
    if |s| > 0 && IsWhite(s[|s| - 1]) then
      var r := TrimEnd(s[..|s| - 1]);
      assert forall k | |r| <= k < |s| - 1 :: s[k] == s[..|s| - 1][k];
      r
    else s
  }

  /**
   * `s` without leading and trailing whitespace: a stripped infix `s[i..j]`
   * of `s` with only whitespace before `i` and from `j` on.
   */
  function Trim(s: string): (r: string)
    ensures Stripped(r)
    ensures exists i, j :: 0 <= i <= j <= |s| && r == s[i..j] && WhiteBetween(s, 0, i) && WhiteBetween(s, j, |s|)
  {
    var t := TrimStart(s);
    var r := TrimEnd(t);
    InfixSplit(s, t, r);
    r
  }

  /**
   * If `t` is `s` without a whitespace prefix and starts with a non-whitespace
   * character, and `r` is `t` without a whitespace suffix and ends with one,
   * then `r` is a stripped infix of `s` with whitespace-only flanks.
   */
  lemma InfixSplit(s: string, t: string, r: string)
    requires |t| <= |s| && t == s[|s| - |t|..] && WhiteBetween(s, 0, |s| - |t|)
    requires t == [] || !IsWhite(t[0])
    requires |r| <= |t| && r == t[..|r|] && WhiteBetween(t, |r|, |t|)
    requires r == [] || !IsWhite(r[|r| - 1])
    ensures Stripped(r)
    ensures exists i, j :: 0 <= i <= j <= |s| && r == s[i..j] && WhiteBetween(s, 0, i) && WhiteBetween(s, j, |s|)
  {
    var i := |s| - |t|;
    var j := i + |r|;
    assert r == s[i..j];
    assert WhiteBetween(s, j, |s|) by {
      forall k | j <= k < |s| ensures IsWhite(s[k]) {
        assert s[k] == t[k - i];
      }
    }
  }

  lemma {:induction false} TrimStartSkips(p: string, x: string)
    requires AllWhite(p)
    requires x == [] || !IsWhite(x[0])
    ensures TrimStart(p + x) == x
    decreases |p|
  {
    if p == [] {
      assert p + x == x;
    } else {
      assert (p + x)[1..] == p[1..] + x;
      TrimStartSkips(p[1..], x);
    }
  }

  lemma {:induction false} TrimEndSkips(x: string, q: string)
    requires AllWhite(q)
    requires x == [] || !IsWhite(x[|x| - 1])
    ensures TrimEnd(x + q) == x
    decreases |q|
  {
    if q == [] {
      assert x + q == x;
    } else {
      assert (x + q)[..|x + q| - 1] == x + q[..|q| - 1];
      TrimEndSkips(x, q[..|q| - 1]);
    }
  }

  /** Any split of `s` into whitespace, a stripped middle and whitespace has `Trim(s)` as its middle. */
  lemma TrimUnique(s: string, p: string, m: string, q: string)
    requires s == p + m + q
    requires AllWhite(p) && AllWhite(q) && Stripped(m)
    ensures Trim(s) == m
  {
    if m == [] {
      assert s == (p + q) + [];
      TrimStartSkips(p + q, []);
    } else {
      assert s == p + (m + q);
      TrimStartSkips(p, m + q);
      TrimEndSkips(m, q);
    }
  }

  /** Trimming twice is trimming once. */
  lemma TrimIdempotent(s: string)
    ensures Trim(Trim(s)) == Trim(s)
  {
    var t := Trim(s);
    assert t == [] + t + [];
    TrimUnique(t, [], t, []);
  }

  /** A trimmed string is empty exactly when the original held only whitespace. */
  lemma TrimEmptyIff(s: string)
    ensures Trim(s) == [] <==> AllWhite(s)
  {
    if AllWhite(s) {
      assert s == s + [] + [];
      TrimUnique(s, s, [], []);
    }
  }
}
