/** Small shared vocabulary: an optional value, and prefix / suffix tests on strings. */
module Common {

  /** A value that may be absent (a JavaScript `null`, `undefined` or a failed lookup). */
  datatype Option<+T> = None | Some(value: T) {
    function GetOr(default: T): T {
      match this
      case Some(v) => v
      case None => default
    }
  }

  /** `s.startsWith(p)`: `s` is `p` followed by something. */
  predicate StartsWith(s: string, p: string)
    ensures StartsWith(s, p) <==> exists t :: s == p + t
  {
    if |p| <= |s| && s[..|p|] == p then
      assert s == p + s[|p|..];
      true
    else
      assert forall t :: s != p + t by {
        forall t ensures s != p + t {
          assert (p + t)[..|p|] == p;
        }
      }
      false
  }

  /** `s.endsWith(p)`: `s` is something followed by `p`. */
  predicate EndsWith(s: string, p: string)
    ensures EndsWith(s, p) <==> exists t :: s == t + p
  {
    if |p| <= |s| && s[|s| - |p|..] == p then
      assert s == s[..|s| - |p|] + p;
      true
    else
      assert forall t :: s != t + p by {
        forall t ensures s != t + p {
          assert (t + p)[|t + p| - |p|..] == p;
        }
      }
      false
  }

  /** What follows a prefix does not matter: once `s` starts with `p`, so does every extension of `s`. */
  lemma StartsWithExtended(s: string, p: string)
    ensures StartsWith(s, p) ==> forall x :: StartsWith(s + x, p)
  {
    if StartsWith(s, p) {
      forall x ensures StartsWith(s + x, p) {
        assert (s + x)[..|p|] == s[..|p|];
      }
    }
  }

  /** What precedes a suffix does not matter: once `s` ends with `p`, so does `s` behind anything. */
  lemma EndsWithExtended(s: string, p: string)
    ensures EndsWith(s, p) ==> forall x :: EndsWith(x + s, p)
  {
    if EndsWith(s, p) {
      forall x ensures EndsWith(x + s, p) {
        assert (x + s)[|x + s| - |p|..] == s[|s| - |p|..];
      }
    }
  }

  function Min(a: int, b: int): int {
    if a <= b then a else b
  }

  /**
   * The first `n` characters of `s`, with `n` clamped into `[0, |s|]`. With a
   * start of 0 this is both JavaScript's `s.substring(0, n)` and `s.substr(0, n)`.
   */
  function Prefix(s: string, n: int): (r: string)
    ensures r <= s
    ensures |r| == if n <= 0 then 0 else Min(n, |s|)
  {
    if n <= 0 then [] else if n >= |s| then s else s[..n]
  }

  lemma MulBound(k: int, d: int)
    requires k > 0 && d != 0
    ensures k * d >= k || k * d <= -k
    decreases if d > 0 then d else -d
  {
    if d > 0 {
      assert k * d == k * (d - 1) + k;
      if d > 1 { MulBound(k, d - 1); }
    } else {
      assert k * d == k * (d + 1) - k;
      if d < -1 { MulBound(k, d + 1); }
    }
  }

  /** Quotient and remainder are unique. */
  lemma ModUnique(x: int, k: int, q: int, r: int)
    requires k > 0 && 0 <= r < k && x == k * q + r
    ensures x % k == r && x / k == q
  {
    var q2, r2 := x / k, x % k;
    assert k * (q2 - q) == r - r2;
    if q2 - q != 0 { MulBound(k, q2 - q); }
  }

  /** Reducing a summand modulo `k` first does not change the sum modulo `k`. */
  lemma ModAddMod(a: int, b: int, k: int)
    requires k > 0
    ensures (a % k + b) % k == (a + b) % k
  {
    var q, r := a / k, a % k;
    var q', r' := (r + b) / k, (r + b) % k;
    assert a + b == k * (q + q') + r';
    ModUnique(a + b, k, q + q', r');
  }
}
