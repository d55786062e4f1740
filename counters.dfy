/**
 * The statistics counters: `animateCounters` starts one count-up animation
 * per counter whose `data-count` parses to a non-zero integer, and marks the
 * counter so that later calls leave it alone. The animation's last frame
 * shows the target exactly.
 */
module Counters {
  import opened Common

  const Duration: int := 2000

  // ----- `parseInt(s)` with no radix -----

  /** The characters `parseInt` skips at the start: white space and line terminators. */
  predicate IsSpace(c: char) {
    c == '\t' || c == '\n' || c == '\U{000B}' || c == '\U{000C}' || c == '\r' || c == ' '
    || c == '\U{00A0}' || c == '\U{1680}' || ('\U{2000}' <= c <= '\U{200A}')
    || c == '\U{2028}' || c == '\U{2029}' || c == '\U{202F}' || c == '\U{205F}'
    || c == '\U{3000}' || c == '\U{FEFF}'
  }

  /** Every character is white space (or a line terminator). */
  predicate AllSpace(w: string) {
    forall k :: 0 <= k < |w| ==> IsSpace(w[k])
  }

  /** Drops the leading white space, and only that. */
  function TrimStart(s: string): (r: string)
    decreases |s|
  {
    if s != [] && IsSpace(s[0]) then TrimStart(s[1..]) else s
  }

  /** What `TrimStart` removes is a prefix of white space, and what it keeps starts with something else. */
  lemma {:induction false} TrimStartDropsSpace(s: string)
    ensures var r := TrimStart(s);
      |r| <= |s| && r == s[|s| - |r|..] && AllSpace(s[..|s| - |r|]) && (r != [] ==> !IsSpace(r[0]))
    decreases |s|
  {
    if s != [] && IsSpace(s[0]) {
      TrimStartDropsSpace(s[1..]);
      var n := |s| - |TrimStart(s)|;
      assert forall k :: 1 <= k < n ==> s[..n][k] == s[1..][..n - 1][k - 1];
    }
  }

  /** Value of a digit or letter in bases up to 36, or -1. */
  function DigitValue(c: char): int {
    if '0' <= c <= '9' then c as int - '0' as int
    else if 'a' <= c <= 'z' then c as int - 'a' as int + 10
    else if 'A' <= c <= 'Z' then c as int - 'A' as int + 10
    else -1
  }

  predicate IsDigit(c: char, radix: nat) {
    0 <= DigitValue(c) < radix
  }

  /** Length of the longest prefix of digits. */
  function DigitRun(s: string, radix: nat): (n: nat)
    ensures n <= |s|
    ensures forall k :: 0 <= k < n ==> IsDigit(s[k], radix)
    ensures n < |s| ==> !IsDigit(s[n], radix)
    decreases |s|
  {
    if s == [] || !IsDigit(s[0], radix) then 0 else 1 + DigitRun(s[1..], radix)
  }

  /** Value of a string of digits, most significant first. */
  function ValueOf(ds: string, radix: nat): (v: int)
    requires forall k :: 0 <= k < |ds| ==> IsDigit(ds[k], radix)
    ensures v >= 0
    decreases |ds|
  {
    if ds == [] then 0
    else
      var high := ValueOf(ds[..|ds| - 1], radix);
      assert high * radix >= 0 && IsDigit(ds[|ds| - 1], radix);
      high * radix + DigitValue(ds[|ds| - 1])
  }

  /** The longest run of digits at the start of `v`, read in base `radix`; `None` (NaN) when there is none. */
  function ParseRun(v: string, radix: nat): (r: Option<int>)
    ensures r.None? <==> v == [] || !IsDigit(v[0], radix)
    ensures r.Some? ==> r.value >= 0
  {
    var n := DigitRun(v, radix);
    if n == 0 then None else Some(ValueOf(v[..n], radix))
  }

  /** After the sign: base 16 behind a `0x` / `0X` prefix, base 10 otherwise. */
  function ParseMagnitude(u: string): (r: Option<int>)
    // anything that does not start with a decimal digit is NaN
    ensures u == [] || !IsDigit(u[0], 10) ==> r.None?
    // a decimal digit not followed by `x` / `X` always gives a number
    ensures u != [] && IsDigit(u[0], 10) && (|u| < 2 || (u[1] != 'x' && u[1] != 'X')) ==> r.Some?
    ensures r.Some? ==> r.value >= 0
  {
    if |u| >= 2 && u[0] == '0' && (u[1] == 'x' || u[1] == 'X') then ParseRun(u[2..], 16)
    else ParseRun(u, 10)
  }

  /** After the white space: one optional sign, then the magnitude. */
  function ParseSigned(t: string): (r: Option<int>)
    // text that starts with neither a digit nor a sign is NaN
    ensures t == [] || !(IsDigit(t[0], 10) || t[0] == '+' || t[0] == '-') ==> r.None?
    // the sign of the result is the written one
    ensures r.Some? && t[0] == '-' ==> r.value <= 0
    ensures r.Some? && t[0] != '-' ==> r.value >= 0
  {
    if t != [] && t[0] == '-' then
      match ParseMagnitude(t[1..])
      case None => None
      case Some(m) => Some(-m)
    else if t != [] && t[0] == '+' then ParseMagnitude(t[1..])
    else ParseMagnitude(t)
  }

  /** `parseInt(s)`: skip leading white space, then read a signed number; `None` stands for NaN. */
  function ParseInt(s: string): (r: Option<int>)
    // after the white space, a text that starts with neither a digit nor a sign
    // (in particular an empty or all-white-space text) is NaN
    ensures var t := TrimStart(s);
      t == [] || !(IsDigit(t[0], 10) || t[0] == '+' || t[0] == '-') ==> r.None?
    ensures var t := TrimStart(s);
      r.Some? ==> (r.value < 0 ==> t[0] == '-') && (t[0] == '-' ==> r.value <= 0)
  {
    ParseSigned(TrimStart(s))
  }

  /** Decimal digits of `n`, as `String(n)` writes them. */
  function Decimal(n: nat): (s: string)
    ensures |s| > 0
    ensures forall k :: 0 <= k < |s| ==> IsDigit(s[k], 10)
    decreases n
  {
    if n < 10 then ['0' + (n as char)]
    else Decimal(n / 10) + ['0' + ((n % 10) as char)]
  }

  lemma {:induction false} DecimalValue(n: nat)
    ensures ValueOf(Decimal(n), 10) == n
    decreases n
  {
    if n >= 10 {
      DecimalValue(n / 10);
      var s := Decimal(n);
      assert s[..|s| - 1] == Decimal(n / 10);
    }
  }

  lemma {:induction false} DigitRunAll(s: string, radix: nat)
    requires forall k :: 0 <= k < |s| ==> IsDigit(s[k], radix)
    ensures DigitRun(s, radix) == |s|
    decreases |s|
  {
    if s != [] {
      DigitRunAll(s[1..], radix);
    }
  }

  /** The digit run ends where the digits end. */
  lemma {:induction false} DigitRunSplit(ds: string, rest: string, radix: nat)
    requires forall k :: 0 <= k < |ds| ==> IsDigit(ds[k], radix)
    requires rest == [] || !IsDigit(rest[0], radix)
    ensures DigitRun(ds + rest, radix) == |ds|
    decreases |ds|
  {
    if ds != [] {
      assert (ds + rest)[1..] == ds[1..] + rest;
      DigitRunSplit(ds[1..], rest, radix);
    } else {
      assert ds + rest == rest;
    }
  }

  /** A leading run of digits is read whole, as its value; whatever follows it is ignored. */
  lemma {:induction false} ParseRunSplit(ds: string, rest: string, radix: nat)
    requires |ds| > 0 && forall k :: 0 <= k < |ds| ==> IsDigit(ds[k], radix)
    requires rest == [] || !IsDigit(rest[0], radix)
    ensures ParseRun(ds + rest, radix) == Some(ValueOf(ds, radix))
  {
    DigitRunSplit(ds, rest, radix);
    assert (ds + rest)[..|ds|] == ds;
  }

  /** Leading white space is skipped whatever follows it. */
  lemma {:induction false} TrimSpaces(w: string, u: string)
    requires AllSpace(w)
    requires u == [] || !IsSpace(u[0])
    ensures TrimStart(w + u) == u
    decreases |w|
  {
    if w != [] {
      assert (w + u)[1..] == w[1..] + u;
      TrimSpaces(w[1..], u);
    } else {
      assert w + u == u;
    }
  }

  /** Decimal digits only. */
  predicate DecimalDigits(ds: string) {
    forall k :: 0 <= k < |ds| ==> IsDigit(ds[k], 10)
  }

  /**
   * What may follow a run of decimal digits without changing the number: the
   * end of the text, or a character that is not a digit and, after a lone
   * `0`, not the `x` / `X` of a hexadecimal prefix.
   */
  predicate EndsNumber(ds: string, rest: string) {
    rest == [] || (!IsDigit(rest[0], 10) && (ds == "0" ==> rest[0] != 'x' && rest[0] != 'X'))
  }

  /** Decimal digits followed by anything that does not extend them are read as their value. */
  lemma {:induction false} MagnitudeOfDigits(ds: string, rest: string)
    requires |ds| > 0 && DecimalDigits(ds) && EndsNumber(ds, rest)
    ensures ParseMagnitude(ds + rest) == Some(ValueOf(ds, 10))
  {
    var u := ds + rest;
    assert u[0] == ds[0] && IsDigit(ds[0], 10);
    ParseRunSplit(ds, rest, 10);
    if |u| >= 2 && u[0] == '0' {
      if |ds| >= 2 {
        assert u[1] == ds[1] && IsDigit(ds[1], 10);
      } else {
        assert ds == "0" && u[1] == rest[0];
      }
    }
  }

  /** With the white space gone and no sign, `parseInt` reads the magnitude. */
  lemma {:induction false} ReadUnsigned(s: string, u: string, m: int)
    requires TrimStart(s) == u && u != [] && u[0] != '-' && u[0] != '+'
    requires ParseMagnitude(u) == Some(m)
    ensures ParseInt(s) == Some(m)
  {
  }

  /** With the white space gone, a `+` keeps the magnitude and a `-` negates it. */
  lemma {:induction false} ReadSigned(s: string, sign: char, u: string, m: int)
    requires sign == '+' || sign == '-'
    requires TrimStart(s) == [sign] + u && ParseMagnitude(u) == Some(m)
    ensures ParseInt(s) == Some(if sign == '-' then -m else m)
  {
    assert ([sign] + u)[1..] == u;
  }

  /** White space, then a sign, then a magnitude. */
  lemma {:induction false} SignedAfterSpaces(w: string, sign: char, u: string, m: int)
    requires AllSpace(w) && (sign == '+' || sign == '-')
    requires ParseMagnitude(u) == Some(m)
    ensures ParseInt(w + ([sign] + u)) == Some(if sign == '-' then -m else m)
  {
    var v := [sign] + u;
    assert v[0] == sign;
    TrimSpaces(w, v);
    ReadSigned(w + v, sign, u, m);
  }

  /**
   * `parseInt` on what a `data-count` attribute typically holds: white space,
   * an optional sign, decimal digits, and then a suffix that does not continue
   * the number (`"12px"`, `" 42"`, `"+7"`, `"-3 items"`).
   */
  lemma {:induction false} ParseLeading(w: string, ds: string, rest: string)
    requires AllSpace(w)
    requires |ds| > 0 && DecimalDigits(ds) && EndsNumber(ds, rest)
    ensures ParseInt(w + (ds + rest)) == Some(ValueOf(ds, 10))
  {
    var u := ds + rest;
    MagnitudeOfDigits(ds, rest);
    assert u[0] == ds[0] && IsDigit(ds[0], 10);
    TrimSpaces(w, u);
    ReadUnsigned(w + u, u, ValueOf(ds, 10));
  }

  /** The same with a sign in front of the digits: `+` keeps the value, `-` negates it. */
  lemma {:induction false} ParseLeadingSigned(w: string, sign: char, ds: string, rest: string)
    requires AllSpace(w) && (sign == '+' || sign == '-')
    requires |ds| > 0 && DecimalDigits(ds) && EndsNumber(ds, rest)
    ensures ParseInt(w + ([sign] + (ds + rest)))
         == Some(if sign == '-' then -ValueOf(ds, 10) else ValueOf(ds, 10))
  {
    MagnitudeOfDigits(ds, rest);
    SignedAfterSpaces(w, sign, ds + rest, ValueOf(ds, 10));
  }

  /** A string of decimal digits on its own is read whole. */
  lemma {:induction false} MagnitudeOfNumeral(ds: string)
    requires |ds| > 0 && DecimalDigits(ds)
    ensures ParseMagnitude(ds) == Some(ValueOf(ds, 10))
  {
    DigitRunAll(ds, 10);
    assert ds[..|ds|] == ds;
    if |ds| >= 2 {
      assert IsDigit(ds[1], 10);
    }
  }

  /** A counter written as a decimal number, with or without a minus sign, parses back to that number. */
  lemma {:induction false} ParseDecimal(n: nat)
    ensures ParseInt(Decimal(n)) == Some(n)
    ensures ParseInt("-" + Decimal(n)) == Some(-(n as int))
  {
    var d := Decimal(n);
    DecimalValue(n);
    MagnitudeOfNumeral(d);
    assert IsDigit(d[0], 10) && TrimStart(d) == d;
    ReadUnsigned(d, d, n);
    var m := "-" + d;
    assert m[0] == '-' && TrimStart(m) == m && m == ['-'] + d;
    ReadSigned(m, '-', d, n);
  }

  // ----- The trigger guard -----

  /** What `parseInt` is given for a missing attribute: `undefined`, converted to a string. */
  const MissingAttribute: string := "undefined"

  /** A missing attribute parses to NaN. */
  lemma MissingIsNaN()
    ensures ParseInt(MissingAttribute) == None
  {
    var u := MissingAttribute;
    assert u[0] == 'u' && !IsSpace(u[0]) && !IsDigit(u[0], 10);
    assert TrimStart(u) == u;
  }

  /** `parseInt(counter.dataset.count)`: NaN when the attribute is missing. */
  function Target(count: Option<string>): (t: Option<int>)
    ensures t == ParseInt(count.GetOr(MissingAttribute))
    ensures count.None? ==> t.None?
  {
    MissingIsNaN();
    match count
    case None => None
    case Some(c) => ParseInt(c)
  }

  /** The parsed target of every counter. */
  function Targets(counts: seq<Option<string>>): (ts: seq<Option<int>>)
    ensures |ts| == |counts|
  {
    seq(|counts|, i requires 0 <= i < |counts| => Target(counts[i]))
  }

  /** `!target` is false: the parse gave a number other than 0. */
  predicate Truthy(t: Option<int>)
    // NaN and 0 are the only falsy results of a parse
    ensures !Truthy(t) <==> t == None || t == Some(0)
  {
    t.Some? && t.value != 0
  }

  /** A counter whose `data-count` is a decimal number is started exactly when that number is not 0. */
  lemma DecimalCounterStarts(n: nat)
    ensures Truthy(Target(Some(Decimal(n)))) <==> n != 0
  {
    ParseDecimal(n);
  }

  /** Counter `i` is started by the next call: not yet marked, and a non-zero target. */
  predicate Starts(animated: seq<bool>, targets: seq<Option<int>>, i: nat)
    requires i < |animated| == |targets|
    ensures Starts(animated, targets, i) <==> !animated[i] && targets[i] != None && targets[i] != Some(0)
  {
    !animated[i] && Truthy(targets[i])
  }

  /** One started count-up animation. */
  datatype Animation = Animation(counter: nat, target: int)

  /** The animations one call starts among the first `n` counters, in document order. */
  function Started(animated: seq<bool>, targets: seq<Option<int>>, n: nat): (s: seq<Animation>)
    requires n <= |animated| == |targets|
    ensures |s| <= n
    ensures forall k :: 0 <= k < |s| ==> s[k].counter < n && Starts(animated, targets, s[k].counter)
    decreases n
  {
    if n == 0 then []
    else if Starts(animated, targets, n - 1) then
      Started(animated, targets, n - 1) + [Animation(n - 1, targets[n - 1].value)]
    else Started(animated, targets, n - 1)
  }

  /** Every counter that qualifies is started, with its parsed target. */
  lemma {:induction false} StartedAll(animated: seq<bool>, targets: seq<Option<int>>, n: nat)
    requires n <= |animated| == |targets|
    ensures forall i :: 0 <= i < n && Starts(animated, targets, i) ==>
      Animation(i, targets[i].value) in Started(animated, targets, n)
    decreases n
  {
    if n > 0 {
      StartedAll(animated, targets, n - 1);
      var prev := Started(animated, targets, n - 1);
      assert forall a :: a in prev ==> a in Started(animated, targets, n);
    }
  }

  /** Counters appear in increasing document order: none appears twice. */
  predicate InDocumentOrder(s: seq<Animation>) {
    forall j, k :: 0 <= j < k < |s| ==> s[j].counter < s[k].counter
  }

  /** Each animation runs towards its own counter's parsed target. */
  predicate OwnTargets(s: seq<Animation>, targets: seq<Option<int>>) {
    forall k :: 0 <= k < |s| ==> s[k].counter < |targets| && targets[s[k].counter] == Some(s[k].target)
  }

  /** Animations are started in document order, so no counter is started twice in one call, and each with its own target. */
  lemma {:induction false} StartedInOrder(animated: seq<bool>, targets: seq<Option<int>>, n: nat)
    requires n <= |animated| == |targets|
    ensures InDocumentOrder(Started(animated, targets, n))
    ensures OwnTargets(Started(animated, targets, n), targets)
    decreases n
  {
    if n > 0 {
      StartedInOrder(animated, targets, n - 1);
      var prev := Started(animated, targets, n - 1);
      if Starts(animated, targets, n - 1) {
        var s := prev + [Animation(n - 1, targets[n - 1].value)];
        assert Started(animated, targets, n) == s;
        forall j, k | 0 <= j < k < |s| ensures s[j].counter < s[k].counter {
          assert s[j] == prev[j];
          if k < |prev| { assert s[k] == prev[k]; }
        }
        forall k | 0 <= k < |s| ensures s[k].counter < |targets| && targets[s[k].counter] == Some(s[k].target) {
          if k < |prev| { assert s[k] == prev[k]; }
        }
      }
    }
  }

  /** The marks after a call: every started counter is marked; marks are never removed. */
  function Marked(animated: seq<bool>, targets: seq<Option<int>>): (r: seq<bool>)
    requires |animated| == |targets|
    ensures |r| == |animated|
    ensures forall i :: 0 <= i < |r| ==> r[i] == (animated[i] || Truthy(targets[i]))
  {
    seq(|animated|, i requires 0 <= i < |animated| => animated[i] || Starts(animated, targets, i))
  }

  lemma {:induction false} NothingStarts(animated: seq<bool>, targets: seq<Option<int>>, n: nat)
    requires n <= |animated| == |targets|
    requires forall i :: 0 <= i < n ==> !Starts(animated, targets, i)
    ensures Started(animated, targets, n) == []
    decreases n
  {
    if n > 0 {
      NothingStarts(animated, targets, n - 1);
    }
  }

  /** A second call right after a first starts nothing: each counter is animated at most once. */
  lemma SecondCallStartsNothing(animated: seq<bool>, targets: seq<Option<int>>)
    requires |animated| == |targets|
    ensures Started(Marked(animated, targets), targets, |targets|) == []
  {
    NothingStarts(Marked(animated, targets), targets, |targets|);
  }

  /** Parses every counter's `data-count`, in document order. */
  method ReadTargets(counts: seq<Option<string>>) returns (targets: seq<Option<int>>)
    ensures targets == Targets(counts)
  {
    targets := [];
    for i := 0 to |counts|
      invariant |targets| == i
      invariant forall j :: 0 <= j < i ==> targets[j] == Target(counts[j])
    {
      targets := targets + [Target(counts[i])];
    }
  }

  /** The loop of `animateCounters()` once each counter's target is known. */
  method StartCounters(animated: array<bool>, targets: seq<Option<int>>) returns (started: seq<Animation>)
    requires animated.Length == |targets|
    modifies animated
    ensures started == Started(old(animated[..]), targets, |targets|)
    ensures animated[..] == Marked(old(animated[..]), targets)
  {
    ghost var before := animated[..];
    started := [];
    var i := 0;
    while i < animated.Length
      invariant 0 <= i <= animated.Length
      invariant started == Started(before, targets, i)
      invariant forall k :: 0 <= k < i ==> animated[k] == (before[k] || Truthy(targets[k]))
      invariant forall k :: i <= k < animated.Length ==> animated[k] == before[k]
    {
      if !animated[i] && Truthy(targets[i]) {
        animated[i] := true;
        started := started + [Animation(i, targets[i].value)];
      }
      i := i + 1;
    }
    ghost var marked := Marked(before, targets);
    assert forall k :: 0 <= k < |marked| ==> animated[..][k] == marked[k];
  }

  /**
   * `animateCounters()` over the counters on the page, in document order;
   * `counts` are their `data-count` attributes. Parsing has no side effect,
   * so parsing every attribute before the loop starts the same animations.
   */
  method AnimateCounters(animated: array<bool>, counts: seq<Option<string>>) returns (started: seq<Animation>)
    requires animated.Length == |counts|
    modifies animated
    ensures started == Started(old(animated[..]), Targets(counts), |counts|)
    ensures animated[..] == Marked(old(animated[..]), Targets(counts))
  {
    var targets := ReadTargets(counts);
    started := StartCounters(animated, targets);
  }

  // ----- One animation frame -----

  /** What one frame shows, and whether another frame is requested. */
  datatype Frame = Frame(shown: int, again: bool)

  /**
   * The frame `elapsed` ms after the first one. `eased` is
   * `Math.floor((1 - (1 - p)^3) * target)`, computed in floating point.
   */
  function CounterFrame(target: int, elapsed: int, eased: int): (f: Frame)
    ensures f.again <==> elapsed < Duration
    ensures !f.again ==> f.shown == target
  {
    if elapsed < Duration then Frame(eased, true) else Frame(target, false)
  }
}
