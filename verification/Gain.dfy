/** `peakNormalize` of audio-addon/src/pcm-wav.ts: per-window gain, in exact rationals. */
module Gain {
  import opened Arithmetic
  import opened PcmWav

  const MAX_GAIN := 64.0
  const TARGET_PEAK := 16383.5
  const WINDOW_SECONDS := 5

  function Abs(x: int): (r: nat) {
    if x < 0 then -x else x
  }

  function Max(a: int, b: int): (r: int) {
    if a < b then b else a
  }

  function WindowSize(sampleRate: nat): (n: nat)
    ensures n > 0
  {
    Max(1, sampleRate * WINDOW_SECONDS)
  }

  /** The largest magnitude of a window. */
  function Peak(w: seq<Sample>): (p: nat)
    ensures p <= 32768
  {
    if w == [] then 0 else Max(Peak(w[..|w| - 1]), Abs(w[|w| - 1]))
  }

  lemma {:induction false} PeakIsMax(w: seq<Sample>)
    ensures forall s <- w :: Abs(s) <= Peak(w)
    ensures w != [] ==> exists s <- w :: Abs(s) == Peak(w)
    decreases |w|
  {
    if w != [] {
      var n := |w| - 1;
      PeakIsMax(w[..n]);
      assert w == w[..n] + [w[n]];
      if Abs(w[n]) < Peak(w[..n]) {
        var s :| s in w[..n] && Abs(s) == Peak(w[..n]);
        assert s in w && Abs(s) == Peak(w);
      } else {
        assert w[n] in w && Abs(w[n]) == Peak(w);
      }
    }
  }

  lemma PeakFrom(w: seq<Sample>, p: nat)
    requires forall s <- w :: Abs(s) <= p
    requires w != [] ==> exists s <- w :: Abs(s) == p
    requires w == [] ==> p == 0
    ensures Peak(w) == p
  {
    PeakIsMax(w);
  }

  // ---- one sample ----

  /** The sample a gain turns `s` into when its window's peak is `p`. */
  function Amplified(s: int, p: nat): (r: int) {
    if p == 0 || p >= 16384 then s
    else if p <= 255 then 64 * s
    else (s * 32767 + p) / (2 * p)
  }

  function GainOf(p: nat): (r: real)
    requires p > 0
  {
    if MAX_GAIN < TARGET_PEAK / p as real then MAX_GAIN else TARGET_PEAK / p as real
  }

  /** Dividing: `q` is the largest integer whose multiple by `d` is no more than `n`. */
  lemma Quotient(n: int, d: int, q: int)
    requires d > 0 && q * d <= n < q * d + d
    ensures n / d == q
  {
    var r := n - q * d;
    assert n / d * d + n % d == q * d + r;
    if n / d < q {
      Times(n / d + 1, q, d);
    } else if q < n / d {
      Times(q + 1, n / d, d);
    }
  }

  lemma FloorIs(x: real, q: int)
    requires q as real <= x < q as real + 1.0
    ensures x.Floor == q
  {
  }

  /** The gain is over one exactly for peaks under half of full scale, and capped exactly for peaks up to 255. */
  lemma GainCases(p: nat)
    requires p > 0
    ensures GainOf(p) <= 1.0 <==> p >= 16384
    ensures GainOf(p) == MAX_GAIN <==> p <= 255
    ensures p > 255 ==> GainOf(p) == TARGET_PEAK / p as real
  {
    var q := TARGET_PEAK / p as real;
    assert q * p as real == TARGET_PEAK;
    if p <= 255 {
      assert MAX_GAIN * p as real <= MAX_GAIN * 255.0;
      if q < MAX_GAIN { RealTimes(q, MAX_GAIN, p as real); }
    } else if p < 16384 {
      assert MAX_GAIN * p as real >= MAX_GAIN * 256.0;
      if q >= MAX_GAIN { RealTimes(MAX_GAIN, q, p as real); }
      if q <= 1.0 { RealTimes(q, 1.0, p as real); }
    } else {
      assert MAX_GAIN * p as real >= MAX_GAIN * 256.0;
      if q >= MAX_GAIN { RealTimes(MAX_GAIN, q, p as real); }
      if q > 1.0 { RealTimes(1.0, q, p as real); }
    }
  }

  /** The rounded product in integers: halves round up, whatever the sign. */
  lemma AmplifiedIsRounded(s: int, p: nat)
    requires 0 < p < 16384
    ensures (s as real * GainOf(p) + 0.5).Floor == Amplified(s, p)
  {
    GainCases(p);
    if p <= 255 {
      FloorIs(s as real * MAX_GAIN + 0.5, 64 * s);
    } else {
      var n, d := s * 32767 + p, 2 * p;
      var q, x := n / d, s as real * GainOf(p) + 0.5;
      assert q * d + n % d == n;
      ScaledProduct(s, p);
      assert x * d as real == n as real;
      if x < q as real { RealTimes(x, q as real, d as real); }
      if x >= q as real + 1.0 { RealTimes(q as real + 1.0, x, d as real); }
      FloorIs(x, q);
    }
  }

  lemma ScaledProduct(s: int, p: nat)
    requires p > 0
    ensures (s as real * (TARGET_PEAK / p as real) + 0.5) * (2 * p) as real == (s * 32767 + p) as real
  {
    var g, r, k := TARGET_PEAK / p as real, s as real, p as real;
    assert g * k == TARGET_PEAK;
    calc {
      (r * g + 0.5) * (2.0 * k);
      2.0 * (r * (g * k)) + k;
      2.0 * (r * TARGET_PEAK) + k;
      r * 32767.0 + k;
    }
  }

  // ---- what amplifying keeps ----

  lemma AmplifiedBounds(s: int, p: nat, q: int)
    requires 256 <= p < 16384 && q == Amplified(s, p)
    ensures q * (2 * p) <= s * 32767 + p < q * (2 * p) + 2 * p
  {
    assert (s * 32767 + p) / (2 * p) * (2 * p) + (s * 32767 + p) % (2 * p) == s * 32767 + p;
  }

  /** An amplified sample is no quieter than before and at most 64 times as loud, keeps its sign, and never
      reaches the clamp. */
  lemma AmplifiedLevel(s: int, p: nat)
    requires 0 < p < 16384 && -(p as int) <= s <= p
    ensures -16383 <= Amplified(s, p) <= 16384
    ensures Abs(s) <= Abs(Amplified(s, p)) <= 64 * Abs(s)
    ensures (s > 0 <==> Amplified(s, p) > 0) && (s < 0 <==> Amplified(s, p) < 0)
  {
    if p > 255 {
      hide Amplified;
      AmplifiedPeak(p);
      if s < p { AmplifiedOrder(s, p, p); }
      if -(p as int) < s { AmplifiedOrder(-(p as int), s, p); }
      AmplifiedLouder(s, p);
    }
  }

  lemma AmplifiedLouder(s: int, p: nat)
    requires 256 <= p < 16384
    ensures s >= 0 ==> s <= Amplified(s, p) <= 64 * s
    ensures s < 0 ==> 64 * s <= Amplified(s, p) <= s
  {
    hide Amplified;
    var q, d := Amplified(s, p), 2 * p;
    AmplifiedBounds(s, p, q);
    Products(s, p);
    if s >= 0 {
      if q < s { Times(q, s - 1, d); }
      if q > 64 * s { Times(64 * s + 1, q, d); }
    } else {
      if q > s { Times(s + 1, q, d); }
      if q < 64 * s { Times(q, 64 * s - 1, d); }
    }
  }

  /** The gain lies between one and 64. */
  lemma Products(s: int, p: nat)
    requires 256 <= p < 16384
    ensures s >= 0 ==> s * (2 * p) <= s * 32767 <= s * (128 * p)
    ensures s < 0 ==> s * (128 * p) <= s * 32767 <= s * (2 * p)
    ensures 64 * s * (2 * p) == s * (128 * p)
  {
    if s >= 0 {
      Times(2 * p, 32767, s);
      Times(32767, 128 * p, s);
    } else {
      Times(2 * p, 32767, -s);
      Times(32767, 128 * p, -s);
    }
  }

  /** Louder stays louder. */
  lemma AmplifiedOrder(s: int, t: int, p: nat)
    requires s < t
    ensures Amplified(s, p) < Amplified(t, p)
  {
    if 255 < p < 16384 {
      var q, r, d := Amplified(s, p), Amplified(t, p), 2 * p;
      AmplifiedBounds(s, p, q);
      AmplifiedBounds(t, p, r);
      if r <= q { Times(r, q, d); }
    }
  }

  /** The loudest samples of an amplified window come out at half of full scale. */
  lemma AmplifiedPeak(p: nat)
    requires 256 <= p < 16384
    ensures Amplified(p, p) == 16384 && Amplified(-(p as int), p) == -16383
  {
    Quotient(p * 32767 + p, 2 * p, 16384);
    Quotient(-(p as int) * 32767 + p, 2 * p, -16383);
  }

  /** Everything below a positive peak comes out at least two steps below it. */
  lemma AmplifiedBelowPeak(s: int, p: nat)
    requires 256 <= p < 16384 && s < p
    ensures Amplified(s, p) <= 16382
  {
    var q := Amplified(s, p);
    AmplifiedBounds(s, p, q);
    if q >= 16383 { Times(16383, q, 2 * p); }
  }

  // ---- one window ----

  function Boost(w: seq<Sample>): (r: seq<Sample>)
    ensures |r| == |w|
  {
    seq(|w|, i requires 0 <= i < |w| => BoostedSample(w, i))
  }

  function BoostedSample(w: seq<Sample>, i: nat): (r: Sample)
    requires i < |w|
  {
    InRange(w, i);
    Amplified(w[i], Peak(w))
  }

  lemma InRange(w: seq<Sample>, i: nat)
    requires i < |w|
    ensures -(Peak(w) as int) <= w[i] <= Peak(w)
    ensures 0 < Peak(w) < 16384 ==> -16383 <= Amplified(w[i], Peak(w)) <= 16384
    ensures -32768 <= Amplified(w[i], Peak(w)) <= 32767
  {
    hide Amplified;
    PeakIsMax(w);
    assert w[i] in w;
    if 0 < Peak(w) < 16384 {
      AmplifiedLevel(w[i], Peak(w));
    } else {
      Unamplified(w[i], Peak(w));
    }
  }

  lemma Unamplified(s: int, p: nat)
    requires p == 0 || p >= 16384
    ensures Amplified(s, p) == s
  {
  }

  /** A window's peak once it has been boosted. */
  lemma BoostedPeak(w: seq<Sample>)
    ensures var p, p' := Peak(w), Peak(Boost(w));
            && (p == 0 || p >= 16384 ==> p' == p)
            && (0 < p <= 255 ==> p' == 64 * p)
            && (255 < p < 16384 ==> p' == if p as int in w then 16384 else 16383)
  {
    hide Amplified, Peak;
    var p, r := Peak(w), Boost(w);
    PeakIsMax(w);
    if p == 0 || p >= 16384 {
      forall i | 0 <= i < |w| ensures r[i] == w[i] { Unamplified(w[i], p); }
      assert r == w;
    } else {
      PeakIsMax([]);
      EmptyPeak();
      var s :| s in w && Abs(s) == p;
      var k :| 0 <= k < |w| && w[k] == s;
      var p' := if p <= 255 then 64 * p else if p as int in w then 16384 else 16383;
      forall i | 0 <= i < |w|
        ensures Abs(r[i]) <= p'
      {
        assert w[i] in w;
        BoostedMagnitude(w[i], p, p as int in w);
      }
      if p as int in w {
        k :| 0 <= k < |w| && w[k] == p as int;
      }
      BoostedMagnitude(w[k], p, p as int in w);
      assert Abs(r[k]) == p' && r[k] in r;
      PeakFrom(r, p');
    }
  }

  lemma EmptyPeak()
    ensures Peak([]) == 0
  {
  }

  lemma BoostedMagnitude(s: int, p: nat, hasPositive: bool)
    requires 0 < p < 16384 && -(p as int) <= s <= p && (s == p ==> hasPositive)
    ensures var p' := if p <= 255 then 64 * p else if hasPositive then 16384 else 16383;
            && Abs(Amplified(s, p)) <= p'
            && ((s == p || (s == -(p as int) && (!hasPositive || p <= 255))) ==> Abs(Amplified(s, p)) == p')
  {
    if p > 255 {
      hide Amplified;
      AmplifiedPeak(p);
      AmplifiedLevel(s, p);
      if s < p { AmplifiedBelowPeak(s, p); }
    }
  }

  /** Boosting a boosted window again changes nothing exactly when its own peak was zero or at least 256. */
  lemma BoostSettles(w: seq<Sample>)
    ensures Boost(Boost(w)) == Boost(w) <==> Peak(w) == 0 || Peak(w) >= 256
  {
    hide Amplified, Peak;
    var p, r := Peak(w), Boost(w);
    BoostedPeak(w);
    BoostedPeak(r);
    if p == 0 || p >= 256 {
      forall i | 0 <= i < |w|
        ensures Boost(r)[i] == r[i]
      {
        InRange(w, i);
        if Peak(r) == 16383 {
          assert w[i] in w;
          AmplifiedBelowPeak(w[i], p);
          SettledSample(r[i]);
        } else {
          Unamplified(r[i], Peak(r));
        }
      }
    } else {
      assert Peak(Boost(r)) != Peak(r);
    }
  }

  lemma SettledSample(t: int)
    requires -16383 <= t <= 16382
    ensures Amplified(t, 16383) == t
  {
  }

  // ---- a whole recording ----

  function Normalized(s: seq<Sample>, n: nat): (r: seq<Sample>)
    requires n > 0
    ensures |r| == |s|
  {
    if |s| <= n then Boost(s) else Boost(s[..n]) + Normalized(s[n..], n)
  }

  /** The peaks of the windows, in order. */
  function Peaks(s: seq<Sample>, n: nat): (r: seq<nat>)
    requires n > 0
  {
    if |s| <= n then [Peak(s)] else [Peak(s[..n])] + Peaks(s[n..], n)
  }

  lemma NormalizedCut(a: seq<Sample>, b: seq<Sample>, n: nat)
    requires |a| == n > 0 && b != []
    ensures Normalized(a + b, n) == Boost(a) + Normalized(b, n)
  {
    assert (a + b)[..n] == a && (a + b)[n..] == b;
  }

  /** Every peak is zero or at least `m`. */
  predicate SilentOrOver(ps: seq<nat>, m: nat) {
    forall p <- ps :: p == 0 || p >= m
  }

  /** A second pass changes nothing exactly when every window's peak was zero or at least 256. */
  lemma {:induction false} SecondPass(s: seq<Sample>, n: nat)
    requires n > 0
    ensures var once := Normalized(s, n);
            Normalized(once, n) == once <==> SilentOrOver(Peaks(s, n), 256)
    decreases |s|
  {
    hide Boost, Peak, SilentOrOver;
    if |s| <= n {
      BoostSettles(s);
      assert Peaks(s, n) == [Peak(s)] + [];
      HeadOrTail(Peak(s), []);
    } else {
      var a, rest := Boost(s[..n]), Normalized(s[n..], n);
      BoostSettles(s[..n]);
      SecondPass(s[n..], n);
      NormalizedCut(a, rest, n);
      Halves(Boost(a), Normalized(rest, n), a, rest);
      HeadOrTail(Peak(s[..n]), Peaks(s[n..], n));
    }
  }

  lemma Halves(a: seq<Sample>, b: seq<Sample>, a': seq<Sample>, b': seq<Sample>)
    requires |a| == |a'|
    ensures a + b == a' + b' <==> a == a' && b == b'
  {
    if a + b == a' + b' {
      assert a == (a + b)[..|a|] && b == (a + b)[|a|..] && a' == (a' + b')[..|a|] && b' == (a' + b')[|a|..];
    }
  }

  lemma HeadOrTail(p: nat, ps: seq<nat>)
    ensures SilentOrOver([p] + ps, 256) <==> (p == 0 || p >= 256) && SilentOrOver(ps, 256)
    ensures SilentOrOver([], 256)
  {
    assert forall q :: q in [p] + ps <==> q == p || q in ps;
    if SilentOrOver([p] + ps, 256) {
      assert p in [p] + ps;
      forall q | q in ps ensures q == 0 || q >= 256 { assert q in [p] + ps; }
    }
  }

  /** The peaks after a pass, as far as they decide the next passes. */
  lemma PeaksApart(a: seq<Sample>, rest: seq<Sample>, n: nat)
    requires n > 0 && |a| == n && rest != []
    ensures Peaks(a + rest, n) == [Peak(a)] + Peaks(rest, n)
  {
    hide Peak;
    assert (a + rest)[..n] == a && (a + rest)[n..] == rest;
  }

  lemma {:induction false} PeaksAfter(s: seq<Sample>, n: nat)
    requires n > 0
    ensures var ps, qs := Peaks(s, n), Peaks(Normalized(s, n), n);
            |ps| == |qs| && forall i | 0 <= i < |ps| :: if ps[i] <= 255 then qs[i] == 64 * ps[i] else qs[i] >= 256
    decreases |s|
  {
    hide Boost, Peak;
    if |s| <= n {
      BoostedPeak(s);
    } else {
      BoostedPeak(s[..n]);
      PeaksAfter(s[n..], n);
      PeaksApart(Boost(s[..n]), Normalized(s[n..], n), n);
    }
  }

  /** A third pass changes nothing exactly when no window's peak was one, two or three. */
  lemma ThirdPass(s: seq<Sample>, n: nat)
    requires n > 0
    ensures var twice := Normalized(Normalized(s, n), n);
            Normalized(twice, n) == twice <==> SilentOrOver(Peaks(s, n), 4)
  {
    hide Normalized, Peaks;
    var ps, qs := Peaks(s, n), Peaks(Normalized(s, n), n);
    PeaksAfter(s, n);
    SecondPass(Normalized(s, n), n);
    if q :| q in qs && !(q == 0 || q >= 256) {
      var i :| 0 <= i < |qs| && qs[i] == q;
      assert ps[i] in ps;
    }
    if p :| p in ps && !(p == 0 || p >= 4) {
      var i :| 0 <= i < |ps| && ps[i] == p;
      assert qs[i] in qs;
    }
  }

  /** After three passes nothing ever changes again. */
  lemma FourthPass(s: seq<Sample>, n: nat)
    requires n > 0
    ensures var thrice := Normalized(Normalized(Normalized(s, n), n), n);
            Normalized(thrice, n) == thrice
  {
    hide Normalized, Peaks;
    var once := Normalized(s, n);
    var ps, qs := Peaks(s, n), Peaks(once, n);
    PeaksAfter(s, n);
    ThirdPass(once, n);
    forall q | q in qs
      ensures q == 0 || q >= 4
    {
      var i :| 0 <= i < |qs| && qs[i] == q;
      assert qs[i] == 64 * ps[i] || qs[i] >= 256;
    }
  }

  /** Where the window of position `i` starts. */
  function WindowStart(n: nat, i: nat): (start: nat)
    requires n > 0
  {
    i / n * n
  }

  lemma StartWithin(n: nat, i: nat)
    requires n > 0
    ensures WindowStart(n, i) <= i < WindowStart(n, i) + n
  {
    assert i / n * n + i % n == i;
  }

  lemma StartCases(n: nat, i: nat)
    requires n > 0
    ensures i < n ==> WindowStart(n, i) == 0
    ensures i >= n ==> WindowStart(n, i) == WindowStart(n, i - n) + n
  {
    if i < n {
      Quotient(i, n, 0);
    } else {
      StartWithin(n, i - n);
      Quotient(i, n, (i - n) / n + 1);
    }
  }

  /** The window a sample belongs to. */
  function WindowOf(s: seq<Sample>, n: nat, i: nat): (r: seq<Sample>)
    requires n > 0 && i < |s|
  {
    StartWithin(n, i);
    var start := WindowStart(n, i);
    s[start..if start + n < |s| then start + n else |s|]
  }

  /** Every output sample is its input sample under the gain of its own window. */
  lemma {:induction false} NormalizedAt(s: seq<Sample>, n: nat, i: nat)
    requires n > 0 && i < |s|
    ensures s[i] in WindowOf(s, n, i)
    ensures Normalized(s, n)[i] == Amplified(s[i], Peak(WindowOf(s, n, i)))
    decreases |s|
  {
    hide Amplified, Peak, WindowOf, Normalized, Boost;
    if i < n {
      FirstWindow(s, n, i);
      var w := if |s| <= n then s else s[..n];
      assert w[i] == s[i];
      BoostAt(w, i);
      NormalizedFirst(s, n, i);
    } else {
      NormalizedAt(s[n..], n, i - n);
      LaterWindow(s, n, i);
      NormalizedLater(s, n, i);
      assert s[n..][i - n] == s[i];
    }
  }

  lemma BoostAt(w: seq<Sample>, i: nat)
    requires i < |w|
    ensures Boost(w)[i] == Amplified(w[i], Peak(w))
  {
    hide Amplified, Peak;
  }

  lemma NormalizedFirst(s: seq<Sample>, n: nat, i: nat)
    requires n > 0 && i < |s| && i < n
    ensures Normalized(s, n)[i] == Boost(if |s| <= n then s else s[..n])[i]
  {
    hide Boost;
  }

  lemma NormalizedLater(s: seq<Sample>, n: nat, i: nat)
    requires n > 0 && n <= i < |s|
    ensures Normalized(s, n)[i] == Normalized(s[n..], n)[i - n]
  {
    hide Boost;
  }

  lemma FirstWindow(s: seq<Sample>, n: nat, i: nat)
    requires n > 0 && i < |s| && i < n
    ensures WindowOf(s, n, i) == if |s| <= n then s else s[..n]
  {
    hide WindowStart;
    StartCases(n, i);
  }

  lemma LaterWindow(s: seq<Sample>, n: nat, i: nat)
    requires n > 0 && n <= i < |s|
    ensures WindowOf(s, n, i) == WindowOf(s[n..], n, i - n)
  {
    hide WindowStart;
    StartCases(n, i);
    StartWithin(n, i - n);
    var start, rest := WindowStart(n, i - n), s[n..];
    var end := if start + n < |rest| then start + n else |rest|;
    SameSlice(s, n, start, end);
  }

  lemma SameSlice(s: seq<Sample>, n: nat, start: nat, end: nat)
    requires n <= |s| && start <= end <= |s| - n
    ensures s[n..][start..end] == s[n + start..n + end]
  {
  }

  /** What a pass does to every sample of every recording. */
  lemma Loudness(s: seq<Sample>, n: nat, i: nat)
    requires n > 0 && i < |s|
    ensures var x: int, y: int, p := s[i], Normalized(s, n)[i], Peak(WindowOf(s, n, i));
            && Abs(x) <= Abs(y) <= 64 * Abs(x)
            && (x > 0 <==> y > 0) && (x < 0 <==> y < 0)
            && (if p >= 16384 then y == x else -16383 <= y <= 16384)
            && (p <= 255 ==> y == 64 * x)
  {
    hide Peak;
    NormalizedAt(s, n, i);
    PeakIsMax(WindowOf(s, n, i));
    var p := Peak(WindowOf(s, n, i));
    if 0 < p < 16384 { AmplifiedLevel(s[i], p); }
  }

  /** Within one window the order of samples is kept. */
  lemma OrderKept(s: seq<Sample>, n: nat, i: nat, j: nat)
    requires n > 0 && i < |s| && j < |s| && i / n == j / n
    ensures s[i] < s[j] <==> Normalized(s, n)[i] < Normalized(s, n)[j]
  {
    hide Amplified, Peak;
    NormalizedAt(s, n, i);
    NormalizedAt(s, n, j);
    var p := Peak(WindowOf(s, n, i));
    assert WindowOf(s, n, i) == WindowOf(s, n, j);
    if s[i] < s[j] { AmplifiedOrder(s[i], s[j], p); }
    if s[j] < s[i] { AmplifiedOrder(s[j], s[i], p); }
  }

  // ---- five seconds at a time ----

  /** Two samples lie in the same stretch of five seconds, counted from the start of the recording. */
  predicate SameStretch(rate: nat, i: nat, j: nat)
    requires rate > 0
  {
    (i as real / rate as real / 5.0).Floor == (j as real / rate as real / 5.0).Floor
  }

  /** The loudest of the samples in the stretch of sample `i`. */
  predicate IsStretchPeak(wav: Wav, i: nat, p: nat)
    requires wav.sampleRate > 0
  {
    && (forall j: nat | j < |wav.samples| && SameStretch(wav.sampleRate, i, j) :: Abs(wav.samples[j]) <= p)
    && (exists j: nat :: j < |wav.samples| && SameStretch(wav.sampleRate, i, j) && Abs(wav.samples[j]) == p)
  }

  lemma StretchNumber(rate: nat, i: nat)
    requires rate > 0
    ensures (i as real / rate as real / 5.0).Floor == i / (5 * rate)
  {
    var n := 5 * rate;
    var x, q, r := i as real / rate as real / 5.0, i / n, i % n;
    assert i == q * n + r;
    assert x * 5.0 * rate as real == i as real;
    assert (q * n) as real == q as real * 5.0 * rate as real;
    QuotientBounds(x, rate as real, q as real, r as real);
  }

  lemma QuotientBounds(x: real, rate: real, q: real, r: real)
    requires rate > 0.0 && 0.0 <= r < 5.0 * rate && x * 5.0 * rate == q * 5.0 * rate + r
    ensures q <= x < q + 1.0
  {
    var y, n := x - q, 5.0 * rate;
    assert y * n == r;
    if y < 0.0 { Scaled(-y, 0.0, n); }
    if y >= 1.0 { Scaled(y, 1.0, n); }
  }

  lemma Scaled(y: real, least: real, n: real)
    requires n > 0.0 && y >= least
    ensures y * n >= least * n
    ensures y > least ==> y * n > least * n
  {
    assert (y - least) * n >= 0.0;
    assert y > least ==> (y - least) * n > 0.0;
  }

  lemma InWindow(n: nat, i: nat, j: nat)
    requires n > 0
    ensures i / n == j / n <==> WindowStart(n, i) <= j < WindowStart(n, i) + n
  {
    StartWithin(n, i);
    StartWithin(n, j);
    if WindowStart(n, i) <= j < WindowStart(n, i) + n { Quotient(j, n, i / n); }
  }

  /** Each sample of the normalized recording is its input sample under the gain of the loudest sample in the same five
      seconds, and of nothing else. */
  lemma FiveSecondGain(wav: Wav, i: nat) returns (p: nat)
    requires wav.sampleRate > 0 && i < |wav.samples|
    ensures IsStretchPeak(wav, i, p)
    ensures Normalized(wav.samples, WindowSize(wav.sampleRate))[i] == Amplified(wav.samples[i], p)
  {
    hide Amplified, Peak, WindowOf, WindowStart, Normalized, SameStretch;
    var s, rate, n := wav.samples, wav.sampleRate, 5 * wav.sampleRate;
    var w := WindowOf(s, n, i);
    p := Peak(w);
    NormalizedAt(s, n, i);
    PeakIsMax(w);
    forall j: nat | j < |s|
      ensures SameStretch(rate, i, j) <==> WindowStart(n, i) <= j < WindowStart(n, i) + n
    {
      StretchIsWindow(rate, i, j);
    }
    WindowHolds(s, n, i);
    var loud :| loud in w && Abs(loud) == p;
    var k :| 0 <= k < |w| && w[k] == loud;
    assert s[WindowStart(n, i) + k] == loud;
  }

  lemma StretchIsWindow(rate: nat, i: nat, j: nat)
    requires rate > 0
    ensures SameStretch(rate, i, j) <==> WindowStart(5 * rate, i) <= j < WindowStart(5 * rate, i) + 5 * rate
  {
    hide WindowStart;
    StretchNumber(rate, i);
    StretchNumber(rate, j);
    InWindow(5 * rate, i, j);
  }

  lemma WindowHolds(s: seq<Sample>, n: nat, i: nat)
    requires n > 0 && i < |s|
    ensures var w, start := WindowOf(s, n, i), WindowStart(n, i);
            && (forall k | 0 <= k < |w| :: start + k < |s| && k < n && w[k] == s[start + k])
            && (forall j | start <= j < |s| && j < start + n :: s[j] in w)
  {
    hide WindowStart;
    StartWithin(n, i);
    var w, start := WindowOf(s, n, i), WindowStart(n, i);
    forall j | start <= j < |s| && j < start + n ensures s[j] in w {
      assert w[j - start] == s[j];
    }
  }

  // ---- the code ----

  method FindPeak(samples: seq<Sample>, start: nat, end: nat) returns (peak: nat)
    requires start <= end <= |samples|
    ensures peak == Peak(samples[start..end])
  {
    peak := 0;
    for i := start to end
      invariant peak == Peak(samples[start..i])
    {
      assert samples[start..i + 1][..i - start] == samples[start..i];
      peak := Max(peak, Abs(samples[i]));
    }
  }

  /** The three ways of filling one window of the output. */
  method FillWindow(samples: seq<Sample>, start: nat, end: nat, out: array<Sample>)
    requires start <= end <= |samples| == out.Length
    modifies out
    ensures out[..end] == old(out[..start]) + Boost(samples[start..end])
  {
    hide Amplified, Peak, GainOf, Boost;
    ghost var w := samples[start..end];
    var peak := FindPeak(samples, start, end);
    var gain := if peak == 0 then 1.0 else GainOf(peak);
    if peak > 0 { GainCases(peak); }
    for i := start to end
      invariant out[..i] == old(out[..start]) + Boost(w)[..i - start]
    {
      InRange(w, i - start);
      BoostAt(w, i - start);
      if gain <= 1.0 {
        if peak == 0 { out[i] := 0; } else { out[i] := samples[i]; }
        Unamplified(samples[i], peak);
      } else {
        AmplifiedIsRounded(samples[i], peak);
        var scaled := samples[i] as real * gain;
        var rounded := (scaled + 0.5).Floor;
        out[i] := Max(-32768, if rounded < 32767 then rounded else 32767);
      }
      assert out[i] == Boost(w)[i - start];
      assert out[..i + 1] == out[..i] + [out[i]];
    }
    assert Boost(w)[..end - start] == Boost(w);
  }

  function Min(a: nat, b: nat): (r: nat) {
    if a < b then a else b
  }

  lemma NextWindow(samples: seq<Sample>, start: nat, n: nat)
    requires n > 0 && start < |samples|
    ensures var end := Min(|samples|, start + n);
            Normalized(samples[start..], n) == Boost(samples[start..end]) + Normalized(samples[end..], n)
  {
    hide Boost;
    var rest, end := samples[start..], Min(|samples|, start + n);
    NothingBoosted();
    if |rest| <= n {
      assert samples[start..end] == rest && samples[end..] == [];
      assert Boost(rest) + [] == Boost(rest);
    } else {
      assert rest[..n] == samples[start..end] && rest[n..] == samples[end..];
    }
  }

  lemma NothingBoosted()
    ensures Boost([]) == []
  {
  }

  /** `peakNormalize` */
  method PeakNormalize(wav: Wav) returns (r: Wav)
    ensures r == Wav(wav.sampleRate, Normalized(wav.samples, WindowSize(wav.sampleRate)))
  {
    hide Boost, Normalized, WindowSize;
    var windowSize := WindowSize(wav.sampleRate);
    var samples := wav.samples;
    var out := new Sample[|samples|];
    var start := 0;
    assert samples[0..] == samples && out[..0] + Normalized(samples, windowSize) == Normalized(samples, windowSize);
    while start < |samples|
      invariant var done := Min(|samples|, start);
                out[..done] + Normalized(samples[done..], windowSize) == Normalized(samples, windowSize)
      decreases |samples| - start
    {
      var end := Min(|samples|, start + windowSize);
      NextWindow(samples, start, windowSize);
      FillWindow(samples, start, end, out);
      start := start + windowSize;
    }
    assert samples[|samples|..] == [] && out[..|samples|] == out[..];
    return Wav(wav.sampleRate, out[..]);
  }
}
