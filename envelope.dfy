/** The mouth-sync envelope of `generate_video`: the mono sample array is cut
    into one chunk per video frame, each chunk's root mean square becomes
    that frame's level, and the levels are divided by their maximum.
    The square root is a parameter `sqrt`, of which only non-negativity on
    non-negative arguments is assumed where a property needs it. */
module Envelope {
  import opened Dialogue

  /** `max(1, N // total_frames)`: samples per frame. */
  function Chunk(n: nat, frames: nat): (c: nat)
    requires frames >= 1
    ensures c >= 1
    ensures n >= frames ==> c == n / frames
    ensures n < frames ==> c == 1
  {
    if n / frames >= 1 then n / frames else 1
  }

  /** `s = i * chunk` */
  function SliceStart(i: nat, c: nat): nat {
    i * c
  }

  /** `e = min(N, (i + 1) * chunk)` */
  function SliceEnd(n: nat, i: nat, c: nat): nat {
    if (i + 1) * c <= n then (i + 1) * c else n
  }

  function SumSquares(xs: seq<real>): (r: real)
    ensures r >= 0.0
  {
    if xs == [] then 0.0 else SumSquares(xs[..|xs| - 1]) + xs[|xs| - 1] * xs[|xs| - 1]
  }

  /** `np.mean(ch ** 2)` */
  function MeanSquare(xs: seq<real>): (r: real)
    requires xs != []
    ensures r >= 0.0
  {
    SumSquares(xs) / |xs| as real
  }

  /** The level of frame `i` before normalisation: the RMS of its chunk,
      or 0 when the chunk `samples[s:e]` is empty. */
  function Level(samples: seq<real>, frames: nat, i: nat, sqrt: real -> real): real
    requires frames >= 1
  {
    var c := Chunk(|samples|, frames);
    var s := SliceStart(i, c);
    var e := SliceEnd(|samples|, i, c);
    if s < e then sqrt(MeanSquare(samples[s..e])) else 0.0
  }

  function Levels(samples: seq<real>, frames: nat, sqrt: real -> real): (ls: seq<real>)
    requires frames >= 1
    ensures |ls| == frames
  {
    seq(frames, i requires 0 <= i < frames => Level(samples, frames, i, sqrt))
  }

  /** `env.max()` */
  function Max(xs: seq<real>): (m: real)
    requires xs != []
    ensures forall i :: 0 <= i < |xs| ==> xs[i] <= m
    ensures exists i :: 0 <= i < |xs| && xs[i] == m
  {
    if |xs| == 1 then xs[0]
    else
      var m := Max(xs[..|xs| - 1]);
      assert forall i :: 0 <= i < |xs| - 1 ==> xs[..|xs| - 1][i] == xs[i];
      if xs[|xs| - 1] > m then xs[|xs| - 1] else m
  }

  /** `if env.max() > 0: env /= env.max()` */
  function Normalised(xs: seq<real>): (r: seq<real>)
    requires xs != []
    ensures |r| == |xs|
  {
    var m := Max(xs);
    if m > 0.0 then seq(|xs|, i requires 0 <= i < |xs| => xs[i] / m) else xs
  }

  /** Fills `env` slot by slot, then divides it in place by its maximum. */
  method BuildEnvelope(samples: seq<real>, totalFrames: nat, sqrt: real -> real) returns (env: array<real>)
    requires totalFrames >= 1
    ensures fresh(env)
    ensures env[..] == Normalised(Levels(samples, totalFrames, sqrt))
  {
    env := new real[totalFrames](_ => 0.0);
    FillLevels(env, samples, sqrt);
    DivideByMax(env);
  }

  /** The RMS loop: `env[i]` becomes the level of frame `i`. */
  method FillLevels(env: array<real>, samples: seq<real>, sqrt: real -> real)
    requires env.Length >= 1
    requires forall k :: 0 <= k < env.Length ==> env[k] == 0.0
    modifies env
    ensures env[..] == Levels(samples, env.Length, sqrt)
  {
    var totalFrames := env.Length;
    var n := |samples|;
    var chunk := if n / totalFrames >= 1 then n / totalFrames else 1;
    for i := 0 to totalFrames
      invariant forall k :: 0 <= k < i ==> env[k] == Level(samples, totalFrames, k, sqrt)
      invariant forall k :: i <= k < totalFrames ==> env[k] == 0.0
    {
      var s := i * chunk;
      var e := if (i + 1) * chunk <= n then (i + 1) * chunk else n;
      if s < e {
        env[i] := sqrt(MeanSquare(samples[s..e]));
      }
    }
  }

  /** `if env.max() > 0: env /= env.max()`, in place. */
  method DivideByMax(env: array<real>)
    requires env.Length >= 1
    modifies env
    ensures env[..] == Normalised(old(env[..]))
  {
    ghost var levels := env[..];
    var m := Max(env[..]);
    if m > 0.0 {
      for i := 0 to env.Length
        invariant forall k :: 0 <= k < i ==> env[k] == levels[k] / m
        invariant forall k :: i <= k < env.Length ==> env[k] == levels[k]
      {
        env[i] := env[i] / m;
      }
    }
  }

  // ---------------------------------------------------------------------
  // Chunking

  lemma MulMonoNat(a: nat, b: nat, c: nat)
    requires a <= b
    ensures a * c <= b * c
  {
  }

  /** The frame slices lie inside the sample array and follow one another
      without overlap: slice `i` ends no later than slice `j > i` starts. */
  lemma SlicesOrdered(n: nat, frames: nat, i: nat, j: nat)
    requires frames >= 1 && i < j
    ensures var c := Chunk(n, frames);
      && SliceEnd(n, i, c) <= n
      && SliceStart(i, c) < SliceStart(j, c)
      && SliceEnd(n, i, c) <= SliceStart(j, c)
  {
    var c := Chunk(n, frames);
    MulMonoNat(i + 1, j, c);
  }

  /** With at least one sample per frame, every frame gets a full chunk of
      `N // total_frames` samples, consecutive chunks touch, and fewer than
      `total_frames` trailing samples are never looked at. */
  lemma {:induction false} SlicesTile(n: nat, frames: nat, i: nat)
    requires frames >= 1 && n >= frames && i < frames
    ensures var c := Chunk(n, frames);
      && SliceEnd(n, i, c) == SliceStart(i, c) + c
      && (i + 1 < frames ==> SliceEnd(n, i, c) == SliceStart(i + 1, c))
      && n - frames * c < frames
  {
    var c := Chunk(n, frames);
    assert n == frames * c + n % frames;
    MulMonoNat(i + 1, frames, c);
    assert (i + 1) * c <= frames * c;
  }

  /** With fewer samples than frames, every frame from the `N`-th on has
      an empty slice and keeps level 0. */
  lemma ShortAudioSilent(samples: seq<real>, frames: nat, i: nat, sqrt: real -> real)
    requires frames >= 1 && |samples| < frames && |samples| <= i < frames
    ensures Levels(samples, frames, sqrt)[i] == 0.0
  {
  }

  /** RMS levels are non-negative when the square root is. */
  lemma LevelsNonNegative(samples: seq<real>, frames: nat, sqrt: real -> real)
    requires frames >= 1
    requires forall x :: x >= 0.0 ==> sqrt(x) >= 0.0
    ensures forall i :: 0 <= i < frames ==> Levels(samples, frames, sqrt)[i] >= 0.0
  {
  }

  // ---------------------------------------------------------------------
  // Normalisation

  /** Element `i` of the normalised levels. */
  lemma NormalisedAt(xs: seq<real>, i: nat)
    requires xs != [] && i < |xs|
    ensures Normalised(xs)[i] == if Max(xs) > 0.0 then xs[i] / Max(xs) else xs[i]
  {
  }

  /** For non-negative levels every normalised level lies in `[0, 1]`. */
  lemma NormalisedBounded(xs: seq<real>)
    requires xs != []
    requires forall i :: 0 <= i < |xs| ==> xs[i] >= 0.0
    ensures forall i :: 0 <= i < |xs| ==> 0.0 <= Normalised(xs)[i] <= 1.0
  {
    var m := Max(xs);
    forall i | 0 <= i < |xs| ensures 0.0 <= Normalised(xs)[i] <= 1.0 {
      NormalisedAt(xs, i);
      if m > 0.0 {
        DivBelowOne(xs[i], m);
      }
    }
  }

  /** A positive maximum becomes exactly 1. */
  lemma NormalisedPeak(xs: seq<real>)
    requires xs != [] && Max(xs) > 0.0
    ensures exists i :: 0 <= i < |xs| && Normalised(xs)[i] == 1.0
  {
    var m := Max(xs);
    var k :| 0 <= k < |xs| && xs[k] == m;
    NormalisedAt(xs, k);
    DivSelf(m);
    assert Normalised(xs)[k] == 1.0;
  }

  lemma DivSelf(m: real)
    requires m > 0.0
    ensures m / m == 1.0
  {
  }

  /** Without a positive maximum, non-negative levels are all 0 and are
      left as they are. */
  lemma NormalisedSilent(xs: seq<real>)
    requires xs != [] && Max(xs) <= 0.0
    requires forall i :: 0 <= i < |xs| ==> xs[i] >= 0.0
    ensures Normalised(xs) == xs
    ensures forall i :: 0 <= i < |xs| ==> Normalised(xs)[i] == 0.0
  {
  }

  /** For non-negative levels: a positive maximum scales every level into
      `[0, 1]` and some level becomes exactly 1; otherwise all levels are 0
      and are left as they are. */
  lemma NormalisedRange(xs: seq<real>)
    requires xs != []
    requires forall i :: 0 <= i < |xs| ==> xs[i] >= 0.0
    ensures forall i :: 0 <= i < |xs| ==> 0.0 <= Normalised(xs)[i] <= 1.0
    ensures Max(xs) > 0.0 ==> exists i :: 0 <= i < |xs| && Normalised(xs)[i] == 1.0
    ensures Max(xs) <= 0.0 ==> Normalised(xs) == xs && forall i :: 0 <= i < |xs| ==> xs[i] == 0.0
  {
    NormalisedBounded(xs);
    if Max(xs) > 0.0 {
      NormalisedPeak(xs);
    } else {
      NormalisedSilent(xs);
    }
  }

  lemma DivOrder(a: real, b: real, m: real)
    requires m > 0.0
    ensures a / m <= b / m <==> a <= b
  {
    assert a / m * m == a && b / m * m == b;
    if a <= b {
      DivMono(a, b, m);
    } else {
      DivMono(b, a, m);
    }
  }

  lemma DivBelowOne(x: real, m: real)
    requires 0.0 <= x <= m && m > 0.0
    ensures 0.0 <= x / m <= 1.0
  {
    assert x / m * m == x;
  }

  /** Normalising keeps the order of the levels, so the loudest frame stays
      the loudest. */
  lemma NormalisedOrder(xs: seq<real>, i: nat, j: nat)
    requires xs != [] && i < |xs| && j < |xs|
    ensures Normalised(xs)[i] <= Normalised(xs)[j] <==> xs[i] <= xs[j]
  {
    var m := Max(xs);
    NormalisedAt(xs, i);
    NormalisedAt(xs, j);
    if m > 0.0 {
      DivOrder(xs[i], xs[j], m);
    }
  }
}
