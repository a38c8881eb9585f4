/** The resampler that pulls its input one sample at a time, for one or two interleaved channels. */
module StreamResampler {
  import opened Interpolation

  /** The callback that delivers input, with what it has yet to deliver. */
  class Source {
    const samples: nat -> real
    var cursor: nat

    constructor (samples: nat -> real)
      ensures this.samples == samples && cursor == 0
    {
      this.samples, cursor := samples, 0;
    }

    method Get() returns (x: real)
      modifies this
      ensures cursor == old(cursor) + 1 && x == samples(old(cursor))
    {
      x := samples(cursor);
      cursor := cursor + 1;
    }
  }

  /** How many samples a number of frames takes. */
  function Samples(frames: nat, n: nat): nat {
    frames * n
  }

  /** Where in the input the `k`-th output lies. */
  function Position(k: nat, ratio: real): real {
    k as real * ratio
  }

  /** Channel `c` of frame `f`, frames of `n` samples being counted from sample `base`; frame -1 is silence. */
  function Frame(samples: nat -> real, base: nat, n: nat, c: nat, f: int): real
    requires f >= -1
  {
    if f < 0 then 0.0 else samples(base + f * n + c)
  }

  function TapsAt(samples: nat -> real, base: nat, n: nat, c: nat, f: nat): Taps {
    Taps(Frame(samples, base, n, c, f - 1), Frame(samples, base, n, c, f),
         Frame(samples, base, n, c, f + 1), Frame(samples, base, n, c, f + 2))
  }

  lemma NextFrame(f: nat, n: nat)
    ensures (f + 1) * n == f * n + n
  {
  }

  lemma FirstTaps(samples: nat -> real, base: nat, n: nat, c: nat)
    ensures TapsAt(samples, base, n, c, 0)
         == Taps(0.0, samples(base + c), samples(base + n + c), samples(base + n + n + c))
  {
    assert 0 * n == 0 && 1 * n == n && 2 * n == n + n;
  }

  /** What the resampler's `k`-th output (from 0) after a flush is, in closed form. */
  function Output(samples: nat -> real, base: nat, n: nat, c: nat, ratio: real, k: nat): real
    requires ratio >= 0.0
  {
    var p := Position(k, ratio);
    NonNegative(k as real, ratio);
    Cubic(TapsAt(samples, base, n, c, p.Floor), p - p.Floor as real)
  }

  lemma NonNegative(x: real, y: real)
    requires x >= 0.0 && y >= 0.0
    ensures x * y >= 0.0
  {
  }

  class Resampler {
    const numChans: nat
    var chans: seq<Taps>
    var fracPos: real
    var ratio: real
    var shouldFlush: bool

    /** Since the last flush: where input began, which frame `x0` is, and how often `Process` was called. */
    ghost var base: nat
    ghost var at: nat
    ghost var calls: nat

    ghost predicate Valid()
      reads this
    {
      1 <= numChans <= 2 && |chans| == numChans && ratio >= 0.0 && (ratio == 1.0 ==> shouldFlush)
    }

    /** The taps are those of frame `f`, and the source is three frames on. */
    ghost predicate Holds(src: Source, f: nat)
      reads `chans, `base, src
    {
      && |chans| == numChans
      && src.cursor == base + Samples(f + 3, numChans)
      && forall c :: 0 <= c < numChans ==> chans[c] == TapsAt(src.samples, base, numChans, c, f)
    }

    ghost predicate Tracks(src: Source)
      reads this, src
    {
      !shouldFlush ==> Holds(src, at) && fracPos >= 0.0 && at as real + fracPos == Position(calls, ratio)
    }

    /** The number of channels is clamped to one or two. */
    constructor (channels: nat)
      ensures Valid() && shouldFlush && numChans == if channels < 1 then 1 else if channels > 2 then 2 else channels
    {
      var n := if channels < 1 then 1 else if channels > 2 then 2 else channels;
      numChans := n;
      chans := seq(n, _ => Taps(0.0, 0.0, 0.0, 0.0));
      fracPos, ratio, shouldFlush := 0.0, 1.0, true;
    }

    method SetSampleRateInOut(inputRate: nat, outputRate: nat)
      requires Valid() && outputRate > 0
      modifies `ratio, `shouldFlush
      ensures Valid() && ratio == inputRate as real / outputRate as real
      ensures shouldFlush == (old(shouldFlush) || ratio != old(ratio))
    {
      var current := inputRate as real / outputRate as real;
      if ratio != current {
        ratio := current;
        shouldFlush := true;
      }
    }

    method Flush()
      requires Valid()
      modifies `shouldFlush
      ensures Valid() && shouldFlush
    {
      shouldFlush := true;
    }

    /** One sample for each channel. */
    method ReadFrame(src: Source) returns (row: seq<real>)
      modifies src
      ensures src.cursor == old(src.cursor) + numChans && |row| == numChans
      ensures forall c :: 0 <= c < numChans ==> row[c] == src.samples(old(src.cursor) + c)
    {
      row := [];
      for c := 0 to numChans
        invariant src.cursor == old(src.cursor) + c && |row| == c
        invariant forall i :: 0 <= i < c ==> row[i] == src.samples(old(src.cursor) + i)
      {
        var x := src.Get();
        row := row + [x];
      }
    }

    /** Start over at the source's next frame, with silence before it. */
    method Restart(src: Source)
      requires Valid()
      modifies `chans, `fracPos, `shouldFlush, `base, `at, `calls, src
      ensures Holds(src, 0) && base == old(src.cursor) && fracPos == 0.0 && !shouldFlush && at == calls == 0
    {
      hide TapsAt;
      shouldFlush, fracPos := false, 0.0;
      base, at, calls := src.cursor, 0, 0;
      var r0 := ReadFrame(src);
      var r1 := ReadFrame(src);
      var r2 := ReadFrame(src);
      chans := seq(numChans, c requires 0 <= c < numChans => Taps(0.0, r0[c], r1[c], r2[c]));
      forall c | 0 <= c < numChans
        ensures chans[c] == TapsAt(src.samples, base, numChans, c, 0)
      {
        FirstTaps(src.samples, base, numChans, c);
      }
    }

    /** A flush that is due happens before anything else. */
    method Begin(src: Source)
      requires Valid() && Tracks(src) && ratio != 1.0
      modifies `chans, `fracPos, `shouldFlush, `base, `at, `calls, src
      ensures Holds(src, at) && |chans| == numChans && !shouldFlush
      ensures fracPos >= 0.0 && at as real + fracPos == Position(calls, ratio)
      ensures calls == if old(shouldFlush) then 0 else old(calls)
      ensures base == if old(shouldFlush) then old(src.cursor) else old(base)
    {
      if shouldFlush {
        Restart(src);
      }
    }

    method ShiftOne(src: Source, ghost f: nat)
      requires Holds(src, f)
      modifies `chans, src
      ensures Holds(src, f + 1)
    {
      var r := ReadFrame(src);
      var was := chans;
      chans := seq(numChans, c requires 0 <= c < numChans => was[c].Shift(r[c]));
      NextFrame(f + 3, numChans);
    }

    method ShiftTwo(src: Source, ghost f: nat)
      requires Holds(src, f)
      modifies `chans, src
      ensures Holds(src, f + 2)
    {
      var r1 := ReadFrame(src);
      var r2 := ReadFrame(src);
      var was := chans;
      chans := seq(numChans, c requires 0 <= c < numChans => Taps(was[c].x1, was[c].x2, r1[c], r2[c]));
      NextFrame(f + 3, numChans);
      NextFrame(f + 4, numChans);
    }

    method ShiftThree(src: Source, ghost f: nat)
      requires Holds(src, f)
      modifies `chans, src
      ensures Holds(src, f + 3)
    {
      var r0 := ReadFrame(src);
      var r1 := ReadFrame(src);
      var r2 := ReadFrame(src);
      var was := chans;
      chans := seq(numChans, c requires 0 <= c < numChans => Taps(was[c].x2, r0[c], r1[c], r2[c]));
      NextFrame(f + 3, numChans);
      NextFrame(f + 4, numChans);
      NextFrame(f + 5, numChans);
    }

    /** The shifting loop: whole frames are taken out of `fracPos`, up to three in one go. */
    method Advance(src: Source)
      requires Holds(src, at) && fracPos >= 0.0
      modifies `chans, `fracPos, `at, src
      ensures Holds(src, at) && 0.0 <= fracPos < 1.0
      ensures at as real + fracPos == old(at as real + fracPos)
    {
      hide Holds;
      while fracPos >= 1.0
        invariant Holds(src, at) && fracPos >= 0.0
        invariant at as real + fracPos == old(at as real + fracPos)
        decreases fracPos.Floor
      {
        if fracPos >= 3.0 {
          fracPos := fracPos - 3.0;
          ShiftThree(src, at);
          at := at + 3;
        }
        if fracPos >= 2.0 {
          fracPos := fracPos - 2.0;
          ShiftTwo(src, at);
          at := at + 2;
        }
        if fracPos >= 1.0 {
          fracPos := fracPos - 1.0;
          ShiftOne(src, at);
          at := at + 1;
        }
      }
    }

    /** At ratio 1 samples pass straight through. */
    method Bypass(src: Source, output: array<real>)
      modifies src, output
      ensures src.cursor == old(src.cursor) + output.Length
      ensures forall i :: 0 <= i < output.Length ==> output[i] == src.samples(old(src.cursor) + i)
    {
      for i := 0 to output.Length
        invariant src.cursor == old(src.cursor) + i
        invariant forall j :: 0 <= j < i ==> output[j] == src.samples(old(src.cursor) + j)
      {
        output[i] := src.Get();
      }
    }

    /** Evaluate every channel's cubic. */
    method Evaluate(output: array<real>)
      requires |chans| == numChans <= output.Length
      modifies output
      ensures forall c :: 0 <= c < numChans ==> output[c] == Cubic(chans[c], fracPos)
      ensures forall i :: numChans <= i < output.Length ==> output[i] == old(output[i])
    {
      for c := 0 to numChans
        invariant forall i :: 0 <= i < c ==> output[i] == Cubic(chans[i], fracPos)
        invariant forall i :: c <= i < output.Length ==> output[i] == old(output[i])
      {
        output[c] := Cubic(chans[c], fracPos);
      }
    }

    /** One output per channel, at the current position, which then moves on by the ratio. */
    method Interpolate(src: Source, output: array<real>)
      requires Holds(src, at) && fracPos >= 0.0 && numChans <= output.Length && ratio >= 0.0
      requires at as real + fracPos == Position(calls, ratio)
      modifies `chans, `fracPos, `at, `calls, src, output
      ensures Holds(src, at) && fracPos >= 0.0 && at as real + fracPos == Position(calls, ratio)
      ensures |chans| == numChans && src.cursor == base + Samples(at + 3, numChans)
      ensures calls == old(calls) + 1 && at == Position(old(calls), ratio).Floor
      ensures forall c :: 0 <= c < numChans ==> output[c] == Output(src.samples, base, numChans, c, ratio, old(calls))
      ensures forall i :: numChans <= i < output.Length ==> output[i] == old(output[i])
    {
      hide Cubic, TapsAt, Output, Samples;
      Advance(src);
      FloorIs(Position(calls, ratio), at, fracPos);
      Evaluate(output);
      forall c | 0 <= c < numChans
        ensures output[c] == Output(src.samples, base, numChans, c, ratio, calls)
      {
        OutputIs(src.samples, base, numChans, c, ratio, calls, at, fracPos);
      }
      NextCall(calls, ratio);
      fracPos := fracPos + ratio;
      calls := calls + 1;
    }

    /** `process`: after a flush, the `k`-th call has consumed `floor(k * ratio) + 3` frames and gives `Output` of `k`
        for every channel.  At ratio 1 samples pass straight through; too small an output is refused. */
    method Process(src: Source, output: array<real>)
      requires Valid() && Tracks(src)
      modifies this, src, output
      ensures Valid() && Tracks(src) && ratio == old(ratio)
      ensures output.Length < numChans ==> src.cursor == old(src.cursor) && output[..] == old(output[..])
      ensures output.Length < numChans || ratio == 1.0 ==> shouldFlush == old(shouldFlush)
      ensures output.Length >= numChans && ratio == 1.0 ==>
        && src.cursor == old(src.cursor) + output.Length
        && (forall i :: 0 <= i < output.Length ==> output[i] == src.samples(old(src.cursor) + i))
      ensures output.Length >= numChans && ratio != 1.0 ==>
        var k := if old(shouldFlush) then 0 else old(calls);
        && !shouldFlush && calls == k + 1 && base == (if old(shouldFlush) then old(src.cursor) else old(base))
        && at == Position(k, ratio).Floor && src.cursor == base + Samples(at + 3, numChans)
        && (forall c :: 0 <= c < numChans ==> output[c] == Output(src.samples, base, numChans, c, ratio, k))
        && (forall i :: numChans <= i < output.Length ==> output[i] == old(output[i]))
    {
      if output.Length < numChans {
        return;
      }
      if ratio == 1.0 {
        Bypass(src, output);
        return;
      }
      hide Output, TapsAt, Holds, Samples, Position;
      Begin(src);
      Interpolate(src, output);
    }
  }

  lemma OutputIs(samples: nat -> real, base: nat, n: nat, c: nat, ratio: real, k: nat, at: nat, t: real)
    requires ratio >= 0.0 && Position(k, ratio) == at as real + t && 0.0 <= t < 1.0
    ensures Output(samples, base, n, c, ratio, k) == Cubic(TapsAt(samples, base, n, c, at), t)
  {
    FloorIs(Position(k, ratio), at, t);
  }

  lemma FloorIs(x: real, n: nat, t: real)
    requires x == n as real + t && 0.0 <= t < 1.0
    ensures x.Floor == n && x - x.Floor as real == t
  {
  }

  lemma NextCall(k: nat, ratio: real)
    ensures Position(k + 1, ratio) == Position(k, ratio) + ratio
  {
    assert (k + 1) as real == k as real + 1.0;
  }

  // ----- What the outputs are -----

  ghost predicate SamplesOf(samples: nat -> real, base: nat, n: nat, c: nat, p: real, q: real, r: real) {
    forall f: nat :: Frame(samples, base, n, c, f) == Quadratic(p, q, r, f as real)
  }

  /** Samples of a polynomial of degree at most two are resampled exactly, once silence is out of the taps. */
  lemma QuadraticInput(samples: nat -> real, base: nat, n: nat, c: nat, ratio: real, k: nat, p: real, q: real, r: real)
    requires ratio >= 0.0 && SamplesOf(samples, base, n, c, p, q, r) && Position(k, ratio) >= 1.0
    ensures Output(samples, base, n, c, ratio, k) == Quadratic(p, q, r, Position(k, ratio))
  {
    hide Quadratic, Cubic, Frame;
    var x := Position(k, ratio);
    var f: nat := x.Floor;
    var g: nat := f - 1;
    assert Frame(samples, base, n, c, g) == Quadratic(p, q, r, g as real);
    QuadraticExact(p, q, r, f as real, x - f as real, TapsAt(samples, base, n, c, f));
  }

  /** Before that, an output is exact just when it falls on the first sample, or the polynomial is silent at -1. */
  lemma QuadraticStart(samples: nat -> real, base: nat, n: nat, c: nat, ratio: real, k: nat, p: real, q: real, r: real)
    requires ratio >= 0.0 && SamplesOf(samples, base, n, c, p, q, r) && 0.0 <= Position(k, ratio) < 1.0
    ensures Output(samples, base, n, c, ratio, k) == Quadratic(p, q, r, Position(k, ratio))
       <==> Position(k, ratio) == 0.0 || Quadratic(p, q, r, -1.0) == 0.0
  {
    hide Quadratic, Cubic;
    var x := Position(k, ratio);
    FloorIs(x, 0, x);
    var w := TapsAt(samples, base, n, c, 0);
    var one: nat, two: nat := 1, 2;
    assert Frame(samples, base, n, c, one) == Quadratic(p, q, r, one as real);
    assert Frame(samples, base, n, c, two) == Quadratic(p, q, r, two as real);
    QuadraticExact(p, q, r, 0.0, x, w.(xm1 := Quadratic(p, q, r, -1.0)));
    FirstTapMatters(w, Quadratic(p, q, r, -1.0), x);
  }

  /** The curve that outputs are read from is continuous, with a continuous slope, at every frame. */
  lemma CurveIsSmooth(samples: nat -> real, base: nat, n: nat, c: nat, f: nat)
    ensures Cubic(TapsAt(samples, base, n, c, f), 1.0) == Cubic(TapsAt(samples, base, n, c, f + 1), 0.0)
         == Frame(samples, base, n, c, f + 1)
    ensures Slope(TapsAt(samples, base, n, c, f), 1.0) == Slope(TapsAt(samples, base, n, c, f + 1), 0.0)
  {
    hide Frame;
    PiecesJoin(TapsAt(samples, base, n, c, f), Frame(samples, base, n, c, f + 3));
  }
}
