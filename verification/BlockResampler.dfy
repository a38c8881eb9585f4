/** The resampler that is handed its input in blocks of whole interleaved frames: any one of its channels. */
module BlockResampler {
  import opened Bytes
  import opened Interpolation
  import opened StreamResampler

  // ----- What is emitted for a given input, however it is cut into blocks -----

  /** The taps around sample `f`, with silence before the first sample. */
  function SeqTaps(s: seq<real>, f: nat): Taps
    requires f + 2 < |s|
  {
    Taps(if f == 0 then 0.0 else s[f - 1], s[f], s[f + 1], s[f + 2])
  }

  /** The output at `position`. */
  function SeqOutput(s: seq<real>, position: real): real
    requires 0.0 <= position < |s| as real - 2.0
  {
    Cubic(SeqTaps(s, position.Floor), position - position.Floor as real)
  }

  /** `emitted` are the first outputs for the samples `s`; all of them lie within `s`. */
  ghost predicate Outputs(s: seq<real>, ratio: real, emitted: seq<real>) {
    && |s| >= 3
    && forall k :: 0 <= k < |emitted| ==>
         && 0.0 <= Position(k, ratio) < |s| as real - 2.0
         && emitted[k] == SeqOutput(s, Position(k, ratio))
  }

  /** Everything that `s` allows has been emitted.  Right after three samples nothing has. */
  ghost predicate Complete(s: seq<real>, ratio: real, emitted: seq<real>) {
    && Outputs(s, ratio, emitted)
    && (|s| == 3 ==> emitted == [])
    && (|s| >= 4 ==> Position(|emitted|, ratio) >= |s| as real - 2.0)
  }

  lemma OutputWithin(s: seq<real>, ratio: real, emitted: seq<real>, k: nat)
    requires Outputs(s, ratio, emitted)
    ensures k < |emitted| ==> Position(k, ratio) < |s| as real - 2.0
  {
  }

  lemma NoneMissing(s: seq<real>, ratio: real, e1: seq<real>, e2: seq<real>)
    requires Complete(s, ratio, e1) && Complete(s, ratio, e2)
    ensures |e2| <= |e1|
  {
    OutputWithin(s, ratio, e2, |e1|);
  }

  /** So what is emitted depends on the samples alone, not on how they were cut into blocks. */
  lemma CompleteIsUnique(s: seq<real>, ratio: real, e1: seq<real>, e2: seq<real>)
    requires Complete(s, ratio, e1) && Complete(s, ratio, e2)
    ensures e1 == e2
  {
    NoneMissing(s, ratio, e1, e2);
    NoneMissing(s, ratio, e2, e1);
    forall k | 0 <= k < |e1|
      ensures e1[k] == e2[k]
    {
      assert e1[k] == SeqOutput(s, Position(k, ratio));
    }
  }

  /** And it is what the one-channel stream resampler gives for the same input. */
  lemma CompleteIsStream(s: seq<real>, ratio: real, emitted: seq<real>, samples: nat -> real, k: nat)
    requires ratio >= 0.0 && Outputs(s, ratio, emitted) && k < |emitted|
    requires forall i :: 0 <= i < |s| ==> samples(i) == s[i]
    ensures emitted[k] == Output(samples, 0, 1, 0, ratio, k)
  {
    var p := Position(k, ratio);
    var f: nat := p.Floor;
    assert emitted[k] == SeqOutput(s, p);
    assert f * 1 == f && (f - 1) * 1 == f - 1 && (f + 1) * 1 == f + 1 && (f + 2) * 1 == f + 2;
    assert SeqTaps(s, f) == TapsAt(samples, 0, 1, 0, f);
  }

  // ----- The three-sample shortcut -----

  /** The block form's shortcut takes the tap before the new three samples from `x1`. */
  function SkipThree(w: Taps, a: real, b: real, c: real): Taps {
    Taps(w.x1, a, b, c)
  }

  /** Three single shifts would take it from `x2`: the two agree at `t` only if those are equal, or `t` is 0. */
  lemma SkipThreeExact(w: Taps, a: real, b: real, c: real, t: real)
    requires 0.0 <= t < 1.0
    ensures SkipThree(w, a, b, c) == w.Shift(a).Shift(b).Shift(c) <==> w.x1 == w.x2
    ensures Cubic(SkipThree(w, a, b, c), t) == Cubic(w.Shift(a).Shift(b).Shift(c), t) <==> t == 0.0 || w.x1 == w.x2
  {
    hide Cubic;
    FirstTapMatters(SkipThree(w, a, b, c), w.x2, t);
  }

  // ----- What the shortcut makes of the outputs -----

  /** The taps around sample `f`; if the shortcut led there, the first is one sample late. */
  function TapsFrom(s: seq<real>, f: nat, late: bool): Taps
    requires f + 2 < |s|
  {
    if late && f >= 2 then SeqTaps(s, f).(xm1 := s[f - 2]) else SeqTaps(s, f)
  }

  function OutputFrom(s: seq<real>, position: real, late: bool): real
    requires 0.0 <= position < |s| as real - 2.0
  {
    Cubic(TapsFrom(s, position.Floor, late), position - position.Floor as real)
  }

  /** The sample at or before the `k`-th output. */
  function Base(k: nat, ratio: real): nat
    requires ratio >= 0.0
  {
    Position(k, ratio).Floor
  }

  /** The base before the samples that are taken for the `k`-th output from the block that begins after `origin`
      samples: that of the output before, or the one at which the block begins. */
  function LastBase(k: nat, ratio: real, origin: nat): int
    requires ratio >= 0.0 && k > 0
  {
    if Base(k - 1, ratio) + 3 >= origin then Base(k - 1, ratio) else origin - 3
  }

  /** How many samples these are. */
  function Taken(k: nat, ratio: real, origin: nat): int
    requires ratio >= 0.0
  {
    if k == 0 then 0 else Base(k, ratio) - LastBase(k, ratio, origin)
  }

  /** A turn of the loop takes up to six: the last one ends with the shortcut just if it takes three. */
  predicate Late(k: nat, ratio: real, origin: nat)
    requires ratio >= 0.0
  {
    Taken(k, ratio, origin) >= 3 && Taken(k, ratio, origin) % 6 == 3
  }

  /** `emitted` are the first outputs for `s`, output `k` having been given in the block after `origins[k]` samples. */
  ghost predicate Emissions(s: seq<real>, ratio: real, emitted: seq<real>, origins: seq<nat>) {
    && |s| >= 3 && ratio >= 0.0 && |origins| == |emitted|
    && forall k :: 0 <= k < |emitted| ==>
         && 0.0 <= Position(k, ratio) < |s| as real - 2.0
         && emitted[k] == OutputFrom(s, Position(k, ratio), Late(k, ratio, origins[k]))
  }

  /** As many outputs as `n` samples allow. */
  predicate AllGiven(n: nat, ratio: real, count: nat) {
    && (n == 3 ==> count == 0)
    && (n >= 4 ==> Position(count, ratio) >= n as real - 2.0)
  }

  /** Which outputs are right: all but those whose last turn took exactly three samples, and of these the ones that fall
      on a sample, or have two equal samples before it. */
  lemma EmissionExact(s: seq<real>, ratio: real, emitted: seq<real>, origins: seq<nat>, k: nat)
    requires Emissions(s, ratio, emitted, origins) && k < |emitted|
    ensures Base(k, ratio) + 2 < |s| && (Late(k, ratio, origins[k]) ==> Base(k, ratio) >= 3)
    ensures emitted[k] == SeqOutput(s, Position(k, ratio)) <==>
      || !Late(k, ratio, origins[k])
      || Position(k, ratio) == Base(k, ratio) as real
      || s[Base(k, ratio) - 2] == s[Base(k, ratio) - 1]
  {
    hide Cubic, Position;
    var f, t := Base(k, ratio), Position(k, ratio) - Base(k, ratio) as real;
    assert emitted[k] == OutputFrom(s, Position(k, ratio), Late(k, ratio, origins[k]));
    if Late(k, ratio, origins[k]) {
      FirstTapMatters(TapsFrom(s, f, true), s[f - 1], t);
      assert TapsFrom(s, f, true).(xm1 := s[f - 1]) == SeqTaps(s, f);
    }
  }

  lemma StepIsSmall(k: nat, ratio: real, origin: nat)
    requires 0.0 <= ratio <= 2.0
    ensures Taken(k, ratio, origin) <= 2 && !Late(k, ratio, origin)
  {
    if k > 0 {
      NextCall(k - 1, ratio);
    }
  }

  /** Up to ratio 2 every output is right, and nothing depends on the blocks. */
  lemma SlowIsRight(s: seq<real>, ratio: real, emitted: seq<real>, origins: seq<nat>)
    requires Emissions(s, ratio, emitted, origins) && AllGiven(|s|, ratio, |emitted|) && ratio <= 2.0
    ensures Complete(s, ratio, emitted)
  {
    hide Cubic, Position;
    forall k | 0 <= k < |emitted|
      ensures 0.0 <= Position(k, ratio) < |s| as real - 2.0 && emitted[k] == SeqOutput(s, Position(k, ratio))
    {
      StepIsSmall(k, ratio, origins[k]);
      EmissionExact(s, ratio, emitted, origins, k);
    }
  }

  lemma EmissionsExtend(s: seq<real>, more: seq<real>, ratio: real, emitted: seq<real>, origins: seq<nat>)
    requires Emissions(s, ratio, emitted, origins)
    ensures Emissions(s + more, ratio, emitted, origins)
  {
    hide Position, Cubic, Late;
    forall k | 0 <= k < |emitted|
      ensures 0.0 <= Position(k, ratio) < |s + more| as real - 2.0
      ensures emitted[k] == OutputFrom(s + more, Position(k, ratio), Late(k, ratio, origins[k]))
    {
      var f, late := Position(k, ratio).Floor, Late(k, ratio, origins[k]);
      assert emitted[k] == OutputFrom(s, Position(k, ratio), late);
      assert TapsFrom(s + more, f, late) == TapsFrom(s, f, late);
    }
  }

  lemma EmissionsAppend(s: seq<real>, ratio: real, outs: seq<real>, origins: seq<nat>, t: real, origin: nat, late: bool)
    requires Emissions(s, ratio, outs, origins) && 0.0 <= t < 1.0
    requires (|s| - 3) as real + t == Position(|outs|, ratio) && late == Late(|outs|, ratio, origin)
    ensures Emissions(s, ratio, outs + [Cubic(TapsFrom(s, |s| - 3, late), t)], origins + [origin])
  {
    hide Position, Cubic, Late;
    var all, froms := outs + [Cubic(TapsFrom(s, |s| - 3, late), t)], origins + [origin];
    FloorIs(Position(|outs|, ratio), |s| - 3, t);
    forall k | 0 <= k < |all|
      ensures 0.0 <= Position(k, ratio) < |s| as real - 2.0
      ensures all[k] == OutputFrom(s, Position(k, ratio), Late(k, ratio, froms[k]))
    {
      if k < |outs| {
        assert outs[k] == OutputFrom(s, Position(k, ratio), Late(k, ratio, origins[k]));
      }
    }
  }

  // ----- The turns of the loop -----

  /** How many samples a turn shifts in, `d` being asked for and `room` being left in the block. */
  function TurnTakes(d: nat, room: nat): nat {
    Min(Min(d, room), 6)
  }

  /** The tests for the shortcuts count the samples of all channels, of which a frame has `stride`: so with `d` asked
      for and `left` frames in the block, a shortcut may be taken that does not find enough frames. */
  predicate Short(d: nat, left: nat, stride: nat) {
    var three := d >= 3 && left * stride >= 3;
    var d', left' := if three then d - 3 else d, if three && left >= 3 then left - 3 else left;
    (three && left < 3) || (d' >= 2 && left' * stride >= 2 && left' < 2)
  }

  lemma Frames(left: nat, stride: nat)
    requires stride >= 1
    ensures left == 0 ==> left * stride == 0
    ensures left == 1 ==> left * stride == stride
    ensures left == 2 ==> left * stride == 2 * stride
    ensures left >= 3 ==> left * stride >= 3 * stride
  {
  }

  /** Exactly when that happens: never with one channel, nor if less than two samples are asked for. */
  lemma ShortExactly(d: nat, left: nat, stride: nat)
    requires stride >= 1
    ensures Short(d, left, stride) <==>
      stride >= 2 && ((left == 1 && d >= 2) || (left == 2 && d >= 3) || (left == 4 && d >= 5))
  {
    Frames(left, stride);
    if left >= 3 {
      Frames(left - 3, stride);
    }
  }

  lemma SamplesLeft(total: nat, next: nat, stride: nat, k: nat)
    requires next <= total
    ensures next * stride + k <= total * stride <==> (total - next) * stride >= k
  {
    assert (total - next) * stride == total * stride - next * stride;
  }

  /** Sample `j` counted from the second tap, the last taps being followed by the input from `inpos` on. */
  function Following(w: Taps, input: seq<real>, inpos: nat, j: nat): real
    requires inpos + j < |input| + 3
  {
    if j == 0 then w.x0 else if j == 1 then w.x1 else if j == 2 then w.x2 else input[inpos + j - 3]
  }

  /** The taps after up to six samples, which the loop shifts in three, two and one at a time. */
  function TapsAfter(w: Taps, input: seq<real>, inpos: nat, k: nat): Taps
    requires inpos + k <= |input| && k <= 6
  {
    Taps(if k == 0 then w.xm1 else Following(w, input, inpos, if k == 3 then 1 else k - 1),
         Following(w, input, inpos, k), Following(w, input, inpos, k + 1), Following(w, input, inpos, k + 2))
  }

  /** With `n` samples taken and `count` outputs given, only whole turns of six have been made for the next one. */
  ghost predicate WholeTurns(n: nat, ratio: real, count: nat, origin: nat)
    requires ratio >= 0.0
  {
    count > 0 ==> var m := n - 3 - LastBase(count, ratio, origin); 0 <= m && m % 6 == 0
  }

  /** So the turn that arrives at an output ends with the shortcut just if the output is late. */
  lemma ArrivesLate(n: nat, ratio: real, count: nat, origin: nat, frac: real, took: nat)
    requires ratio > 0.0 && n >= 3 && count > 0 && WholeTurns(n, ratio, count, origin)
    requires (n - 3) as real + frac == Position(count, ratio) && took as real <= frac < (took + 1) as real
    requires 1 <= took <= 6
    ensures Late(count, ratio, origin) <==> took == 3
  {
    hide Position;
    FloorIs(Position(count, ratio), n - 3 + took, frac - took as real);
  }

  class Resampler {
    /** How many channels the input interleaves. */
    const stride: nat

    var taps: Taps
    var fracPos: real
    var flush: bool
    var ratio: real

    /** Samples taken in and outputs given since the last flush, and for each output how many samples had been taken in
        when its block began. */
    ghost var seen: seq<real>
    ghost var emitted: seq<real>
    ghost var origins: seq<nat>

    /** Since then the first block had three frames or more, the output never filled up, and the ratio is exact. */
    ghost var regular: bool

    /** A ratio at which no shortcut is taken without enough frames. */
    predicate Exact()
      reads `ratio
    {
      ratio > 0.0 && (stride == 1 || ratio <= 1.0)
    }

    /** The taps but the first are the last samples of `s`, and the next output is where it should be. */
    ghost predicate Tracks(s: seq<real>, outs: seq<real>, from: seq<nat>)
      reads `taps, `fracPos, `ratio
    {
      && Exact() && (stride == 1 || fracPos < 2.0) && |s| >= 3 && Emissions(s, ratio, outs, from)
      && taps.x0 == s[|s| - 3] && taps.x1 == s[|s| - 2] && taps.x2 == s[|s| - 1] && (|s| == 3 ==> taps.xm1 == 0.0)
      && 0.0 <= fracPos && (|s| - 3) as real + fracPos == Position(|outs|, ratio)
    }

    /** Samples are to be shifted in before the next output, unless it is the first one. */
    ghost predicate Pending(n: nat, count: nat)
      reads `fracPos
    {
      fracPos >= 1.0 || (n == 3 && count == 0)
    }

    ghost predicate Valid()
      reads this
    {
      && stride >= 1 && ratio >= 0.0 && fracPos >= 0.0
      && (!flush && regular ==> Tracks(seen, emitted, origins) && AllGiven(|seen|, ratio, |emitted|))
    }

    constructor (stride: nat)
      requires stride >= 1
      ensures Valid() && flush && ratio == 1.0 && this.stride == stride
    {
      this.stride := stride;
      taps, fracPos, flush, ratio := Taps(0.0, 0.0, 0.0, 0.0), 0.0, true, 1.0;
    }

    method SetSamplerateInOut(inputRate: nat, outputRate: nat)
      requires Valid() && outputRate > 0
      modifies `ratio, `flush
      ensures Valid() && ratio == inputRate as real / outputRate as real
      ensures flush == (old(flush) || ratio != old(ratio))
    {
      var current := inputRate as real / outputRate as real;
      if ratio != current {
        ratio := current;
        flush := true;
      }
    }

    method Flush()
      requires Valid()
      modifies `flush
      ensures Valid() && flush
    {
      flush := true;
    }

    /** The next sample of the channel, or what was there before if there is none. */
    method NextIn(input: seq<real>, inpos: nat, was: real) returns (x: real, next: nat)
      requires inpos <= |input|
      ensures if inpos < |input| then x == input[inpos] && next == inpos + 1 else x == was && next == inpos
    {
      x, next := was, inpos;
      if inpos < |input| {
        x, next := input[inpos], inpos + 1;
      }
    }

    method ShiftThree(input: seq<real>, inpos: nat) returns (next: nat)
      requires inpos <= |input|
      modifies `taps
      ensures next == inpos + Min(3, |input| - inpos)
      ensures inpos + 3 <= |input| ==>
        taps == SkipThree(old(taps), input[inpos], input[inpos + 1], input[inpos + 2])
    {
      var xm1, x0, x1, x2 := taps.x1, taps.x0, taps.x1, taps.x2;
      x0, next := NextIn(input, inpos, x0);
      x1, next := NextIn(input, next, x1);
      x2, next := NextIn(input, next, x2);
      taps := Taps(xm1, x0, x1, x2);
    }

    method ShiftTwo(input: seq<real>, inpos: nat) returns (next: nat)
      requires inpos <= |input|
      modifies `taps
      ensures next == inpos + Min(2, |input| - inpos)
      ensures inpos + 2 <= |input| ==> taps == old(taps).Shift(input[inpos]).Shift(input[inpos + 1])
    {
      var xm1, x0, x1, x2 := taps.x1, taps.x2, taps.x1, taps.x2;
      x1, next := NextIn(input, inpos, x1);
      x2, next := NextIn(input, next, x2);
      taps := Taps(xm1, x0, x1, x2);
    }

    /** Shift in up to six samples, three, two and one at a time, as far as the position asks and the block seems to
        allow.  As many are taken as the position moves on exactly unless a shortcut is short. */
    method ShiftIn(input: seq<real>, inpos: nat) returns (next: nat)
      requires inpos < |input| && fracPos >= 0.0 && stride >= 1
      modifies `taps, `fracPos
      ensures inpos <= next <= |input| && (old(fracPos) >= 1.0 ==> next > inpos) && 0.0 <= fracPos <= old(fracPos)
      ensures fracPos == old(fracPos) - (next - inpos) as real
              <==> !Short(old(fracPos.Floor), |input| - inpos, stride)
      ensures !Short(old(fracPos.Floor), |input| - inpos, stride) ==>
        && next == inpos + TurnTakes(old(fracPos.Floor), |input| - inpos)
        && taps == TapsAfter(old(taps), input, inpos, next - inpos)
    {
      hide Short;
      ShortExactly(fracPos.Floor, |input| - inpos, stride);
      Frames(|input| - inpos, stride);
      next := inpos;
      ghost var was, d: nat, left := taps, fracPos.Floor, |input| - inpos;
      SamplesLeft(|input|, next, stride, 3);
      if fracPos >= 3.0 && next * stride + 3 <= |input| * stride {
        fracPos := fracPos - 3.0;
        next := ShiftThree(input, next);
      }
      ghost var d1: nat := fracPos.Floor;
      assert d1 == (if d >= 3 && left * stride >= 3 then d - 3 else d);
      assert next == inpos + 3 || next == inpos || left < 3;
      SamplesLeft(|input|, next, stride, 2);
      Frames(|input| - next, stride);
      if fracPos >= 2.0 && next * stride + 2 <= |input| * stride {
        fracPos := fracPos - 2.0;
        next := ShiftTwo(input, next);
      }
      ghost var took := next - inpos;
      assert fracPos.Floor == d - took <==> !Short(d, left, stride);
      if fracPos >= 1.0 && next < |input| {
        fracPos := fracPos - 1.0;
        taps := taps.Shift(input[next]);
        next := next + 1;
      }
    }

    /** So, unless a shortcut is short, the taps stay at the end of the input taken, but for a late first one after
        three samples. */
    method ShiftTaps(input: seq<real>, inpos: nat, ghost s: seq<real>, ghost outs: seq<real>, ghost from: seq<nat>)
      returns (next: nat)
      requires inpos < |input| && fracPos >= 0.0 && stride >= 1
      modifies `taps, `fracPos
      ensures inpos <= next <= |input| && (old(fracPos) >= 1.0 ==> next > inpos) && 0.0 <= fracPos <= old(fracPos)
      ensures fracPos == old(fracPos) - (next - inpos) as real
              <==> !Short(old(fracPos.Floor), |input| - inpos, stride)
      ensures !Short(old(fracPos.Floor), |input| - inpos, stride) ==>
        && next == inpos + TurnTakes(old(fracPos.Floor), |input| - inpos)
        && (next == inpos ==> taps == old(taps))
        && (old(Tracks(s, outs, from)) ==> Tracks(s + input[inpos..next], outs, from))
        && (old(Tracks(s, outs, from)) && next > inpos ==>
              taps == TapsFrom(s + input[inpos..next], |s| + next - inpos - 3, next == inpos + 3))
    {
      hide Emissions, Position, Short;
      ghost var was := taps;
      next := ShiftIn(input, inpos);
      if Emissions(s, ratio, outs, from) {
        EmissionsExtend(s, input[inpos..next], ratio, outs, from);
      }
    }

    /** The next output's taps are at hand, if it is due. */
    ghost predicate Ready(s: seq<real>, count: nat, origin: nat)
      requires |s| >= 3 && ratio >= 0.0
      reads `taps, `fracPos, `ratio
    {
      fracPos < 1.0 ==> taps == TapsFrom(s, |s| - 3, Late(count, ratio, origin))
    }

    /** Emit all outputs up to the next sample, or until the output is full. */
    method Emit(out: array<real>, outpos: nat, ghost s: seq<real>, ghost outs: seq<real>, ghost from: seq<nat>,
                ghost origin: nat)
      returns (next: nat, ghost more: seq<real>)
      requires outpos < out.Length && fracPos >= 0.0 && ratio >= 0.0
      modifies `fracPos, out
      ensures outpos <= next <= out.Length && |more| == next - outpos
      ensures fracPos >= 0.0 && (next > outpos ==> ratio <= fracPos < 1.0 + ratio)
      ensures old(fracPos) < 1.0 ==> next > outpos
      ensures fracPos >= 1.0 || next == out.Length
      ensures next == outpos ==> fracPos == old(fracPos)
      ensures out[..next] == old(out[..outpos]) + more
      ensures forall i :: next <= i < out.Length ==> out[i] == old(out[i])
      ensures old(Tracks(s, outs, from) && Ready(s, |outs|, origin)) ==>
        Tracks(s, outs + more, from + seq(|more|, _ => origin))
    {
      hide Emissions, Position, Cubic, TapsFrom, Late;
      next, more := outpos, [];
      ghost var froms: seq<nat> := [];
      ghost var good := Tracks(s, outs, from) && Ready(s, |outs|, origin);
      assert outs + more == outs && from + froms == from;
      while fracPos < 1.0 && next < out.Length
        invariant outpos <= next <= out.Length && |more| == next - outpos && froms == seq(|more|, _ => origin)
        invariant next == outpos ==> fracPos == old(fracPos)
        invariant fracPos >= 0.0 && (next > outpos ==> ratio <= fracPos < 1.0 + ratio)
        invariant old(fracPos) >= 1.0 ==> fracPos == old(fracPos)
        invariant out[..next] == old(out[..outpos]) + more
        invariant forall i :: next <= i < out.Length ==> out[i] == old(out[i])
        invariant good ==> Tracks(s, outs + more, from + froms) && Ready(s, |outs + more|, origin)
        decreases out.Length - next
      {
        out[next] := Cubic(taps, fracPos);
        if good {
          EmitOne(s, outs + more, from + froms, origin);
          assert outs + (more + [out[next]]) == outs + more + [out[next]];
          assert from + (froms + [origin]) == from + froms + [origin];
        }
        more, froms := more + [out[next]], froms + [origin];
        next := next + 1;
        fracPos := fracPos + ratio;
      }
    }

    lemma EmitOne(s: seq<real>, outs: seq<real>, from: seq<nat>, origin: nat)
      requires Tracks(s, outs, from) && Ready(s, |outs|, origin) && fracPos < 1.0
      ensures Emissions(s, ratio, outs + [Cubic(taps, fracPos)], from + [origin])
      ensures (|s| - 3) as real + (fracPos + ratio) == Position(|outs| + 1, ratio)
      ensures fracPos + ratio < 1.0 ==> taps == TapsFrom(s, |s| - 3, Late(|outs| + 1, ratio, origin))
    {
      hide Emissions, Position, Cubic, TapsFrom, Late;
      EmissionsAppend(s, ratio, outs, from, fracPos, origin, Late(|outs|, ratio, origin));
      NextCall(|outs|, ratio);
      if fracPos + ratio < 1.0 {
        StepIsSmall(|outs|, ratio, origin);
        StepIsSmall(|outs| + 1, ratio, origin);
      }
    }

    /** What the loop keeps while it works on a block: `s` has been taken in, `origin` samples of it before. */
    ghost predicate InBlock(s: seq<real>, outs: seq<real>, from: seq<nat>, origin: nat)
      reads `taps, `fracPos, `ratio
    {
      Tracks(s, outs, from) && Pending(|s|, |outs|) && origin <= |s| && WholeTurns(|s|, ratio, |outs|, origin)
    }

    /** After the shift of a turn the taps are those of the next output, if it is due. */
    lemma ShiftArrives(s: seq<real>, count: nat, origin: nat, n: nat, frac: real, took: nat)
      requires ratio > 0.0 && |s| == n + took && n >= 3 && fracPos == frac - took as real >= 0.0
      requires (n - 3) as real + frac == Position(count, ratio) && took <= 6
      requires WholeTurns(n, ratio, count, origin) && (took == 0 ==> n == 3 && count == 0)
      requires if took == 0 then taps == TapsFrom(s, 0, false) else taps == TapsFrom(s, |s| - 3, took == 3)
      ensures Ready(s, count, origin)
    {
      hide Position, WholeTurns;
      if fracPos < 1.0 && took > 0 {
        if count == 0 {
          FirstIsAtStart(ratio);
        } else {
          ArrivesLate(n, ratio, count, origin, frac, took);
        }
      }
    }

    /** And after its outputs the block goes on as before, or everything that it allows has been given. */
    lemma TurnKeeps(s: seq<real>, outs: seq<real>, from: seq<nat>, origin: nat, n: nat, count: nat, took: nat)
      requires Tracks(s, outs, from) && fracPos >= 1.0 && origin <= n <= |s| == n + took && n >= 3
      requires count <= |outs| && WholeTurns(n, ratio, count, origin)
      requires if |outs| > count then fracPos >= ratio else took % 6 == 0
      ensures InBlock(s, outs, from, origin)
    {
      hide Position, Emissions;
      if |outs| > count {
        LastOutput(s, outs, from);
        NextCall(|outs| - 1, ratio);
      }
    }

    lemma LastOutput(s: seq<real>, outs: seq<real>, from: seq<nat>)
      requires Tracks(s, outs, from) && outs != []
      ensures 0.0 <= Position(|outs| - 1, ratio) < |s| as real - 2.0
    {
    }

    /** One turn of the loop.  If it ends at the end of the block, everything possible has been emitted. */
    method Turn(input: seq<real>, inpos: nat, out: array<real>, outpos: nat, ghost s: seq<real>, ghost outs: seq<real>,
                ghost from: seq<nat>, ghost origin: nat)
      returns (inNext: nat, outNext: nat, ghost more: seq<real>)
      requires inpos < |input| && outpos < out.Length && fracPos >= 0.0 && ratio >= 0.0 && stride >= 1
      modifies `taps, `fracPos, out
      ensures inpos <= inNext <= |input| && outpos <= outNext <= out.Length && |more| == outNext - outpos
      ensures (inpos < inNext || outpos < outNext) && fracPos >= 0.0
      ensures out[..outNext] == old(out[..outpos]) + more
      ensures forall i :: outNext <= i < out.Length ==> out[i] == old(out[i])
      ensures old(InBlock(s, outs, from, origin)) ==>
        var s', outs', from' := s + input[inpos..inNext], outs + more, from + seq(|more|, _ => origin);
        && Tracks(s', outs', from')
        && (outNext < out.Length ==>
              if inNext < |input| then InBlock(s', outs', from', origin) else AllGiven(|s'|, ratio, |outs'|))
    {
      hide Emissions, Cubic, Position, WholeTurns, Ready, Short;
      ghost var good, n, frac := InBlock(s, outs, from, origin), |s|, fracPos;
      ShortExactly(fracPos.Floor, |input| - inpos, stride);
      inNext := ShiftTaps(input, inpos, s, outs, from);
      ghost var s' := s + input[inpos..inNext];
      if good {
        assert inNext == inpos ==> taps == TapsFrom(s', 0, false) && n == 3 && outs == [];
        ShiftArrives(s', |outs|, origin, n, frac, inNext - inpos);
      }
      outNext, more := Emit(out, outpos, s', outs, from, origin);
      if good && outNext < out.Length && inNext < |input| {
        TurnKeeps(s', outs + more, from + seq(|more|, _ => origin), origin, n, |outs|, inNext - inpos);
      }
    }

    method CopyThrough(input: seq<real>, out: array<real>) returns (n: nat)
      modifies out
      ensures n <= |input| && n <= out.Length && (n == |input| || n == out.Length) && out[..n] == input[..n]
      ensures forall i :: n <= i < out.Length ==> out[i] == old(out[i])
    {
      n := 0;
      while n < |input| && n < out.Length
        invariant n <= |input| && n <= out.Length && out[..n] == input[..n]
        invariant forall i :: n <= i < out.Length ==> out[i] == old(out[i])
      {
        out[n] := input[n];
        n := n + 1;
      }
    }

    /** The flush that is due, if the block is long enough for it. */
    method Begin(input: seq<real>) returns (inpos: nat, ghost good: bool)
      requires Valid()
      modifies `taps, `fracPos, `flush, `seen, `emitted, `origins
      ensures var restart := old(flush) && |input| * stride >= 3;
        && flush == (old(flush) && !restart) && inpos == (if restart then Min(3, |input|) else 0)
        && seen == (if restart then [] else old(seen)) && emitted == (if restart then [] else old(emitted))
        && origins == (if restart then [] else old(origins))
        && good == (((restart && |input| >= 3) || old(!flush && regular)) && Exact())
      ensures fracPos >= 0.0 && (good ==> InBlock(seen + input[..inpos], emitted, origins, |seen|))
      ensures good && inpos == |input| ==> AllGiven(|seen| + inpos, ratio, |emitted|)
    {
      inpos, good := 0, !flush && regular && Exact();
      assert seen + input[..0] == seen;
      Frames(|input|, stride);
      if flush && |input| * stride >= 3 {
        flush, fracPos := false, 0.0;
        var x0, x1, x2 := taps.x0, taps.x1, taps.x2;
        x0, inpos := NextIn(input, inpos, x0);
        x1, inpos := NextIn(input, inpos, x1);
        x2, inpos := NextIn(input, inpos, x2);
        taps := Taps(0.0, x0, x1, x2);
        good := |input| >= 3 && Exact();
        seen, emitted, origins := [], [], [];
        assert [] + input[..inpos] == input[..inpos];
        FirstIsAtStart(ratio);
      } else if good {
        BlockBegins(seen, emitted, origins);
      }
    }

    lemma BlockBegins(s: seq<real>, outs: seq<real>, from: seq<nat>)
      requires Tracks(s, outs, from) && AllGiven(|s|, ratio, |outs|)
      ensures InBlock(s, outs, from, |s|)
    {
      hide Position;
      if outs != [] {
        LastOutput(s, outs, from);
      }
    }

    /** The main loop. */
    method Run(input: seq<real>, start: nat, out: array<real>, ghost s: seq<real>, ghost outs: seq<real>,
               ghost from: seq<nat>, ghost good: bool)
      returns (n: nat)
      requires start <= |input| && fracPos >= 0.0 && ratio >= 0.0 && stride >= 1
      requires good ==> InBlock(s + input[..start], outs, from, |s|)
      requires good && start == |input| ==> AllGiven(|s| + start, ratio, |outs|)
      modifies `taps, `fracPos, out
      ensures fracPos >= 0.0 && n <= out.Length && forall i :: n <= i < out.Length ==> out[i] == old(out[i])
      ensures good ==> Emissions(s + input, ratio, outs + out[..n], from + seq(n, _ => |s|))
      ensures good && n < out.Length ==>
        Tracks(s + input, outs + out[..n], from + seq(n, _ => |s|)) && AllGiven(|s + input|, ratio, |outs| + n)
    {
      hide Tracks, AllGiven, InBlock, Emissions;
      n := 0;
      var inpos: nat := start;
      ghost var froms := from;
      assert outs + out[..0] == outs;
      if good {
        InBlockTracks(s + input[..start], outs, from, |s|);
      }
      while n < out.Length && inpos < |input|
        invariant inpos <= |input| && n <= out.Length && fracPos >= 0.0
        invariant forall i :: n <= i < out.Length ==> out[i] == old(out[i])
        invariant froms == from + seq(n, _ => |s|)
        invariant good ==> Tracks(s + input[..inpos], outs + out[..n], froms)
        invariant good && n < out.Length ==>
          if inpos < |input| then InBlock(s + input[..inpos], outs + out[..n], froms, |s|)
          else AllGiven(|s + input[..inpos]|, ratio, |outs| + n)
        decreases |input| - inpos + out.Length - n
      {
        ghost var was, before, count := out[..n], inpos, n;
        ghost var more;
        inpos, n, more := Turn(input, inpos, out, n, s + input[..inpos], outs + out[..n], froms, |s|);
        Joined(s, input, before, inpos);
        assert (outs + was) + more == outs + out[..n];
        froms := froms + seq(|more|, _ => |s|);
        assert seq(count, _ => |s|) + seq(|more|, _ => |s|) == seq(n, _ => |s|);
      }
      if good {
        TracksEmissions(s + input[..inpos], outs + out[..n], froms);
        EmissionsExtend(s + input[..inpos], input[inpos..], ratio, outs + out[..n], froms);
      }
      Joined(s, input, inpos, |input|);
      assert input[..|input|] == input;
    }

    lemma InBlockTracks(s: seq<real>, outs: seq<real>, from: seq<nat>, origin: nat)
      requires InBlock(s, outs, from, origin)
      ensures Tracks(s, outs, from)
    {
    }

    lemma TracksEmissions(s: seq<real>, outs: seq<real>, from: seq<nat>)
      requires Tracks(s, outs, from)
      ensures Emissions(s, ratio, outs, from)
    {
    }

    /** `process` at any other ratio. */
    method Resample(input: seq<real>, out: array<real>) returns (n: nat)
      requires Valid() && ratio != 1.0
      modifies `taps, `fracPos, `flush, `seen, `emitted, `origins, `regular, out
      ensures Valid() && n <= out.Length
      ensures forall i :: n <= i < out.Length ==> out[i] == old(out[i])
      ensures var restart := old(flush) && |input| * stride >= 3;
        var before := if restart then [] else old(seen);
        var good := ((restart && |input| >= 3) || old(!flush && regular)) && Exact();
        && flush == (old(flush) && !restart) && seen == before + input
        && emitted == (if restart then [] else old(emitted)) + out[..n]
        && origins == (if restart then [] else old(origins)) + seq(n, _ => |before|)
        && regular == (good && n < out.Length)
        && (good ==> Emissions(seen, ratio, emitted, origins))
    {
      hide Tracks, AllGiven, InBlock, Emissions;
      var inpos;
      ghost var good;
      inpos, good := Begin(input);
      n := Run(input, inpos, out, seen, emitted, origins, good);
      ghost var origin := |seen|;
      origins := origins + seq(n, _ => origin);
      seen, emitted, regular := seen + input, emitted + out[..n], good && n < out.Length;
    }

    /** `process`: at ratio 1 a copy.  Otherwise a block of three samples or more after a flush starts over.  If it has
        three frames and the ratio is exact, every output is the cubic at its position, except that its first tap may be
        late; and as long as the output does not fill up, all outputs that the samples so far allow have been given. */
    method Process(input: seq<real>, out: array<real>) returns (n: nat)
      requires Valid()
      modifies this, out
      ensures Valid() && ratio == old(ratio) && n <= out.Length
      ensures forall i :: n <= i < out.Length ==> out[i] == old(out[i])
      ensures ratio == 1.0 ==> n <= |input| && (n == |input| || n == out.Length) && out[..n] == input[..n]
      ensures ratio == 1.0 ==> flush == old(flush) && seen == old(seen) && emitted == old(emitted)
      ensures ratio == 1.0 ==> origins == old(origins) && regular == old(regular)
      ensures ratio != 1.0 ==>
        var restart := old(flush) && |input| * stride >= 3;
        var before := if restart then [] else old(seen);
        var good := ((restart && |input| >= 3) || old(!flush && regular)) && Exact();
        && flush == (old(flush) && !restart) && seen == before + input
        && emitted == (if restart then [] else old(emitted)) + out[..n]
        && origins == (if restart then [] else old(origins)) + seq(n, _ => |before|)
        && regular == (good && n < out.Length)
        && (good ==> Emissions(seen, ratio, emitted, origins))
      ensures !flush && regular ==> Emissions(seen, ratio, emitted, origins) && AllGiven(|seen|, ratio, |emitted|)
      ensures !flush && regular && ratio <= 2.0 ==> Complete(seen, ratio, emitted)
    {
      hide AllGiven, InBlock, Emissions, Complete;
      if ratio == 1.0 {
        n := CopyThrough(input, out);
      } else {
        n := Resample(input, out);
      }
      if !flush && regular && ratio <= 2.0 {
        SlowIsRight(seen, ratio, emitted, origins);
      }
    }
  }

  /** At ratio 3.5 a fresh resampler, given these six samples, gets the second output wrong. */
  method SkipThreeRun() returns (n: nat, out: array<real>)
    ensures n == 2 <= out.Length
    ensures out[1] != SeqOutput([0.0, 0.0, 1.0, 0.0, 0.0, 0.0], Position(1, 3.5))
  {
    hide Emissions, AllGiven, Complete, SeqOutput;
    var s := [0.0, 0.0, 1.0, 0.0, 0.0, 0.0];
    var r := new Resampler(1);
    r.SetSamplerateInOut(7, 2);
    out := new real[3];
    n := r.Process(s, out);
    assert [] + s == s && [] + out[..n] == out[..n];
    TwoOutputs(s, r.emitted, r.origins);
  }

  /** With two channels, if two samples are asked for and one frame is left, one sample is taken, and the position moves
      on by something else. */
  method ShortTurn() returns (took: nat, moved: real)
    ensures took == 1 && moved != 1.0 && Short(2, 1, 2)
  {
    var r := new Resampler(2);
    r.fracPos := 2.0;
    ShortExactly(2, 1, 2);
    took := r.ShiftTaps([0.0], 0, [], [], []);
    moved := 2.0 - r.fracPos;
  }

  /** Given the same samples in two blocks, of four and of two, it gets it right. */
  method SkipThreeCut() returns (n: nat, out: array<real>)
    ensures n == 1 <= out.Length
    ensures out[0] == SeqOutput([0.0, 0.0, 1.0, 0.0, 0.0, 0.0], Position(1, 3.5))
  {
    hide Emissions, AllGiven, Complete, SeqOutput;
    var s := [0.0, 0.0, 1.0, 0.0, 0.0, 0.0];
    var r := new Resampler(1);
    r.SetSamplerateInOut(7, 2);
    var first := new real[3];
    n := r.Process([0.0, 0.0, 1.0, 0.0], first);
    assert [] + [0.0, 0.0, 1.0, 0.0] == [0.0, 0.0, 1.0, 0.0] && [] + first[..n] == first[..n];
    OneOutput(r.seen, r.emitted, r.origins);
    out := new real[3];
    ghost var before := r.emitted;
    n := r.Process([0.0, 0.0], out);
    assert [0.0, 0.0, 1.0, 0.0] + [0.0, 0.0] == s;
    assert r.emitted == before + out[..n] && r.origins == [0] + seq(n, _ => 4);
    SecondOutput(s, r.emitted, r.origins);
  }

  lemma Joined(s: seq<real>, input: seq<real>, a: nat, b: nat)
    requires a <= b <= |input|
    ensures (s + input[..a]) + input[a..b] == s + input[..b]
  {
  }

  lemma EmissionWithin(s: seq<real>, ratio: real, emitted: seq<real>, origins: seq<nat>, k: nat)
    requires Emissions(s, ratio, emitted, origins)
    ensures k < |emitted| ==> Position(k, ratio) < |s| as real - 2.0
  {
  }

  lemma TwoOutputs(s: seq<real>, emitted: seq<real>, origins: seq<nat>)
    requires s == [0.0, 0.0, 1.0, 0.0, 0.0, 0.0] && Emissions(s, 3.5, emitted, origins)
    requires origins == seq(|emitted|, _ => 0) && (|emitted| < 3 ==> AllGiven(6, 3.5, |emitted|))
    ensures |emitted| == 2 && emitted[1] != SeqOutput(s, Position(1, 3.5))
  {
    hide Cubic;
    EmissionWithin(s, 3.5, emitted, origins, 2);
    EmissionExact(s, 3.5, emitted, origins, 1);
  }

  lemma OneOutput(s: seq<real>, emitted: seq<real>, origins: seq<nat>)
    requires |s| == 4 && Emissions(s, 3.5, emitted, origins) && (|emitted| < 3 ==> AllGiven(4, 3.5, |emitted|))
    requires origins == seq(|emitted|, _ => 0)
    ensures |emitted| == 1 && origins == [0]
  {
    EmissionWithin(s, 3.5, emitted, origins, 1);
  }

  lemma SecondOutput(s: seq<real>, emitted: seq<real>, origins: seq<nat>)
    requires |s| == 6 && Emissions(s, 3.5, emitted, origins) && |emitted| >= 1
    requires origins == [0] + seq(|emitted| - 1, _ => 4) && (|emitted| < 4 ==> AllGiven(6, 3.5, |emitted|))
    ensures |emitted| == 2 && emitted[1] == SeqOutput(s, Position(1, 3.5))
  {
    hide Cubic;
    EmissionWithin(s, 3.5, emitted, origins, 2);
    EmissionExact(s, 3.5, emitted, origins, 1);
  }

  lemma FirstIsAtStart(ratio: real)
    ensures Position(0, ratio) == 0.0
  {
  }
}
