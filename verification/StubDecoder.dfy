/** The boot stub's copy and LZ4 decoder, which work in place on a flat memory. */
module StubDecoder {
  import opened Bytes
  import opened Lz4Format

  // ----- copy -----

  /** Memory is `m` with `k` bytes from `src` on copied to `dst`. */
  ghost predicate Copied(m: seq<byte>, mem: array<byte>, dst: nat, src: nat, k: nat)
    reads mem
  {
    && |m| == mem.Length && dst + k <= |m| && src + k <= |m|
    && forall a {:trigger mem[a]} :: 0 <= a < |m| ==> mem[a] == if dst <= a < dst + k then m[src + (a - dst)] else m[a]
  }

  /** Bytes not copied yet are still what they were. */
  lemma Unread(m: seq<byte>, mem: array<byte>, dst: nat, src: nat, k: nat, i: nat, n: nat)
    requires Copied(m, mem, dst, src, k) && src + k <= i && i + n <= |m|
    requires dst <= src || i + n <= dst
    ensures mem[i..i + n] == m[i..i + n]
  {
    forall a | i <= a < i + n
      ensures mem[a] == m[a]
    {
    }
  }

  /** A little-endian word. */
  method Load32(mem: array<byte>, a: nat) returns (w: u32)
    requires a + 4 <= mem.Length
    ensures Le32(w) == mem[a..a + 4]
  {
    w := FromLe32(mem[a..a + 4]);
    FromLe32RoundTrip(mem[a..a + 4]);
  }

  method Store32(mem: array<byte>, a: nat, w: u32)
    requires a + 4 <= mem.Length
    modifies mem
    ensures forall i :: 0 <= i < mem.Length ==> mem[i] == if a <= i < a + 4 then Le32(w)[i - a] else old(mem[i])
  {
    var b := Le32(w);
    mem[a] := b[0];
    mem[a + 1] := b[1];
    mem[a + 2] := b[2];
    mem[a + 3] := b[3];
  }

  /** Move one word of a longer copy, `k` bytes into it. */
  method CopyWord(mem: array<byte>, dst: nat, src: nat, k: nat, w: u32, ghost m: seq<byte>)
    requires Copied(m, mem, dst, src, k) && dst + k + 4 <= mem.Length && src + k + 4 <= mem.Length
    requires Le32(w) == m[src + k..src + k + 4]
    modifies mem
    ensures Copied(m, mem, dst, src, k + 4)
  {
    ghost var m1 := mem[..];
    Store32(mem, dst + k, w);
    forall a | 0 <= a < |m|
      ensures mem[a] == if dst <= a < dst + k + 4 then m[src + (a - dst)] else m[a]
    {
      if dst + k <= a < dst + k + 4 {
        assert Le32(w)[a - (dst + k)] == m[src + k..src + k + 4][a - (dst + k)];
      } else {
        assert mem[a] == m1[a];
      }
    }
  }

  /** The loop body of the aligned path: four words are read, then four words are written. */
  method CopyWords(mem: array<byte>, dst: nat, src: nat, k: nat, ghost m: seq<byte>)
    requires Copied(m, mem, dst, src, k) && dst + k + 16 <= mem.Length && src + k + 16 <= mem.Length
    requires dst <= src || src + k + 16 <= dst
    modifies mem
    ensures Copied(m, mem, dst, src, k + 16)
  {
    var a := Load32(mem, src + k);
    var b := Load32(mem, src + k + 4);
    var c := Load32(mem, src + k + 8);
    var d := Load32(mem, src + k + 12);
    Unread(m, mem, dst, src, k, src + k, 4);
    Unread(m, mem, dst, src, k, src + k + 4, 4);
    Unread(m, mem, dst, src, k, src + k + 8, 4);
    Unread(m, mem, dst, src, k, src + k + 12, 4);
    CopyWord(mem, dst, src, k, a, m);
    CopyWord(mem, dst, src, k + 4, b, m);
    CopyWord(mem, dst, src, k + 8, c, m);
    CopyWord(mem, dst, src, k + 12, d, m);
  }

  method CopyByte(mem: array<byte>, dst: nat, src: nat, k: nat, ghost m: seq<byte>)
    requires Copied(m, mem, dst, src, k) && dst + k < mem.Length && src + k < mem.Length
    requires dst <= src || src + k < dst
    modifies mem
    ensures Copied(m, mem, dst, src, k + 1)
  {
    assert mem[src + k] == m[src + k];
    mem[dst + k] := mem[src + k];
  }

  /** The aligned path and the byte path both move `len` bytes, as long as no byte is overwritten before it is read. */
  method Copy(mem: array<byte>, dst: nat, src: nat, len: nat)
    requires dst + len <= mem.Length && src + len <= mem.Length
    requires dst <= src || src + len <= dst
    modifies mem
    ensures Copied(old(mem[..]), mem, dst, src, len)
  {
    ghost var m := mem[..];
    var k := 0;
    if dst % 4 == 0 && src % 4 == 0 {
      while len - k >= 16
        invariant k <= len
        invariant Copied(m, mem, dst, src, k)
      {
        CopyWords(mem, dst, src, k, m);
        k := k + 16;
      }
    }
    while k < len
      invariant k <= len
      invariant Copied(m, mem, dst, src, k)
    {
      CopyByte(mem, dst, src, k, m);
      k := k + 1;
    }
  }

  // ----- lz4_decompress -----

  /** The compressed stream `comp` lies at `src`, and the output so far `out` at `dst`, in memory that is
      otherwise still `m`.  The two regions do not meet, with room at `dst` for `size` bytes. */
  ghost predicate Decoding(m: seq<byte>, mem: array<byte>, src: nat, comp: seq<byte>, dst: nat, out: seq<byte>,
                           size: nat)
    reads mem
  {
    && |m| == mem.Length && src + |comp| <= |m| && dst + size <= |m| && |out| <= size
    && (dst + size <= src || src + |comp| <= dst)
    && (forall i :: 0 <= i < |comp| ==> mem[src + i] == comp[i])
    && (forall i :: 0 <= i < |out| ==> mem[dst + i] == out[i])
    && (forall a :: 0 <= a < |m| && !(dst <= a < dst + |out|) ==> mem[a] == m[a])
  }

  /** A length and its extension bytes, which a well-formed stream has. */
  method StubLength(mem: array<byte>, src: nat, i: nat, nibble: nat, ghost comp: seq<byte>)
    returns (length: nat, next: nat)
    requires src + |comp| <= mem.Length && forall k :: 0 <= k < |comp| ==> mem[src + k] == comp[k]
    requires i <= |comp| && ReadLength(comp, i, nibble).Length?
    ensures ReadLength(comp, i, nibble) == Length(length, next)
  {
    length, next := nibble, i;
    if nibble == 15 {
      ghost var all := ReadExtension(comp, i);
      var b := 255;
      while b == 255
        invariant 0 <= b <= 255 && i <= next <= |comp| && 15 <= length
        invariant b == 255 ==> ReadExtension(comp, next).Length?
        invariant b == 255 ==> all == Length(length - 15 + ReadExtension(comp, next).value,
                                             ReadExtension(comp, next).next)
        invariant b != 255 ==> all == Length(length - 15, next)
        decreases b == 255, |comp| - next
      {
        assert comp[next] == mem[src + next];
        b := mem[src + next];
        next := next + 1;
        length := length + b;
      }
    }
  }

  /** `while (mlen--) *d++ = *m++`: the bytes read may be bytes just written. */
  method StubMatch(mem: array<byte>, d: nat, from: nat, len: nat, ghost m: seq<byte>, ghost src: nat,
                   ghost comp: seq<byte>, ghost dst: nat, ghost out: seq<byte>, ghost size: nat)
    requires Decoding(m, mem, src, comp, dst, out, size)
    requires d == dst + |out| && dst <= from < d && |out| + len <= size
    modifies mem
    ensures Decoding(m, mem, src, comp, dst, CopyMatch(out, d - from, len), size)
  {
    ghost var cur := out;
    for k := 0 to len
      invariant |cur| == |out| + k
      invariant Decoding(m, mem, src, comp, dst, cur, size)
      invariant CopyMatch(cur, d - from, len - k) == CopyMatch(out, d - from, len)
    {
      PutByte(mem, d + k, from + k, m, src, comp, dst, cur, size);
      cur := cur + [cur[from + k - dst]];
    }
  }

  /** Append the byte at `from` to the output. */
  method PutByte(mem: array<byte>, d: nat, from: nat, ghost m: seq<byte>, ghost src: nat, ghost comp: seq<byte>,
                 ghost dst: nat, ghost out: seq<byte>, ghost size: nat)
    requires Decoding(m, mem, src, comp, dst, out, size) && |out| < size
    requires d == dst + |out| && dst <= from < d
    modifies mem
    ensures Decoding(m, mem, src, comp, dst, out + [out[from - dst]], size)
  {
    assert mem[dst + (from - dst)] == out[from - dst];
    mem[d] := mem[from];
    forall i | 0 <= i < |comp|
      ensures mem[src + i] == comp[i]
    {
    }
  }

  /** Output only ever grows. */
  lemma {:induction false} DecodeGrows(comp: seq<byte>, i: nat, out: seq<byte>)
    requires i <= |comp| && Decode(comp, i, out).Ok?
    ensures |out| <= |Decode(comp, i, out).out|
    decreases |comp| - i
  {
    if i < |comp| && DecodeRound(comp, i, out).Next? {
      DecodeGrows(comp, DecodeRound(comp, i, out).i, DecodeRound(comp, i, out).out);
    }
  }

  /** A stream that decodes cleanly from `i` on to `size` bytes of output. */
  ghost predicate Clean(comp: seq<byte>, i: nat, out: seq<byte>, size: nat) {
    && i <= |comp| && Decode(comp, i, out).Ok?
    && Decode(comp, i, out).cursor == |comp| && |Decode(comp, i, out).out| == size
  }

  /** In such a stream the literals at hand are all there, and what they and the match produce fits. */
  lemma {:induction false} CleanRound(comp: seq<byte>, i: nat, out: seq<byte>, size: nat, lits: Length)
    requires Clean(comp, i, out, size) && i < |comp| && lits == ReadLength(comp, i + 1, comp[i] / 16)
    ensures lits.Length? && lits.next + lits.value <= |comp| && |out| + lits.value <= size
    ensures lits.next + lits.value == |comp| ==> Decode(comp, i, out).out == out + comp[lits.next..]
    ensures lits.next + lits.value < |comp| ==>
      var round := DecodeMatch(comp, lits.next + lits.value, comp[i] % 16,
                               out + comp[lits.next..lits.next + lits.value]);
      DecodeRound(comp, i, out) == round && round.Next? && Clean(comp, round.i, round.out, size) && |round.out| <= size
  {
    var round := DecodeRound(comp, i, out);
    if round.Next? {
      DecodeGrows(comp, round.i, round.out);
    }
  }

  /** Copy `n` literals from index `i` of the stream to the end of the output. */
  method StubLiterals(mem: array<byte>, d: nat, from: nat, n: nat, ghost m: seq<byte>, ghost src: nat,
                      ghost comp: seq<byte>, ghost dst: nat, ghost out: seq<byte>, ghost size: nat)
    requires Decoding(m, mem, src, comp, dst, out, size)
    requires d == dst + |out| && src <= from && from + n <= src + |comp| && |out| + n <= size
    modifies mem
    ensures Decoding(m, mem, src, comp, dst, out + comp[from - src..from - src + n], size)
  {
    ghost var m1 := mem[..];
    Copy(mem, d, from, n);
    ghost var lits := comp[from - src..from - src + n];
    forall i | 0 <= i < |comp|
      ensures mem[src + i] == comp[i]
    {
      assert m1[src + i] == comp[i];
    }
    forall i | 0 <= i < |out + lits|
      ensures mem[dst + i] == (out + lits)[i]
    {
      if i < |out| {
        assert m1[dst + i] == out[i];
      } else {
        assert mem[dst + i] == m1[src + (from - src + (i - |out|))];
      }
    }
  }

  /** What the loop keeps: memory holds stream and output, and the stream from `i` on completes the output. */
  ghost predicate Running(m: seq<byte>, mem: array<byte>, src: nat, comp: seq<byte>, dst: nat, i: nat, out: seq<byte>)
    reads mem
  {
    && WellFormed(comp)
    && Decoding(m, mem, src, comp, dst, out, |Decoded(comp).out|)
    && Clean(comp, i, out, |Decoded(comp).out|)
    && Decode(comp, i, out) == Decoded(comp)
  }

  /** The literal half of one turn of the loop. */
  method TurnLiterals(mem: array<byte>, src: nat, i: nat, d: nat, ghost m: seq<byte>, ghost comp: seq<byte>,
                      ghost dst: nat, ghost out: seq<byte>)
    returns (next: nat, d': nat, ghost lits: seq<byte>)
    requires mem.Length <= TWO32 && Running(m, mem, src, comp, dst, i, out) && i < |comp| && d == dst + |out|
    modifies mem
    ensures Decoding(m, mem, src, comp, dst, lits, |Decoded(comp).out|) && d' == dst + |lits|
    ensures i < next <= |comp|
    ensures next == |comp| ==> lits == Decoded(comp).out
    ensures next < |comp| ==>
      var round := DecodeMatch(comp, next, comp[i] % 16, lits);
      round.Next? && round == DecodeRound(comp, i, out) && Clean(comp, round.i, round.out, |Decoded(comp).out|)
      && |round.out| <= |Decoded(comp).out|
  {
    hide ReadLength, ReadExtension, DecodeRound, DecodeMatch, Decode;
    ghost var size := |Decoded(comp).out|;
    assert mem[src + i] == comp[i];
    CleanRound(comp, i, out, size, ReadLength(comp, i + 1, comp[i] / 16));
    var litLen, from := StubLength(mem, src, i + 1, mem[src + i] / 16, comp);
    assert litLen < TWO32;
    StubLiterals(mem, d, src + from, litLen, m, src, comp, dst, out, size);
    lits := out + comp[from..from + litLen];
    next, d' := from + litLen, d + litLen;
    assert next == |comp| ==> comp[from..] == comp[from..from + litLen];
  }

  /** The match half of one turn of the loop. */
  method TurnMatch(mem: array<byte>, src: nat, i: nat, d: nat, nibble: nat, ghost m: seq<byte>, ghost comp: seq<byte>,
                   ghost dst: nat, ghost out: seq<byte>, ghost size: nat)
    returns (next: nat, d': nat)
    requires mem.Length <= TWO32 && Decoding(m, mem, src, comp, dst, out, size) && i < |comp| && d == dst + |out|
    requires var round := DecodeMatch(comp, i, nibble, out); round.Next? && |round.out| <= size
    modifies mem
    ensures var round := DecodeMatch(comp, i, nibble, out);
            next == round.i && d' == dst + |round.out| && Decoding(m, mem, src, comp, dst, round.out, size)
  {
    assert mem[src + i] == comp[i] && mem[src + (i + 1)] == comp[i + 1];
    var offset := FromLe16(mem[src + i], mem[src + i + 1]);
    var mlen;
    mlen, next := StubLength(mem, src, i + 2, nibble, comp);
    assert mlen + MINMATCH <= TWO32;
    StubMatch(mem, d, d - offset, mlen + MINMATCH, m, src, comp, dst, out, size);
    d' := d + mlen + MINMATCH;
  }

  /** The stub's `lz4_decompress`: on a well-formed stream it leaves at `dst` what the reference decoder returns,
      and touches nothing else.  No 32-bit length wraps, since each is at most a size within memory. */
  method Lz4Decompress(mem: array<byte>, src: nat, slen: nat, dst: nat) returns (n: nat)
    requires mem.Length <= TWO32 && src + slen <= mem.Length
    requires WellFormed(mem[src..src + slen])
    requires var size := |Decoded(mem[src..src + slen]).out|;
             dst + size <= mem.Length && (dst + size <= src || src + slen <= dst)
    modifies mem
    ensures var out := Decoded(old(mem[src..src + slen])).out;
            n == |out| && Decoding(old(mem[..]), mem, src, old(mem[src..src + slen]), dst, out, |out|)
  {
    ghost var m, comp := mem[..], mem[src..src + slen];
    ghost var out: seq<byte> := [];
    var i, d := 0, dst;
    while i < slen
      invariant d == dst + |out| && Running(m, mem, src, comp, dst, i, out)
      decreases slen - i
    {
      var token := mem[src + i];
      assert token == comp[i];
      ghost var lits;
      i, d, lits := TurnLiterals(mem, src, i, d, m, comp, dst, out);
      if i >= slen {
        out := lits;
        break;
      }
      out := DecodeMatch(comp, i, token % 16, lits).out;
      i, d := TurnMatch(mem, src, i, d, token % 16, m, comp, dst, lits, |Decoded(comp).out|);
    }
    n := d - dst;
  }
}
