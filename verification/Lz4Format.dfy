/**
 The LZ4 block format as data: a block is a list of sequences, each some literals and a match
 that copies from earlier output, followed by closing literals.  Expand says what a block means,
 Encode how it is written as bytes, Decode how the reference decoder reads bytes.
 */
module Lz4Format {
  import opened Bytes

  const MINMATCH := 4
  const MFLIMIT := 12
  const LASTLITERALS := 5

  datatype Sequence = Sequence(literals: seq<byte>, offset: nat, matchLen: nat)

  datatype Block = Block(sequences: seq<Sequence>, tail: seq<byte>)

  // ----- Meaning -----

  /** Append `n` bytes, each read `offset` bytes before the end, so that a match may overlap its own output. */
  function CopyMatch(out: seq<byte>, offset: nat, n: nat): (r: seq<byte>)
    requires 1 <= offset <= |out|
    ensures |r| == |out| + n
    decreases n
  {
    if n == 0 then out else CopyMatch(out + [out[|out| - offset]], offset, n - 1)
  }

  ghost predicate Expandable(s: Sequence, have: nat) {
    1 <= s.offset <= 0xFFFF && s.offset <= have + |s.literals| && MINMATCH <= s.matchLen
  }

  function Produced(s: Sequence): nat {
    |s.literals| + s.matchLen
  }

  function ExpandOne(out: seq<byte>, s: Sequence): (r: seq<byte>)
    requires Expandable(s, |out|)
    ensures |r| == |out| + Produced(s)
  {
    CopyMatch(out + s.literals, s.offset, s.matchLen)
  }

  function Init(ss: seq<Sequence>): seq<Sequence>
    requires ss != []
  {
    ss[..|ss| - 1]
  }

  function Last(ss: seq<Sequence>): Sequence
    requires ss != []
  {
    ss[|ss| - 1]
  }

  /** How much output the sequences stand for. */
  function EndOf(ss: seq<Sequence>): nat {
    if ss == [] then 0 else EndOf(Init(ss)) + Produced(Last(ss))
  }

  /** Every match reaches back into what precedes it. */
  ghost predicate AllExpandable(ss: seq<Sequence>) {
    ss == [] || (AllExpandable(Init(ss)) && Expandable(Last(ss), EndOf(Init(ss))))
  }

  function Expand(ss: seq<Sequence>): (r: seq<byte>)
    requires AllExpandable(ss)
    ensures |r| == EndOf(ss)
  {
    if ss == [] then [] else ExpandOne(Expand(Init(ss)), Last(ss))
  }

  // ----- Bytes -----

  function Nibble(n: nat): (r: byte)
    ensures r < 16
  {
    if n >= 15 then 15 else n
  }

  /** A length of 15 or more goes on after its nibble: 255s, then one byte below 255. */
  function ExtensionBytes(n: nat): (r: seq<byte>)
    ensures |r| == 1 + n / 255
  {
    if n >= 255 then [255] + ExtensionBytes(n - 255) else [n]
  }

  function LengthExtension(n: nat): seq<byte> {
    if n >= 15 then ExtensionBytes(n - 15) else []
  }

  function EncodeLiterals(literals: seq<byte>, matchNibble: byte): seq<byte>
    requires matchNibble < 16
  {
    [16 * Nibble(|literals|) + matchNibble] + LengthExtension(|literals|) + literals
  }

  function OffsetField(offset: nat): (r: seq<byte>)
    requires offset <= 0xFFFF
    ensures |r| == 2
  {
    [offset % 256, offset / 256]
  }

  function EncodeMatch(offset: nat, matchLen: nat): seq<byte>
    requires offset <= 0xFFFF && MINMATCH <= matchLen
  {
    OffsetField(offset) + LengthExtension(matchLen - MINMATCH)
  }

  function EncodeSequence(s: Sequence): seq<byte>
    requires s.offset <= 0xFFFF && MINMATCH <= s.matchLen
  {
    EncodeLiterals(s.literals, Nibble(s.matchLen - MINMATCH)) + EncodeMatch(s.offset, s.matchLen)
  }

  ghost predicate Encodable(ss: seq<Sequence>) {
    forall k :: 0 <= k < |ss| ==> ss[k].offset <= 0xFFFF && MINMATCH <= ss[k].matchLen
  }

  function EncodeSequences(ss: seq<Sequence>): seq<byte>
    requires Encodable(ss)
  {
    if ss == [] then [] else EncodeSequences(Init(ss)) + EncodeSequence(Last(ss))
  }

  function Encode(b: Block): seq<byte>
    requires Encodable(b.sequences)
  {
    EncodeSequences(b.sequences) + EncodeLiterals(b.tail, 0)
  }

  function FromLe16(lo: byte, hi: byte): nat {
    var l: int, h: int := lo, hi;
    l + 256 * h
  }

  // ----- The reference decoder -----

  /** What the reference decoder's loop comes to, and where its cursor stops.  A literal run cut off by the
      end of the stream is shortened without an error, but still moves the cursor by its full length. */
  datatype DecodeResult =
    | Ok(out: seq<byte>, cursor: nat)
    | IndexError
    | ZeroOffset
    | OffsetBeforeStart

  /** A length and the index after it. */
  datatype Length = Length(value: nat, next: nat) | Missing

  /** Sum bytes from index `i` up to and including the first one below 255. */
  function ReadExtension(comp: seq<byte>, i: nat): (r: Length)
    requires i <= |comp|
    ensures r.Length? ==> i < r.next <= |comp|
    decreases |comp| - i
  {
    if i == |comp| then Missing
    else if comp[i] != 255 then Length(comp[i], i + 1)
    else
      match ReadExtension(comp, i + 1)
      case Length(v, next) => Length(255 + v, next)
      case Missing => Missing
  }

  /** A length whose nibble is already read, continued at index `i`. */
  function ReadLength(comp: seq<byte>, i: nat, nibble: nat): (r: Length)
    requires i <= |comp|
    ensures r.Length? ==> i <= r.next <= |comp|
  {
    if nibble != 15 then Length(nibble, i)
    else
      match ReadExtension(comp, i)
      case Length(v, next) => Length(15 + v, next)
      case Missing => Missing
  }

  /** One round of the decoder's loop: it ends, or goes on at an index with more output. */
  datatype Round = Done(result: DecodeResult) | Next(i: nat, out: seq<byte>)

  /** The round that starts with the token at `i`, after `out` has been produced. */
  function DecodeRound(comp: seq<byte>, i: nat, out: seq<byte>): (r: Round)
    requires i < |comp|
    ensures r.Next? ==> i < r.i <= |comp|
  {
    TakeLiterals(comp, comp[i] % 16, out, ReadLength(comp, i + 1, comp[i] / 16))
  }

  /** The literal half of a round, its length having been read. */
  function TakeLiterals(comp: seq<byte>, matchNibble: nat, out: seq<byte>, l: Length): (r: Round)
    requires l.Length? ==> l.next <= |comp|
    ensures r.Next? ==> l.Length? && l.next < r.i <= |comp|
  {
    match l
    case Missing => Done(IndexError)
    case Length(litLen, lits) =>
      if lits + litLen >= |comp| then Done(Ok(out + comp[lits..], lits + litLen))
      else DecodeMatch(comp, lits + litLen, matchNibble, out + comp[lits..lits + litLen])
  }

  /** The match half of a round, with the offset field at `i`. */
  function DecodeMatch(comp: seq<byte>, i: nat, matchNibble: nat, out: seq<byte>): (r: Round)
    requires i < |comp|
    ensures r.Next? ==> i < r.i <= |comp|
  {
    if i + 1 >= |comp| then Done(IndexError)
    else TakeMatch(out, FromLe16(comp[i], comp[i + 1]), ReadLength(comp, i + 2, matchNibble))
  }

  /** A zero offset is refused before the length is looked at, one that is too large after. */
  function TakeMatch(out: seq<byte>, offset: nat, l: Length): Round {
    if offset == 0 then Done(ZeroOffset)
    else
      match l
      case Missing => Done(IndexError)
      case Length(len, next) =>
        if offset > |out| then Done(OffsetBeforeStart) else Next(next, CopyMatch(out, offset, len + MINMATCH))
  }

  function Decode(comp: seq<byte>, i: nat, out: seq<byte>): DecodeResult
    requires i <= |comp|
    decreases |comp| - i
  {
    if i == |comp| then Ok(out, i)
    else
      match DecodeRound(comp, i, out)
      case Done(result) => result
      case Next(i', out') => Decode(comp, i', out')
  }

  function Decoded(comp: seq<byte>): DecodeResult {
    Decode(comp, 0, [])
  }

  /** The stream decodes without error and its last literal run is all there. */
  ghost predicate WellFormed(comp: seq<byte>) {
    Decoded(comp).Ok? && Decoded(comp).cursor == |comp|
  }

  // ----- Encode then Decode is Expand -----

  ghost predicate At(comp: seq<byte>, i: nat, part: seq<byte>) {
    i + |part| <= |comp| && forall k :: 0 <= k < |part| ==> comp[i + k] == part[k]
  }

  lemma AtSplit(comp: seq<byte>, i: nat, a: seq<byte>, b: seq<byte>)
    requires At(comp, i, a + b)
    ensures At(comp, i, a) && At(comp, i + |a|, b)
  {
    assert forall k :: 0 <= k < |a| ==> (a + b)[k] == a[k];
    forall k | 0 <= k < |b|
      ensures comp[i + |a| + k] == b[k]
    {
      assert (a + b)[|a| + k] == b[k];
    }
  }

  lemma AtFirst(comp: seq<byte>, i: nat, part: seq<byte>)
    requires At(comp, i, part) && part != []
    ensures i < |comp| && comp[i] == part[0]
  {
  }

  lemma AtSlice(comp: seq<byte>, i: nat, part: seq<byte>)
    requires At(comp, i, part)
    ensures comp[i..i + |part|] == part
  {
  }

  lemma {:induction false} ExtensionAt(comp: seq<byte>, i: nat, n: nat)
    requires At(comp, i, ExtensionBytes(n))
    ensures ReadExtension(comp, i) == Length(n, i + |ExtensionBytes(n)|)
    decreases n
  {
    AtFirst(comp, i, ExtensionBytes(n));
    if n >= 255 {
      AtSplit(comp, i, [255], ExtensionBytes(n - 255));
      ExtensionAt(comp, i + 1, n - 255);
    }
  }

  lemma {:induction false} LengthAt(comp: seq<byte>, i: nat, n: nat)
    requires At(comp, i, LengthExtension(n))
    ensures ReadLength(comp, i, Nibble(n)) == Length(n, i + |LengthExtension(n)|)
  {
    if n >= 15 {
      ExtensionAt(comp, i, n - 15);
    }
  }

  lemma {:induction false} LiteralsAt(comp: seq<byte>, i: nat, literals: seq<byte>, nibble: byte, out: seq<byte>)
    requires nibble < 16 && At(comp, i, EncodeLiterals(literals, nibble))
    ensures var end := i + |EncodeLiterals(literals, nibble)|;
            DecodeRound(comp, i, out) == if end == |comp| then Done(Ok(out + literals, end))
                                         else DecodeMatch(comp, end, nibble, out + literals)
  {
    var n := |literals|;
    var token: byte := 16 * Nibble(n) + nibble;
    AtSplit(comp, i, [token] + LengthExtension(n), literals);
    AtSplit(comp, i, [token], LengthExtension(n));
    AtFirst(comp, i, [token]);
    LengthAt(comp, i + 1, n);
    assert token / 16 == Nibble(n) && token % 16 == nibble;
    var lits := i + 1 + |LengthExtension(n)|;
    AtSlice(comp, lits, literals);
    if lits + n == |comp| {
      assert comp[lits..] == comp[lits..lits + n];
    }
  }

  lemma {:induction false} OffsetAt(comp: seq<byte>, i: nat, offset: nat)
    requires offset <= 0xFFFF && At(comp, i, OffsetField(offset))
    ensures FromLe16(comp[i], comp[i + 1]) == offset
  {
    assert comp[i + 0] == OffsetField(offset)[0] && comp[i + 1] == OffsetField(offset)[1];
  }

  lemma MatchRead(comp: seq<byte>, i: nat, nibble: nat, offset: nat, len: nat, next: nat, out: seq<byte>)
    requires i + 1 < |comp| && FromLe16(comp[i], comp[i + 1]) == offset && 1 <= offset <= |out|
    requires ReadLength(comp, i + 2, nibble) == Length(len, next)
    ensures DecodeMatch(comp, i, nibble, out) == Next(next, CopyMatch(out, offset, len + MINMATCH))
  {
  }

  lemma {:induction false} MatchAt(comp: seq<byte>, i: nat, offset: nat, n: nat, out: seq<byte>)
    requires 1 <= offset <= 0xFFFF && offset <= |out|
    requires At(comp, i, EncodeMatch(offset, n + MINMATCH))
    ensures DecodeMatch(comp, i, Nibble(n), out)
         == Next(i + |EncodeMatch(offset, n + MINMATCH)|, CopyMatch(out, offset, n + MINMATCH))
  {
    AtSplit(comp, i, OffsetField(offset), LengthExtension(n));
    OffsetAt(comp, i, offset);
    LengthAt(comp, i + 2, n);
    MatchRead(comp, i, Nibble(n), offset, n, i + 2 + |LengthExtension(n)|, out);
  }

  lemma {:induction false} SequenceAt(comp: seq<byte>, i: nat, s: Sequence, out: seq<byte>)
    requires Expandable(s, |out|) && At(comp, i, EncodeSequence(s))
    ensures DecodeRound(comp, i, out) == Next(i + |EncodeSequence(s)|, ExpandOne(out, s))
  {
    hide DecodeRound, DecodeMatch, EncodeLiterals, EncodeMatch, CopyMatch, At, Nibble;
    var n := s.matchLen - MINMATCH;
    var lits := EncodeLiterals(s.literals, Nibble(n));
    AtSplit(comp, i, lits, EncodeMatch(s.offset, s.matchLen));
    LiteralsAt(comp, i, s.literals, Nibble(n), out);
    MatchAt(comp, i + |lits|, s.offset, n, out + s.literals);
  }

  lemma DecodeNext(comp: seq<byte>, i: nat, out: seq<byte>, i': nat, out': seq<byte>)
    requires i < |comp| && DecodeRound(comp, i, out) == Next(i', out')
    ensures Decode(comp, i, out) == Decode(comp, i', out')
  {
  }

  lemma {:induction false} SequencesAt(comp: seq<byte>, ss: seq<Sequence>)
    requires AllExpandable(ss) && Encodable(ss) && At(comp, 0, EncodeSequences(ss))
    ensures Decoded(comp) == Decode(comp, |EncodeSequences(ss)|, Expand(ss))
    decreases ss
  {
    hide DecodeRound, EncodeSequence, ExpandOne, At, Decode;
    if ss != [] {
      var init, last := EncodeSequences(Init(ss)), EncodeSequence(Last(ss));
      AtSplit(comp, 0, init, last);
      SequencesAt(comp, Init(ss));
      SequenceAt(comp, |init|, Last(ss), Expand(Init(ss)));
      DecodeNext(comp, |init|, Expand(Init(ss)), |init| + |last|, Expand(ss));
    }
  }

  /** Decoding the bytes of any block whose matches reach back into its own output gives what it means. */
  lemma {:induction false} DecodeEncode(b: Block)
    requires AllExpandable(b.sequences) && Encodable(b.sequences)
    ensures Decoded(Encode(b)) == Ok(Expand(b.sequences) + b.tail, |Encode(b)|)
  {
    var comp, end := Encode(b), EncodeLiterals(b.tail, 0);
    assert At(comp, 0, EncodeSequences(b.sequences)) && At(comp, |EncodeSequences(b.sequences)|, end);
    SequencesAt(comp, b.sequences);
    LiteralsAt(comp, |EncodeSequences(b.sequences)|, b.tail, 0, Expand(b.sequences));
  }

  lemma Assoc(a: seq<byte>, b: seq<byte>, c: seq<byte>)
    ensures (a + b) + c == a + (b + c)
  {
  }
}
