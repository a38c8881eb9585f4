/** The packer: greedy LZ4 compression, the decoder that checks its output, and the header of the packed file. */
module Lz4Pack {
  import opened Bytes
  import opened Crc32
  import opened Lz4Format
  import opened Lz4Search

  const PACK_MAGIC: u32 := 0x58534D4D

  // ----- What a compressed block must be -----

  /** End-of-block conditions, for an output of `n` bytes. */
  ghost predicate LegalOne(s: Sequence, at: nat, n: nat) {
    var start, end := at + |s.literals|, at + Produced(s);
    && Expandable(s, at)
    && start + MFLIMIT < n
    && end + LASTLITERALS <= n
  }

  ghost predicate Legal(ss: seq<Sequence>, n: nat) {
    ss == [] || (Legal(Init(ss), n) && LegalOne(Last(ss), EndOf(Init(ss)), n))
  }

  /** No match could have been one byte longer: it stops at the match limit or at a difference. */
  ghost predicate Longest(ss: seq<Sequence>, src: seq<byte>)
    requires Legal(ss, |src|)
  {
    ss == [] ||
    var end := EndOf(ss);
    && (end + LASTLITERALS == |src| || src[end] != src[end - Last(ss).offset])
    && Longest(Init(ss), src)
  }

  /** `b` is a legal block, its matches are as long as they can be, and it stands for `src`. */
  ghost predicate IsBlockOf(b: Block, src: seq<byte>) {
    && Legal(b.sequences, |src|)
    && Longest(b.sequences, src)
    && (b.sequences != [] ==> LASTLITERALS <= |b.tail|)
    && AllExpandable(b.sequences) && Encodable(b.sequences)
    && Expand(b.sequences) + b.tail == src
  }

  // ----- The compressor's view: sequences describe a prefix of the source -----

  ghost predicate Matches(src: seq<byte>, at: nat, offset: nat, len: nat) {
    1 <= offset <= at && at + len <= |src| &&
    forall k :: at <= k < at + len ==> src[k] == src[k - offset]
  }

  ghost predicate DescribesOne(s: Sequence, at: nat, src: seq<byte>) {
    var start, end := at + |s.literals|, at + Produced(s);
    && start + MFLIMIT < |src| && end + LASTLITERALS <= |src|
    && s.literals == src[at..start]
    && s.offset <= 0xFFFF && MINMATCH <= s.matchLen
    && Matches(src, start, s.offset, s.matchLen)
    && (end + LASTLITERALS == |src| || src[end] != src[end - s.offset])
  }

  ghost predicate Describes(ss: seq<Sequence>, src: seq<byte>) {
    ss == [] || (Describes(Init(ss), src) && DescribesOne(Last(ss), EndOf(Init(ss)), src))
  }

  /** A match over a matching stretch of the source reproduces that stretch, overlap included. */
  lemma {:induction false} CopyMatchIsSource(src: seq<byte>, at: nat, offset: nat, len: nat)
    requires Matches(src, at, offset, len)
    ensures CopyMatch(src[..at], offset, len) == src[..at + len]
    decreases len
  {
    if len > 0 {
      assert src[..at] + [src[..at][at - offset]] == src[..at + 1];
      CopyMatchIsSource(src, at + 1, offset, len - 1);
    }
  }

  lemma {:induction false} DescribedOneExpands(s: Sequence, at: nat, src: seq<byte>)
    requires DescribesOne(s, at, src)
    ensures LegalOne(s, at, |src|) && ExpandOne(src[..at], s) == src[..at + Produced(s)]
  {
    assert src[..at] + s.literals == src[..at + |s.literals|];
    CopyMatchIsSource(src, at + |s.literals|, s.offset, s.matchLen);
  }

  lemma {:induction false} DescribesLegal(ss: seq<Sequence>, src: seq<byte>)
    requires Describes(ss, src)
    ensures Legal(ss, |src|)
    ensures EndOf(ss) <= |src| && (ss != [] ==> EndOf(ss) + LASTLITERALS <= |src|)
    decreases ss
  {
    if ss != [] {
      DescribesLegal(Init(ss), src);
      DescribedOneExpands(Last(ss), EndOf(Init(ss)), src);
    }
  }

  lemma {:induction false} DescribesLongest(ss: seq<Sequence>, src: seq<byte>)
    requires Describes(ss, src) && Legal(ss, |src|)
    ensures Longest(ss, src)
    decreases ss
  {
    if ss != [] {
      DescribesLongest(Init(ss), src);
    }
  }

  lemma {:induction false} DescribesExpands(ss: seq<Sequence>, src: seq<byte>)
    requires Describes(ss, src)
    ensures EndOf(ss) <= |src| && AllExpandable(ss) && Expand(ss) == src[..EndOf(ss)]
    decreases ss
  {
    if ss != [] {
      DescribesExpands(Init(ss), src);
      DescribedOneExpands(Last(ss), EndOf(Init(ss)), src);
    }
  }

  lemma {:induction false} DescribedBlock(ss: seq<Sequence>, src: seq<byte>)
    requires Describes(ss, src) && Encodable(ss)
    ensures EndOf(ss) <= |src| && IsBlockOf(Block(ss, src[EndOf(ss)..]), src)
  {
    DescribesLegal(ss, src);
    DescribesLongest(ss, src);
    DescribesExpands(ss, src);
  }

  // ----- How large the output can be -----

  lemma FloorSum(a: nat, b: nat)
    ensures a / 255 + b / 255 <= (a + b) / 255
  {
  }

  /** A sequence saves at least the byte it needs: its match of 4 bytes or more pays for token, offset and extension. */
  lemma SequenceSize(s: Sequence)
    requires s.offset <= 0xFFFF && MINMATCH <= s.matchLen
    ensures |EncodeSequence(s)| <= Produced(s) + Produced(s) / 255
  {
    FloorSum(|s.literals|, s.matchLen);
  }

  lemma {:induction false} SequencesSize(ss: seq<Sequence>)
    requires Encodable(ss)
    ensures |EncodeSequences(ss)| <= EndOf(ss) + EndOf(ss) / 255
    decreases ss
  {
    if ss != [] {
      SequencesSize(Init(ss));
      SequenceSize(Last(ss));
      FloorSum(EndOf(Init(ss)), Produced(Last(ss)));
    }
  }

  lemma BlockSize(ss: seq<Sequence>, tail: seq<byte>, n: nat)
    requires Encodable(ss) && n == EndOf(ss) + |tail|
    ensures |Encode(Block(ss, tail))| <= n + n / 255 + 2
  {
    SequencesSize(ss);
    FloorSum(EndOf(ss), |tail|);
  }

  // ----- lz4_compress -----

  /** The bytes that carry on a length of 15 or more. */
  method AppendLength(out: seq<byte>, length: nat) returns (r: seq<byte>)
    ensures r == out + LengthExtension(length)
  {
    r := out;
    if length >= 15 {
      var rem := length - 15;
      while rem >= 255
        invariant r + ExtensionBytes(rem) == out + ExtensionBytes(length - 15)
      {
        Assoc(r, [255], ExtensionBytes(rem - 255));
        r := r + [255];
        rem := rem - 255;
      }
      r := r + [rem];
    }
  }

  method AppendLiterals(out: seq<byte>, literals: seq<byte>, tokMat: byte) returns (r: seq<byte>)
    requires tokMat < 16
    ensures r == out + EncodeLiterals(literals, tokMat)
  {
    var litLen := |literals|;
    var tokLit := if litLen >= 15 then 15 else litLen;
    r := out + [16 * tokLit + tokMat];
    r := AppendLength(r, litLen);
    r := r + literals;
    Assoc(out, [16 * tokLit + tokMat], LengthExtension(litLen));
    Assoc(out, [16 * tokLit + tokMat] + LengthExtension(litLen), literals);
  }

  method EmitSequence(out: seq<byte>, src: seq<byte>, anchor: nat, i: nat, mlenMinus4: nat, offset: nat)
    returns (r: seq<byte>)
    requires anchor <= i <= |src| && offset <= 0xFFFF
    ensures r == out + EncodeSequence(Sequence(src[anchor..i], offset, mlenMinus4 + MINMATCH))
  {
    var tokMat := if mlenMinus4 >= 15 then 15 else mlenMinus4;
    r := AppendLiterals(out, src[anchor..i], tokMat);
    ghost var lits := EncodeLiterals(src[anchor..i], tokMat);
    r := r + [offset % 256, offset / 256];
    r := AppendLength(r, mlenMinus4);
    Assoc(out + lits, [offset % 256, offset / 256], LengthExtension(mlenMinus4));
    Assoc(out, lits, EncodeMatch(offset, mlenMinus4 + MINMATCH));
  }

  lemma ChunkMatches(src: seq<byte>, m: nat, r: nat)
    requires m + 64 <= |src| && r < m && src[m..m + 64] == src[r..r + 64]
    ensures forall k :: m <= k < m + 64 ==> src[k] == src[k - (m - r)]
  {
    forall k | m <= k < m + 64
      ensures src[k] == src[k - (m - r)]
    {
      assert src[m..m + 64][k - m] == src[r..r + 64][k - m];
    }
  }

  /** Extend a 4-byte match, 64 bytes at a time and then byte by byte, to the longest one before the limit. */
  method ExtendMatch(src: seq<byte>, i: nat, ref: nat, matchLimit: nat) returns (m: nat)
    requires ref < i && i + MINMATCH <= matchLimit <= |src|
    requires Matches(src, i, i - ref, MINMATCH)
    ensures i + MINMATCH <= m <= matchLimit
    ensures Matches(src, i, i - ref, m - i)
    ensures m == matchLimit || src[m] != src[m - (i - ref)]
  {
    m := i + 4;
    var r := ref + 4;
    while m + 64 <= matchLimit && src[m..m + 64] == src[r..r + 64]
      invariant m - r == i - ref && i + 4 <= m <= matchLimit
      invariant Matches(src, i, i - ref, m - i)
      decreases matchLimit - m
    {
      ChunkMatches(src, m, r);
      m := m + 64;
      r := r + 64;
    }
    while m < matchLimit && src[m] == src[r]
      invariant m - r == i - ref && i + 4 <= m <= matchLimit
      invariant Matches(src, i, i - ref, m - i)
    {
      m := m + 1;
      r := r + 1;
    }
  }

  /** What the main loop keeps: the output so far encodes sequences that describe the source up to the anchor. */
  ghost predicate Progress(ss: seq<Sequence>, out: seq<byte>, anchor: nat, src: seq<byte>) {
    && Describes(ss, src) && EndOf(ss) == anchor
    && Encodable(ss) && out == EncodeSequences(ss)
  }

  lemma {:induction false} ProgressAppend(ss: seq<Sequence>, out: seq<byte>, anchor: nat, src: seq<byte>, s: Sequence)
    requires Progress(ss, out, anchor, src) && DescribesOne(s, anchor, src)
    ensures Progress(ss + [s], out + EncodeSequence(s), anchor + Produced(s), src)
  {
    assert Init(ss + [s]) == ss && Last(ss + [s]) == s;
  }

  lemma {:induction false} ProgressMatch(ss: seq<Sequence>, out: seq<byte>, anchor: nat, src: seq<byte>, i: nat,
                                         offset: nat, m: nat)
    requires Progress(ss, out, anchor, src) && anchor <= i < |src| - MFLIMIT
    requires offset <= 0xFFFF && i + MINMATCH <= m <= |src| - LASTLITERALS && Matches(src, i, offset, m - i)
    requires m + LASTLITERALS == |src| || src[m] != src[m - offset]
    ensures var s := Sequence(src[anchor..i], offset, m - i);
            Progress(ss + [s], out + EncodeSequence(s), m, src)
  {
    var s := Sequence(src[anchor..i], offset, m - i);
    hide Progress, EncodeSequence, Describes;
    ProgressAppend(ss, out, anchor, src, s);
  }

  lemma {:induction false} ProgressDone(ss: seq<Sequence>, out: seq<byte>, anchor: nat, src: seq<byte>)
    requires Progress(ss, out, anchor, src) && anchor <= |src|
    ensures IsBlockOf(Block(ss, src[anchor..]), src)
    ensures |Encode(Block(ss, src[anchor..]))| <= |src| + |src| / 255 + 2
  {
    DescribedBlock(ss, src);
    BlockSize(ss, src[anchor..], |src|);
  }

  /** Extend the match at `ref` and emit it after the pending literals. */
  method EmitMatch(out: seq<byte>, src: seq<byte>, anchor: nat, i: nat, ref: nat) returns (r: seq<byte>, m: nat)
    requires anchor <= i && ref < i < |src| - MFLIMIT
    requires i - ref <= 0xFFFF && Matches(src, i, i - ref, MINMATCH)
    ensures i + MINMATCH <= m <= |src| - LASTLITERALS && Matches(src, i, i - ref, m - i)
    ensures m + LASTLITERALS == |src| || src[m] != src[m - (i - ref)]
    ensures r == out + EncodeSequence(Sequence(src[anchor..i], i - ref, m - i))
  {
    m := ExtendMatch(src, i, ref, |src| - LASTLITERALS);
    r := EmitSequence(out, src, anchor, i, m - i - MINMATCH, i - ref);
  }

  /** The match branch of the main loop keeps what the loop keeps. */
  method MatchBranch(out: seq<byte>, src: seq<byte>, anchor: nat, i: nat, ref: nat, ghost ss: seq<Sequence>)
    returns (r: seq<byte>, m: nat, ghost more: seq<Sequence>)
    requires Progress(ss, out, anchor, src) && anchor <= i && ref < i < |src| - MFLIMIT
    requires i - ref <= 0xFFFF && Matches(src, i, i - ref, MINMATCH)
    ensures i < m <= |src| - LASTLITERALS && Progress(more, r, m, src)
    ensures more == ss + [Sequence(src[anchor..i], i - ref, m - i)]
  {
    hide Progress, EncodeSequence, Matches;
    r, m := EmitMatch(out, src, anchor, i, ref);
    ProgressMatch(ss, out, anchor, src, i, i - ref, m);
    more := ss + [Sequence(src[anchor..i], i - ref, m - i)];
  }

  /** What the main loop knows of its search: everything looked at is decided, and the table holds it. */
  ghost predicate Tabled(ss: seq<Sequence>, src: seq<byte>, since: seq<nat>, i: nat, misses: nat, table: seq<int>) {
    Searching(ss, src, since, i, misses) && TableHolds(table, LooksOf(ss) + since, src)
  }

  /** Nothing usable: go on. */
  lemma TabledMiss(ss: seq<Sequence>, src: seq<byte>, since: seq<nat>, i: nat, misses: nat, table: seq<int>)
    requires Tabled(ss, src, since, i, misses, table) && i + MFLIMIT < |src|
    requires var ref := table[HashAt(src, i)];
             !(0 <= ref && i - ref <= 0xFFFF && src[ref..ref + 4] == src[i..i + 4])
    ensures Tabled(ss, src, since + [i], i + 1 + misses / 64, misses + 1, table[HashAt(src, i) := i])
  {
    hide HashAt, Searching, TableHolds, Usable, LooksOf;
    var looked := LooksOf(ss) + since;
    SearchedBefore(ss, src, since, i, misses);
    TableFinds(table, looked, src, i);
    TableNotes(table, looked, src, i);
    SearchMisses(ss, src, since, i, misses);
  }

  /** A match: go on at its end. */
  lemma TabledHit(ss: seq<Sequence>, src: seq<byte>, since: seq<nat>, i: nat, misses: nat, table: seq<int>,
                  s: Sequence, m: nat)
    requires Tabled(ss, src, since, i, misses, table) && i + MFLIMIT < |src| && i < m
    requires StartAfter(EndOf(ss), s) == i && EndOf(ss + [s]) == m && s.offset <= i
    requires table[HashAt(src, i)] == i - s.offset && s.offset <= 0xFFFF
    requires src[i - s.offset..i - s.offset + 4] == src[i..i + 4]
    ensures Tabled(ss + [s], src, [], m, 0, table[HashAt(src, i) := i])
  {
    hide HashAt, Searching, TableHolds, Usable, LooksOf;
    var looked := LooksOf(ss) + since;
    SearchedBefore(ss, src, since, i, misses);
    TableFinds(table, looked, src, i);
    TableNotes(table, looked, src, i);
    SearchHits(ss, src, since, i, misses, s, m);
  }

  lemma Beginning(src: seq<byte>, table: seq<int>)
    requires |table| == HASH_SIZE && forall h :: 0 <= h < HASH_SIZE ==> table[h] == -1
    ensures Progress([], [], 0, src) && Tabled([], src, [], 0, 0, table)
  {
    SearchBegins(src);
    NothingNoted(src, table);
  }

  lemma HashAtIs(src: seq<byte>, i: nat)
    requires i + 4 <= |src|
    ensures HashAt(src, i) == Hash(WordAt(src, i))
  {
  }

  lemma TabledBefore(ss: seq<Sequence>, src: seq<byte>, since: seq<nat>, i: nat, misses: nat, table: seq<int>)
    requires Tabled(ss, src, since, i, misses, table) && i + 4 <= |src|
    ensures |table| == HASH_SIZE && table[HashAt(src, i)] < i
    ensures table[HashAt(src, i)] + 4 <= |src|
  {
    hide HashAt, Searching, Usable, LooksOf;
    SearchedBefore(ss, src, since, i, misses);
    TableFinds(table, LooksOf(ss) + since, src, i);
  }

  lemma MatchEnds(ss: seq<Sequence>, out: seq<byte>, anchor: nat, src: seq<byte>, i: nat, ref: nat, m: nat)
    requires Progress(ss, out, anchor, src) && anchor <= i <= |src| && ref <= i <= m
    ensures var s := Sequence(src[anchor..i], i - ref, m - i);
            StartAfter(EndOf(ss), s) == i && EndOf(ss + [s]) == m
  {
    var s := Sequence(src[anchor..i], i - ref, m - i);
    assert Init(ss + [s]) == ss && Last(ss + [s]) == s;
  }

  lemma TabledEnds(ss: seq<Sequence>, src: seq<byte>, since: seq<nat>, i: nat, misses: nat, table: seq<int>)
    requires Tabled(ss, src, since, i, misses, table) && i + MFLIMIT >= |src|
    ensures Found(ss, src)
  {
    SearchEnds(ss, src, since, i, misses);
  }

  lemma SearchedBefore(ss: seq<Sequence>, src: seq<byte>, since: seq<nat>, i: nat, misses: nat)
    requires Searching(ss, src, since, i, misses)
    ensures Before(LooksOf(ss) + since, i)
  {
  }

  /** The main loop: the sequences emitted describe the source, and are the ones that the search finds. */
  method CompressSequences(src: seq<byte>) returns (out: seq<byte>, anchor: nat, ghost ss: seq<Sequence>)
    ensures anchor <= |src| && Progress(ss, out, anchor, src) && Found(ss, src)
  {
    hide Progress, Tabled, HashAt, LooksOf;
    out, anchor, ss := [], 0, [];
    var table := new int[HASH_SIZE](_ => -1);
    var i: nat := 0;
    var mflimit := |src| - MFLIMIT;
    var searchCount: nat := 0;
    ghost var since: seq<nat> := [];
    Beginning(src, table[..]);
    while i < mflimit
      invariant anchor <= i && anchor <= |src| && Progress(ss, out, anchor, src)
      invariant table.Length == HASH_SIZE && Tabled(ss, src, since, i, searchCount, table[..])
      decreases mflimit - i
    {
      TabledBefore(ss, src, since, i, searchCount, table[..]);
      ghost var was := table[..];
      var h := Hash(WordAt(src, i));
      assert h == HashAt(src, i) by {
        HashAtIs(src, i);
      }
      var ref := table[h];
      table[h] := i;
      if ref >= 0 && i - ref <= 0xFFFF && src[ref..ref + 4] == src[i..i + 4] {
        MatchFromSlices(src, ref, i);
        ghost var before, at, start := ss, anchor, i;
        ghost var written := out;
        out, i, ss := MatchBranch(out, src, anchor, i, ref, ss);
        MatchEnds(before, written, at, src, start, ref, i);
        TabledHit(before, src, since, start, searchCount, was, Sequence(src[at..start], start - ref, i - start), i);
        anchor := i;
        searchCount := 0;
        since := [];
      } else {
        TabledMiss(ss, src, since, i, searchCount, was);
        since := since + [i];
        i := i + 1 + searchCount / 64;
        searchCount := searchCount + 1;
      }
    }
    TabledEnds(ss, src, since, i, searchCount, table[..]);
  }

  /** The compressor's output is the encoding of a legal block for `src`, and hardly larger than `src`. */
  method Lz4Compress(src: seq<byte>) returns (out: seq<byte>, ghost block: Block)
    ensures src == [] ==> out == []
    ensures src != [] ==> IsBlockOf(block, src) && Found(block.sequences, src) && out == Encode(block)
    ensures src != [] ==> |out| <= |src| + |src| / 255 + 2
  {
    out := [];
    block := Block([], []);
    if |src| != 0 {
      var anchor;
      ghost var ss;
      out, anchor, ss := CompressSequences(src);
      ProgressDone(ss, out, anchor, src);
      block := Block(ss, src[anchor..]);
      out := AppendLiterals(out, src[anchor..], 0);
    }
  }

  lemma MatchFromSlices(src: seq<byte>, ref: nat, i: nat)
    requires ref < i && i + 4 <= |src| && src[ref..ref + 4] == src[i..i + 4]
    ensures Matches(src, i, i - ref, MINMATCH)
  {
    forall k | i <= k < i + 4
      ensures src[k] == src[k - (i - ref)]
    {
      assert src[i..i + 4][k - i] == src[ref..ref + 4][k - i];
    }
  }

  // ----- lz4_decompress -----

  datatype Unpacked = Data(bytes: seq<byte>) | CorruptStream(why: DecodeResult) | WrongSize

  /** What the reference decoder makes of `comp` when told to expect `size` bytes. */
  function Decompressed(comp: seq<byte>, size: nat): Unpacked {
    match Decoded(comp)
    case Ok(out, _) => if |out| == size then Data(out) else WrongSize
    case error => CorruptStream(error)
  }

  function Plus(v: nat, l: Length): Length {
    match l
    case Length(v', next) => Length(v + v', next)
    case Missing => Missing
  }

  /** Read a length's extension bytes from index `i`, as the decoder's `while True` loops do. */
  method ReadLengthAt(comp: seq<byte>, i: nat, nibble: nat) returns (l: Length)
    requires i <= |comp|
    ensures l == ReadLength(comp, i, nibble)
  {
    if nibble != 15 {
      return Length(nibble, i);
    }
    var length: nat, next: nat, b: int := 15, i, 255;
    while b == 255
      invariant i <= next <= |comp| && 0 <= b <= 255 && 15 <= length
      invariant b == 255 ==> ReadExtension(comp, i) == Plus(length - 15, ReadExtension(comp, next))
      invariant b != 255 ==> ReadExtension(comp, i) == Length(length - 15, next)
      decreases b == 255, |comp| - next
    {
      if next == |comp| {
        return Missing;
      }
      b := comp[next];
      next := next + 1;
      length := length + b;
    }
    return Length(length, next);
  }

  /** The byte-wise copy: a match may read bytes it has itself written. */
  method CopyMatchBytes(out: seq<byte>, offset: nat, len: nat) returns (r: seq<byte>)
    requires 1 <= offset <= |out|
    ensures r == CopyMatch(out, offset, len)
  {
    r := out;
    var start := |out| - offset;
    for k := 0 to len
      invariant |r| == |out| + k
      invariant CopyMatch(r, offset, len - k) == CopyMatch(out, offset, len)
    {
      r := r + [r[start + k]];
    }
  }

  /** One turn of the decoder's loop. */
  method Turn(comp: seq<byte>, i: nat, out: seq<byte>) returns (round: Round)
    requires i < |comp|
    ensures round == DecodeRound(comp, i, out)
  {
    var token := comp[i];
    var lit := ReadLengthAt(comp, i + 1, token / 16);
    if lit.Missing? {
      return Done(IndexError);
    }
    var cur := lit.next + lit.value;
    if cur >= |comp| {
      return Done(Ok(out + comp[lit.next..], cur));
    }
    var copied := out + comp[lit.next..cur];
    if cur + 1 >= |comp| {
      return Done(IndexError);
    }
    var offset := FromLe16(comp[cur], comp[cur + 1]);
    if offset == 0 {
      return Done(ZeroOffset);
    }
    var len := ReadLengthAt(comp, cur + 2, token % 16);
    if len.Missing? {
      return Done(IndexError);
    }
    if offset > |copied| {
      return Done(OffsetBeforeStart);
    }
    var r := CopyMatchBytes(copied, offset, len.value + MINMATCH);
    return Next(len.next, r);
  }

  method Lz4Decompress(comp: seq<byte>, expectedSize: nat) returns (r: Unpacked)
    ensures r == Decompressed(comp, expectedSize)
  {
    var out: seq<byte>, i := [], 0;
    while i < |comp|
      invariant 0 <= i <= |comp|
      invariant Decode(comp, i, out) == Decoded(comp)
    {
      var round := Turn(comp, i, out);
      if round.Next? {
        i, out := round.i, round.out;
      } else if round.result.Ok? {
        out := round.result.out;
        break;
      } else {
        return CorruptStream(round.result);
      }
    }
    r := if |out| == expectedSize then Data(out) else WrongSize;
  }

  // ----- The packed file -----

  const PACK_HEADER_SIZE := 16

  function PackHeader(usize: u32, csize: u32, crc: u32): seq<byte> {
    Le32(PACK_MAGIC) + Le32(usize) + Le32(csize) + Le32(crc)
  }

  /** Compressing any source, then decoding the result, gives the source back: the packer's own check never fails. */
  lemma {:induction false} BlockDecompresses(b: Block, src: seq<byte>)
    requires IsBlockOf(b, src)
    ensures WellFormed(Encode(b)) && Decoded(Encode(b)).out == src
    ensures Decompressed(Encode(b), |src|) == Data(src)
  {
    DecodeEncode(b);
  }

  datatype PackResult = Packed(file: seq<byte>) | RoundTripFailed | TooLarge

  /** `main` of the packer: compress, check with the reference decoder, prepend the header.
      The sizes go into 32-bit fields; a source that does not fit is refused when the header is built. */
  method Pack(src: seq<byte>) returns (r: PackResult, comp: seq<byte>, ghost block: Block)
    ensures src == [] ==> comp == []
    ensures src != [] ==> IsBlockOf(block, src) && Found(block.sequences, src) && comp == Encode(block)
    ensures WellFormed(comp) && Decoded(comp).out == src
    ensures |comp| <= |src| + |src| / 255 + 2
    ensures r.TooLarge? <==> |src| >= TWO32 || |comp| >= TWO32
    ensures !r.TooLarge? ==> Crc(src) < TWO32 && r == Packed(PackHeader(|src|, |comp|, Crc(src)) + comp)
  {
    var compressed;
    compressed, block := Lz4Compress(src);
    comp := compressed;
    if src != [] {
      BlockDecompresses(block, src);
    }
    var roundTrip := Lz4Decompress(compressed, |src|);
    if roundTrip != Data(src) {
      return RoundTripFailed, comp, block;
    }
    if |src| >= TWO32 || |compressed| >= TWO32 {
      return TooLarge, comp, block;
    }
    CrcBelow(src);
    r := Packed(PackHeader(|src|, |compressed|, Crc(src)) + compressed);
  }
}
