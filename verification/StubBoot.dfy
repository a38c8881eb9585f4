/** The boot stub: unpack the image, check it, load its records, and choose where to jump. */
module StubBoot {
  import opened Bytes
  import opened Crc32
  import opened Lz4Format
  import opened Lz4Pack
  import opened StubDecoder
  import opened Uimg
  import opened ElfToUimg

  const STAGING: u32 := 0xD000_0000

  // ----- The record walk, over the unpacked image -----

  /** Hang, or jump. */
  datatype Outcome = Fail | Jump(entry: u32)

  /** What the loop makes of the bytes at one offset. */
  datatype Step = Stop | Bad | Load(fields: Fields)

  function StepAt(img: seq<byte>, off: nat): (s: Step)
    requires off <= |img|
    ensures s.Load? ==> UIMG_HEADER_SIZE <= s.fields.size && off + s.fields.size <= |img|
  {
    if off + UIMG_HEADER_SIZE > |img| then Stop
    else
      var f := FieldsAt(img, off);
      if f.magic != UIMG_MAGIC then Stop
      else if f.size < UIMG_HEADER_SIZE || off + f.size > |img| then Bad
      else Load(f)
  }

  /** The stub's test for a bootable record, in 32 bits. */
  predicate Accepted(f: Fields) {
    f.kind == TYPE_KERNEL && f.entry >= f.load && f.entry < Wrap32(f.load + f.size)
  }

  /** The entry point known after a record: its own if it is bootable. */
  function BootEntry(f: Fields, entry: u32): u32 {
    if Accepted(f) then f.entry else entry
  }

  /** Only a record of the kernel type can change the entry point, and then only to its own. */
  lemma OnlyKernelsStart(f: Fields, entry: u32)
    ensures BootEntry(f, entry) != entry ==> f.kind == 2 && BootEntry(f, entry) == f.entry
  {
  }

  function Walk(img: seq<byte>, off: nat, entry: u32): Outcome
    requires off <= |img|
    decreases |img| - off
  {
    match StepAt(img, off)
    case Stop => if entry == 0 then Fail else Jump(entry)
    case Bad => Fail
    case Load(f) => Walk(img, off + f.size, BootEntry(f, entry))
  }

  /** A payload and where it goes. */
  datatype Place = Place(load: nat, data: seq<byte>) {
    predicate Holds(a: int) {
      load <= a < load + |data|
    }
  }

  function PlaceOf(img: seq<byte>, off: nat, f: Fields): Place
    requires UIMG_HEADER_SIZE <= f.size && off + f.size <= |img|
  {
    Place(f.load, img[off + UIMG_HEADER_SIZE..off + f.size])
  }

  /** The payloads that the walk from `off` on copies, in order. */
  function Places(img: seq<byte>, off: nat): seq<Place>
    requires off <= |img|
    decreases |img| - off
  {
    match StepAt(img, off)
    case Load(f) => [PlaceOf(img, off, f)] + Places(img, off + f.size)
    case _ => []
  }

  /** The byte at `a` in memory that was `m`, with `img` in staging and then `ps` copied in order. */
  function ByteAt(ps: seq<Place>, img: seq<byte>, m: seq<byte>, a: nat): byte
    requires a < |m|
    decreases |ps|
  {
    if ps == [] then (if STAGING <= a < STAGING + |img| then img[a - STAGING] else m[a])
    else
      var last := ps[|ps| - 1];
      if last.Holds(a) then last.data[a - last.load] else ByteAt(ps[..|ps| - 1], img, m, a)
  }

  lemma {:induction false} ByteAtAppend(ps: seq<Place>, p: Place, img: seq<byte>, m: seq<byte>, a: nat)
    requires a < |m|
    ensures ByteAt(ps + [p], img, m, a) == if p.Holds(a) then p.data[a - p.load] else ByteAt(ps, img, m, a)
  {
    assert (ps + [p])[..|ps|] == ps;
  }

  // ----- Where 32-bit arithmetic makes the walk's own size check fail -----

  /** `off + size > usize` in 32 bits means what it says unless the sum wraps to something small. */
  predicate CheckHolds(off: nat, size: u32, usize: nat) {
    off + size < TWO32 || Wrap32(off + size) > usize
  }

  lemma SizeCheckExact(off: nat, size: u32, usize: nat)
    requires off <= usize < TWO32
    ensures (Wrap32(off + size) > usize <==> off + size > usize) <==> CheckHolds(off, size, usize)
  {
  }

  /** Copying byte by byte, in addresses that wrap. */
  function Copy32(m: seq<byte>, dst: u32, src: u32, len: nat): (n: seq<byte>)
    requires |m| == TWO32
    ensures |n| == TWO32
    decreases len
  {
    if len == 0 then m else Copy32(m[dst := m[src]], Wrap32(dst + 1), Wrap32(src + 1), len - 1)
  }

  lemma {:induction false} CopyInPlace(m: seq<byte>, at: u32, len: nat)
    requires |m| == TWO32
    ensures Copy32(m, at, at, len) == m
    decreases len
  {
    if len > 0 {
      assert m[at := m[at]] == m;
      CopyInPlace(m, Wrap32(at + 1), len - 1);
    }
  }

  lemma CopyNothing(m: seq<byte>, dst: u32, src: u32)
    requires |m| == TWO32
    ensures Copy32(m, dst, src, 0) == m
  {
  }

  /** Where the loop is after a number of turns: done, or about to read a header. */
  datatype Round = Left | At(m: seq<byte>, off: u32)

  /** One turn of the loop as the machine makes it, with every sum in 32 bits and no check but the stub's own. */
  function Turn32(m: seq<byte>, off: u32, usize: u32): (r: Round)
    requires |m| == TWO32 && STAGING + off + UIMG_HEADER_SIZE <= TWO32
    ensures r.At? ==> |r.m| == TWO32
  {
    var f := FieldsAt(m, STAGING + off);
    if Wrap32(off + UIMG_HEADER_SIZE) > usize || f.magic != UIMG_MAGIC then Left
    else if f.size < UIMG_HEADER_SIZE || Wrap32(off + f.size) > usize then Left
    else At(Copy32(m, f.load, Wrap32(STAGING + off + UIMG_HEADER_SIZE), f.size - UIMG_HEADER_SIZE),
            Wrap32(off + f.size))
  }

  /** `n` turns from the start of the image; headers past the end of memory are not read. */
  function Turns32(m: seq<byte>, usize: u32, n: nat): (r: Round)
    requires |m| == TWO32
    ensures r.At? ==> |r.m| == TWO32
  {
    if n == 0 then At(m, 0)
    else
      var before := Turns32(m, usize, n - 1);
      if before.At? && STAGING + before.off + UIMG_HEADER_SIZE <= TWO32
      then Turn32(before.m, before.off, usize)
      else Left
  }

  /** An empty record, and one of 2^32 - 64 bytes that is loaded to where it lies. */
  function WrappingImage(): (img: seq<byte>)
    ensures |img| == 128
  {
    HeaderBytes(0, 0, 64, 0, 0, 0, TYPE_FIRMWARE, [])
    + HeaderBytes(0, 0, 0xFFFF_FFC0, STAGING + 128, 0, 0, TYPE_FIRMWARE, [])
  }

  lemma SliceOfSlice(m: seq<byte>, lo: nat, hi: nat, i: nat, j: nat)
    requires lo <= hi <= |m| && i <= j <= hi - lo
    ensures m[lo..hi][i..j] == m[lo + i..lo + j]
  {
    forall k | 0 <= k < j - i
      ensures m[lo..hi][i..j][k] == m[lo + i..lo + j][k]
    {
      assert m[lo..hi][i + k] == m[lo + (i + k)];
    }
  }

  lemma FieldsStaged(m: seq<byte>, at: nat, img: seq<byte>, off: nat)
    requires at + |img| <= |m| && m[at..at + |img|] == img && off + UIMG_HEADER_SIZE <= |img|
    ensures FieldsAt(m, at + off) == FieldsAt(img, off)
  {
    hide FromBe32;
    SliceOfSlice(m, at, at + |img|, off, off + 4);
    SliceOfSlice(m, at, at + |img|, off + 12, off + 16);
    SliceOfSlice(m, at, at + |img|, off + 16, off + 20);
    SliceOfSlice(m, at, at + |img|, off + 20, off + 24);
    assert m[at..at + |img|][off + 30] == m[at + off + 30];
  }

  /** Where the size check holds, such a turn does what the walk's step says. */
  lemma TurnIsStep(m: seq<byte>, img: seq<byte>, off: u32)
    requires |m| == TWO32 && STAGING + |img| <= TWO32 && m[STAGING..STAGING + |img|] == img
    requires off + UIMG_HEADER_SIZE <= |img| && CheckHolds(off, FieldsAt(img, off).size, |img|)
    ensures Turn32(m, off, |img|) == match StepAt(img, off)
                                     case Load(f) => At(Copy32(m, f.load, Wrap32(STAGING + off + UIMG_HEADER_SIZE),
                                                               f.size - UIMG_HEADER_SIZE), off + f.size)
                                     case _ => Left
  {
    hide FieldsAt, Copy32;
    FieldsStaged(m, STAGING, img, off);
    SizeCheckExact(off, FieldsAt(img, off).size, |img|);
  }

  lemma WrappingFields()
    ensures FieldsAt(WrappingImage(), 0) == Fields(UIMG_MAGIC, 64, 0, 0, TYPE_FIRMWARE)
    ensures FieldsAt(WrappingImage(), 64) == Fields(UIMG_MAGIC, 0xFFFF_FFC0, STAGING + 128, 0, TYPE_FIRMWARE)
  {
    hide FieldsAt, HeaderBytes;
    var h1 := HeaderBytes(0, 0, 64, 0, 0, 0, TYPE_FIRMWARE, []);
    var h2 := HeaderBytes(0, 0, 0xFFFF_FFC0, STAGING + 128, 0, 0, TYPE_FIRMWARE, []);
    HeaderFields(0, 0, 64, 0, 0, 0, TYPE_FIRMWARE, []);
    HeaderFields(0, 0, 0xFFFF_FFC0, STAGING + 128, 0, 0, TYPE_FIRMWARE, []);
    FieldsShift(h1, [], h2);
    FieldsShift(h2, h1, []);
    assert [] + h1 + h2 == h1 + h2 && h1 + h2 + [] == h1 + h2;
  }

  lemma WrappingTurns(m: seq<byte>)
    requires |m| == TWO32 && m[STAGING..STAGING + 128] == WrappingImage()
    ensures Turn32(m, 0, 128) == At(m, 64) && Turn32(m, 64, 128) == At(m, 0)
  {
    hide FieldsAt, WrappingImage, Copy32;
    WrappingFields();
    FieldsStaged(m, STAGING, WrappingImage(), 0);
    FieldsStaged(m, STAGING, WrappingImage(), 64);
    var first, second := FieldsAt(m, STAGING), FieldsAt(m, STAGING + 64);
    CopyNothing(m, first.load, STAGING + 64);
    CopyInPlace(m, second.load, second.size - UIMG_HEADER_SIZE);
  }

  /** With that image staged the walk goes from the first header to the second and back, for ever, and changes
      nothing; the second header is one that the stub's size check misjudges. */
  lemma {:induction false} WrapLoops(m: seq<byte>, n: nat)
    requires |m| == TWO32 && m[STAGING..STAGING + 128] == WrappingImage()
    ensures !CheckHolds(64, FieldsAt(WrappingImage(), 64).size, 128)
    ensures Turns32(m, 128, n) == At(m, if n % 2 == 0 then 0 else 64)
    decreases n
  {
    hide FieldsAt, WrappingImage, Turn32;
    WrappingFields();
    WrappingTurns(m);
    if n > 0 {
      WrapLoops(m, n - 1);
    }
  }

  // ----- What the walk relies on -----

  ghost predicate Apart(a: nat, alen: nat, b: nat, blen: nat) {
    alen == 0 || a + alen <= b || b + blen <= a
  }

  /** A payload that stays in memory, and away from the staged image and from the packed file's header at `ph`. */
  ghost predicate Safe(p: Place, size: nat, ph: nat) {
    && p.load + |p.data| <= TWO32
    && Apart(p.load, |p.data|, STAGING, size)
    && Apart(p.load, |p.data|, ph, PACK_HEADER_SIZE)
  }

  /** Each record met has a size that the check can judge, and a safe target if it is loaded. */
  ghost predicate Guarded(img: seq<byte>, off: nat, ph: nat)
    requires off <= |img|
    decreases |img| - off
  {
    && (off + UIMG_HEADER_SIZE <= |img| && FieldsAt(img, off).magic == UIMG_MAGIC ==>
          CheckHolds(off, FieldsAt(img, off).size, |img|))
    && match StepAt(img, off)
       case Load(f) => Safe(PlaceOf(img, off, f), |img|, ph) && Guarded(img, off + f.size, ph)
       case _ => true
  }

  // ----- stub_main -----

  function PackField(m: seq<byte>, ph: nat, i: nat): u32
    requires ph + i + 4 <= |m|
  {
    FromLe32(m[ph + i..ph + i + 4])
  }

  function Compressed(m: seq<byte>, ph: nat): seq<byte>
    requires ph + PACK_HEADER_SIZE <= |m| && ph + PACK_HEADER_SIZE + PackField(m, ph, 8) <= |m|
  {
    m[ph + PACK_HEADER_SIZE..ph + PACK_HEADER_SIZE + PackField(m, ph, 8)]
  }

  /** With the right magic, a stream follows that decodes, and whose output has room in staging. */
  ghost predicate Bootable(m: seq<byte>, ph: nat) {
    && |m| == TWO32 && ph + PACK_HEADER_SIZE <= TWO32
    && (PackField(m, ph, 0) == PACK_MAGIC ==>
        var csize := PackField(m, ph, 8);
        && ph + PACK_HEADER_SIZE + csize <= TWO32
        && WellFormed(Compressed(m, ph))
        && var img := Decoded(Compressed(m, ph)).out;
        && STAGING + |img| <= TWO32
        && (STAGING + |img| <= ph || ph + PACK_HEADER_SIZE + csize <= STAGING)
        && (Checked(m, ph, img) ==> Guarded(img, 0, ph)))
  }

  /** Size and checksum agree with the header. */
  predicate Checked(m: seq<byte>, ph: nat, img: seq<byte>)
    requires ph + PACK_HEADER_SIZE <= |m|
  {
    |img| == PackField(m, ph, 4) && Crc(img) == PackField(m, ph, 12)
  }

  function Boot(m: seq<byte>, ph: nat): Outcome
    requires Bootable(m, ph)
  {
    if PackField(m, ph, 0) != PACK_MAGIC then Fail
    else
      var img := Decoded(Compressed(m, ph)).out;
      if Checked(m, ph, img) then Walk(img, 0, 0) else Fail
  }

  ghost predicate Staged(mem: array<byte>, img: seq<byte>)
    reads mem
  {
    && mem.Length == TWO32 && STAGING + |img| <= TWO32
    && forall a {:trigger mem[a]} :: STAGING <= a < STAGING + |img| ==> mem[a] == img[a - STAGING]
  }

  /** Memory `mem` was `m`; `img` is staged and `ps` are loaded; image and header are still intact. */
  ghost predicate Loaded(m: seq<byte>, mem: array<byte>, img: seq<byte>, ph: nat, ps: seq<Place>)
    reads mem
  {
    && |m| == TWO32 && Staged(mem, img) && ph + PACK_HEADER_SIZE <= TWO32
    && (forall a {:trigger mem[a]} :: 0 <= a < TWO32 ==> mem[a] == ByteAt(ps, img, m, a))
    && (forall a {:trigger mem[a]} :: ph <= a < ph + PACK_HEADER_SIZE ==> mem[a] == m[a])
  }

  function Be32Of(x: u32): u32 {
    FromBe32(Le32(x))
  }

  method ReadBe32(mem: array<byte>, i: nat, ghost img: seq<byte>) returns (x: u32)
    requires Staged(mem, img) && i + 4 <= |img|
    ensures x == FromBe32(img[i..i + 4])
  {
    var w := Load32(mem, STAGING + i);
    assert mem[STAGING + i..STAGING + i + 4] == img[i..i + 4];
    x := Be32Of(w);
  }

  /** One header: the magic decides whether there is a record, then the sizes are checked in 32 bits. */
  method ReadStep(mem: array<byte>, off: nat, usize: u32, ghost img: seq<byte>) returns (s: Step)
    requires Staged(mem, img) && usize == |img|
    requires off + UIMG_HEADER_SIZE <= |img|
    requires FieldsAt(img, off).magic == UIMG_MAGIC ==> CheckHolds(off, FieldsAt(img, off).size, |img|)
    ensures s == StepAt(img, off)
  {
    var magic := ReadBe32(mem, off, img);
    if magic != UIMG_MAGIC {
      return Stop;
    }
    var size := ReadBe32(mem, off + 12, img);
    var load := ReadBe32(mem, off + 16, img);
    var ep := ReadBe32(mem, off + 20, img);
    SizeCheckExact(off, size, |img|);
    if size < UIMG_HEADER_SIZE || Wrap32(off + size) > usize {
      return Bad;
    }
    return Load(Fields(magic, size, load, ep, mem[STAGING + off + 30]));
  }

  /** Copy one payload out of the staged image. */
  method LoadPayload(mem: array<byte>, off: nat, f: Fields, ghost m: seq<byte>, ghost img: seq<byte>,
                     ghost ph: nat, ghost ps: seq<Place>)
    requires Loaded(m, mem, img, ph, ps)
    requires UIMG_HEADER_SIZE <= f.size && off + f.size <= |img| && Safe(PlaceOf(img, off, f), |img|, ph)
    modifies mem
    ensures Loaded(m, mem, img, ph, ps + [PlaceOf(img, off, f)])
  {
    ghost var p, m1 := PlaceOf(img, off, f), mem[..];
    var from := STAGING + off + UIMG_HEADER_SIZE;
    Copy(mem, f.load, from, f.size - UIMG_HEADER_SIZE);
    forall a | 0 <= a < TWO32
      ensures mem[a] == ByteAt(ps + [p], img, m, a)
    {
      ByteAtAppend(ps, p, img, m, a);
      assert m1[a] == ByteAt(ps, img, m, a);
      if p.Holds(a) {
        assert m1[from + (a - f.load)] == img[from + (a - f.load) - STAGING];
      }
    }
    forall a | STAGING <= a < STAGING + |img|
      ensures mem[a] == img[a - STAGING]
    {
      assert m1[a] == img[a - STAGING];
    }
    forall a | ph <= a < ph + PACK_HEADER_SIZE
      ensures mem[a] == m[a]
    {
      assert m1[a] == m[a];
    }
  }

  lemma HeaderKept(m: seq<byte>, mem: array<byte>, img: seq<byte>, ph: nat, ps: seq<Place>)
    requires Loaded(m, mem, img, ph, ps)
    ensures FromLe32(mem[ph + 4..ph + 8]) == PackField(m, ph, 4)
    ensures FromLe32(mem[ph + 12..ph + 16]) == PackField(m, ph, 12)
  {
    assert mem[ph + 4..ph + 8] == m[ph + 4..ph + 4 + 4];
    assert mem[ph + 12..ph + 16] == m[ph + 12..ph + 12 + 4];
  }

  /** What the loop keeps: with `ps` loaded, going on from `off` comes to `total` and loads `all`. */
  ghost predicate Walking(img: seq<byte>, ph: nat, off: nat, entry: u32, ps: seq<Place>, total: Outcome,
                          all: seq<Place>) {
    && off <= |img| && Guarded(img, off, ph)
    && Walk(img, off, entry) == total
    && ps + Places(img, off) == all
  }

  lemma {:induction false} WalkingLoad(img: seq<byte>, ph: nat, off: nat, entry: u32, ps: seq<Place>,
                                       total: Outcome, all: seq<Place>, f: Fields)
    requires Walking(img, ph, off, entry, ps, total, all) && StepAt(img, off) == Load(f)
    ensures Walking(img, ph, off + f.size, BootEntry(f, entry), ps + [PlaceOf(img, off, f)], total, all)
  {
    var p, rest := PlaceOf(img, off, f), Places(img, off + f.size);
    assert Places(img, off) == [p] + rest;
    Associative(ps, p, rest);
  }

  lemma Associative(ps: seq<Place>, p: Place, qs: seq<Place>)
    ensures (ps + [p]) + qs == ps + ([p] + qs)
  {
  }

  lemma {:induction false} WalkingEnds(img: seq<byte>, ph: nat, off: nat, entry: u32, ps: seq<Place>,
                                       total: Outcome, all: seq<Place>)
    requires Walking(img, ph, off, entry, ps, total, all) && !StepAt(img, off).Load?
    ensures total == if StepAt(img, off).Bad? || entry == 0 then Fail else Jump(entry)
    ensures all == ps
  {
    assert ps + [] == ps;
  }

  /** One turn of the loop: read a header, and load the record unless that ends the walk. */
  method Turn(mem: array<byte>, ph: nat, off: u32, entry: u32, usize: u32, ghost m: seq<byte>, ghost img: seq<byte>,
              ghost ps: seq<Place>, ghost total: Outcome, ghost all: seq<Place>)
    returns (s: Step, off': u32, entry': u32, ghost ps': seq<Place>)
    requires Loaded(m, mem, img, ph, ps) && usize == |img| && off + UIMG_HEADER_SIZE <= |img|
    requires Walking(img, ph, off, entry, ps, total, all)
    modifies mem
    ensures Loaded(m, mem, img, ph, ps')
    ensures Walking(img, ph, off', entry', ps', total, all)
    ensures if s.Load? then off < off' else off' == off && entry' == entry && s == StepAt(img, off)
  {
    hide FieldsAt, Walk, Places, ByteAt;
    s := ReadStep(mem, off, usize, img);
    off', entry', ps' := off, entry, ps;
    if s.Load? {
      LoadPayload(mem, off, s.fields, m, img, ph, ps);
      WalkingLoad(img, ph, off, entry, ps, total, all, s.fields);
      ps' := ps + [PlaceOf(img, off, s.fields)];
      entry' := BootEntry(s.fields, entry);
      off' := Wrap32(off + s.fields.size);
      assert off' == off + s.fields.size;
    }
  }

  method WalkRecords(mem: array<byte>, ph: nat, ghost m: seq<byte>, ghost img: seq<byte>,
                     ghost total: Outcome, ghost all: seq<Place>) returns (r: Outcome)
    requires Loaded(m, mem, img, ph, []) && PackField(m, ph, 4) == |img|
    requires Walking(img, ph, 0, 0, [], total, all)
    modifies mem
    ensures r == total && Loaded(m, mem, img, ph, all)
  {
    hide FieldsAt;
    var entry: u32, off: u32 := 0, 0;
    ghost var ps: seq<Place> := [];
    HeaderKept(m, mem, img, ph, ps);
    while Wrap32(off + UIMG_HEADER_SIZE) <= FromLe32(mem[ph + 4..ph + 8])
      invariant Walking(img, ph, off, entry, ps, total, all) && Loaded(m, mem, img, ph, ps)
      invariant FromLe32(mem[ph + 4..ph + 8]) == |img|
      decreases |img| - off
    {
      var s;
      s, off, entry, ps := Turn(mem, ph, off, entry, FromLe32(mem[ph + 4..ph + 8]), m, img, ps, total, all);
      HeaderKept(m, mem, img, ph, ps);
      if s.Stop? {
        break;
      }
      if s.Bad? {
        WalkingEnds(img, ph, off, entry, ps, total, all);
        return Fail;
      }
    }
    WalkingEnds(img, ph, off, entry, ps, total, all);
    r := if entry == 0 then Fail else Jump(entry);
  }

  /** Unpacking leaves the image staged, and everything else as it was. */
  method Stage(mem: array<byte>, ph: nat) returns (written: nat)
    requires Bootable(mem[..], ph) && PackField(mem[..], ph, 0) == PACK_MAGIC
    modifies mem
    ensures var img := Decoded(Compressed(old(mem[..]), ph)).out;
            written == |img| && Loaded(old(mem[..]), mem, img, ph, [])
  {
    hide FieldsAt, Crc, Decoded;
    ghost var m, img := mem[..], Decoded(Compressed(mem[..], ph)).out;
    var csize := FromLe32(mem[ph + 8..ph + 12]);
    assert mem[ph + 8..ph + 12] == m[ph + 8..ph + 8 + 4];
    assert mem[ph + PACK_HEADER_SIZE..ph + PACK_HEADER_SIZE + csize] == Compressed(m, ph);
    written := StubDecoder.Lz4Decompress(mem, ph + PACK_HEADER_SIZE, csize, STAGING);
    forall a | 0 <= a < TWO32
      ensures mem[a] == ByteAt([], img, m, a)
    {
      if STAGING <= a < STAGING + |img| {
        assert mem[STAGING + (a - STAGING)] == img[a - STAGING];
      }
    }
  }

  /** `stub_main`: the outcome, and what memory holds when it is reached. */
  method StubMain(mem: array<byte>, ph: nat) returns (r: Outcome)
    requires Bootable(mem[..], ph)
    modifies mem
    ensures r == Boot(old(mem[..]), ph)
    ensures PackField(old(mem[..]), ph, 0) != PACK_MAGIC ==> mem[..] == old(mem[..])
    ensures PackField(old(mem[..]), ph, 0) == PACK_MAGIC ==>
      var img := Decoded(Compressed(old(mem[..]), ph)).out;
      Loaded(old(mem[..]), mem, img, ph, if Checked(old(mem[..]), ph, img) then Places(img, 0) else [])
  {
    hide FieldsAt, Crc, Decoded;
    ghost var m := mem[..];
    assert mem[ph..ph + 4] == m[ph + 0..ph + 0 + 4];
    if FromLe32(mem[ph..ph + 4]) != PACK_MAGIC {
      return Fail;
    }
    ghost var img := Decoded(Compressed(m, ph)).out;
    var written := Stage(mem, ph);
    HeaderKept(m, mem, img, ph, []);
    if written != FromLe32(mem[ph + 4..ph + 8]) {
      return Fail;
    }
    var crc := Crc32Calc(mem, STAGING, FromLe32(mem[ph + 4..ph + 8]));
    assert mem[STAGING..STAGING + |img|] == img;
    if crc != FromLe32(mem[ph + 12..ph + 16]) {
      return Fail;
    }
    assert [] + Places(img, 0) == Places(img, 0);
    r := WalkRecords(mem, ph, m, img, Walk(img, 0, 0), Places(img, 0));
  }
}
