/** From records to a running program: what the packer and the stub achieve together. */
module BootImage {
  import opened Bytes
  import opened Crc32
  import opened Lz4Format
  import opened Lz4Pack
  import opened Uimg
  import opened ElfToUimg
  import opened StubBoot

  // ----- Walking the image of a list of records meets those records -----

  function FieldsOf(r: Record): Fields
    requires Fits(r)
  {
    Fields(UIMG_MAGIC, RecordSize(r), r.load, r.entry, r.kind)
  }

  function Target(r: Record): (p: Place)
    requires Fits(r)
  {
    Place(r.load, Padded(r.payload))
  }

  function Targets(rs: seq<Record>): (ps: seq<Place>)
    requires AllFit(rs)
    ensures |ps| == |rs|
  {
    seq(|rs|, i requires 0 <= i < |rs| => Target(rs[i]))
  }

  function Offset(rs: seq<Record>, k: nat): nat
    requires AllFit(rs) && k <= |rs|
  {
    FitPrefix(rs[..k], rs);
    |Image(rs[..k])|
  }

  lemma {:induction false} ImageSplit(rs: seq<Record>, k: nat) returns (before: seq<byte>, rest: seq<byte>)
    requires AllFit(rs) && k < |rs|
    ensures |before| == Offset(rs, k) && Offset(rs, k + 1) == Offset(rs, k) + RecordSize(rs[k])
    ensures Image(rs) == before + (RecordBytes(rs[k]) + rest)
  {
    FitPrefix(rs[..k], rs);
    FitPrefix(rs[..k + 1], rs);
    assert rs[..k] + [rs[k]] == rs[..k + 1] && rs[..k + 1] + rs[k + 1..] == rs;
    FitParts(rs[..k + 1], rs[k + 1..]);
    ImageAppend(rs[..k], rs[k]);
    ImageConcat(rs[..k + 1], rs[k + 1..]);
    before, rest := Image(rs[..k]), Image(rs[k + 1..]);
    Assoc(before, RecordBytes(rs[k]), rest);
  }

  lemma {:induction false} StepMeetsRecord(r: Record, before: seq<byte>, rest: seq<byte>, img: seq<byte>)
    requires Fits(r) && img == before + (RecordBytes(r) + rest)
    ensures StepAt(img, |before|) == Load(FieldsOf(r))
    ensures PlaceOf(img, |before|, FieldsOf(r)) == Target(r)
  {
    var b := RecordBytes(r);
    RecordFields(r);
    Assoc(before, b, rest);
    FieldsShift(b, before, rest);
    hide FieldsAt;
    var off := |before|;
    assert img[off + UIMG_HEADER_SIZE..off + RecordSize(r)] == b[UIMG_HEADER_SIZE..] == Padded(r.payload);
  }

  /** The entry point the stub ends up with: the last bootable record's. */
  function Chosen(rs: seq<Record>, k: nat, entry: u32): u32
    requires AllFit(rs) && k <= |rs|
    decreases |rs| - k
  {
    if k == |rs| then entry else Chosen(rs, k + 1, BootEntry(FieldsOf(rs[k]), entry))
  }

  /** The walk over the image of `rs`, from its `k`-th record on. */
  lemma {:induction false} WalkMeetsRecords(rs: seq<Record>, k: nat, entry: u32, ph: nat)
    requires AllFit(rs) && k <= |rs|
    requires forall j :: 0 <= j < |rs| ==> Safe(Target(rs[j]), |Image(rs)|, ph)
    requires |Image(rs)| < TWO32
    ensures Offset(rs, k) <= |Image(rs)|
    ensures Walk(Image(rs), Offset(rs, k), entry)
         == if Chosen(rs, k, entry) == 0 then Fail else Jump(Chosen(rs, k, entry))
    ensures Places(Image(rs), Offset(rs, k)) == Targets(rs)[k..]
    ensures Guarded(Image(rs), Offset(rs, k), ph)
    decreases |rs| - k
  {
    hide FieldsAt, RecordBytes, Padded, Image, BootEntry;
    var img := Image(rs);
    if k == |rs| {
      assert rs[..k] == rs;
    } else {
      var before, rest := ImageSplit(rs, k);
      StepMeetsRecord(rs[k], before, rest, img);
      WalkMeetsRecords(rs, k + 1, BootEntry(FieldsOf(rs[k]), entry), ph);
      assert Targets(rs)[k..] == [Target(rs[k])] + Targets(rs)[k + 1..];
    }
  }

  // ----- What the walk leaves in memory -----

  ghost predicate NoneHolds(ps: seq<Place>, a: int) {
    forall p :: p in ps ==> !p.Holds(a)
  }

  lemma {:induction false} UntouchedByte(ps: seq<Place>, img: seq<byte>, m: seq<byte>, a: nat)
    requires a < |m| && NoneHolds(ps, a)
    ensures ByteAt(ps, img, m, a) == if STAGING <= a < STAGING + |img| then img[a - STAGING] else m[a]
    decreases |ps|
  {
    if ps != [] {
      assert ps[|ps| - 1] in ps;
      UntouchedByte(ps[..|ps| - 1], img, m, a);
    }
  }

  /** With targets that pass the overlap check, later payloads do not overwrite earlier ones. */
  lemma {:induction false} LoadedByte(rs: seq<Record>, n: nat, i: nat, img: seq<byte>, m: seq<byte>, a: nat)
    requires AllFit(rs) && !AnyClash(Areas(rs))
    requires i < n <= |rs| && a < |m| && Target(rs[i]).Holds(a)
    ensures ByteAt(Targets(rs)[..n], img, m, a) == Padded(rs[i].payload)[a - rs[i].load]
    decreases n
  {
    assert Targets(rs)[..n][..n - 1] == Targets(rs)[..n - 1];
    if i < n - 1 {
      if Target(rs[n - 1]).Holds(a) {
        NoClashDisjoint(rs, i, n - 1, a);
      }
      LoadedByte(rs, n - 1, i, img, m, a);
    }
  }

  // ----- Which entry point is chosen -----

  /** The stub can start this record's program. */
  predicate Starts(r: Record)
    requires Fits(r)
  {
    Accepted(FieldsOf(r))
  }

  lemma {:induction false} ChosenIs(rs: seq<Record>, k: nat, entry: u32, i: nat)
    requires AllFit(rs) && k <= |rs| && i < |rs|
    requires forall j :: 0 <= j < |rs| ==> (Starts(rs[j]) <==> j == i)
    ensures Chosen(rs, k, entry) == if k <= i then rs[i].entry else entry
    decreases |rs| - k
  {
    if k < |rs| {
      assert Starts(rs[k]) <==> k == i;
      ChosenIs(rs, k + 1, BootEntry(FieldsOf(rs[k]), entry), i);
    }
  }

  lemma {:induction false} ChosenNone(rs: seq<Record>, k: nat, entry: u32)
    requires AllFit(rs) && k <= |rs|
    requires forall j :: 0 <= j < |rs| ==> !Starts(rs[j])
    ensures Chosen(rs, k, entry) == entry
    decreases |rs| - k
  {
    if k < |rs| {
      assert !Starts(rs[k]);
      ChosenNone(rs, k + 1, BootEntry(FieldsOf(rs[k]), entry));
    }
  }

  /** Where the stub takes a segment's load range to end: it counts the header in. */
  function LoadEnd(s: Segment): nat {
    s.paddr + UIMG_HEADER_SIZE + |Padded(s.data)|
  }

  /** The packer marks a segment bootable by its run-time range, closed at the end.  The stub starts it exactly if
      the entry point is in the load range, and that range ends below 2^32. */
  lemma EntrySegmentStarts(s: Segment, entry: nat, now: u32, before: u32)
    requires HoldsEntry(s, entry, A7) && Fits(RecordOf(s, entry, A7, A7, now))
    ensures Starts(RecordOf(s, entry, A7, A7, now)) <==> s.paddr <= entry < LoadEnd(s) < TWO32
    ensures BootEntry(FieldsOf(RecordOf(s, entry, A7, A7, now)), before)
         == if s.paddr <= entry < LoadEnd(s) < TWO32 then entry else before
  {
  }

  /** So a segment with a long zero-filled tail and its entry point at the end is marked, yet never started. */
  lemma MarkedNotStarted()
    ensures var s := Segment(0xC200_0040, 0x1000, 0xC200_0040, [1, 2, 3, 4], []);
            var r := RecordOf(s, 0xC200_1040, A7, A7, 0);
            HoldsEntry(s, 0xC200_1040, A7) && r.kind == TYPE_KERNEL && Fits(r) && !Starts(r)
  {
  }

  /** Nor is one whose last byte is the last of memory, for every entry point in it. */
  lemma TopNotStarted(data: seq<byte>, entry: nat)
    requires |data| == 0x100 && 0xFFFF_FF00 <= entry < TWO32
    ensures var s := Segment(0xFFFF_FF00, 0x100, 0xFFFF_FF00, data, []);
            var r := RecordOf(s, entry, A7, A7, 0);
            HoldsEntry(s, entry, A7) && r.kind == TYPE_KERNEL && Fits(r) && !Starts(r)
            && s.paddr <= entry < LoadEnd(s)
  {
  }

  // ----- End to end -----

  /** The packed file lies at `ph`, as the packer made it from the image of `rs`. */
  ghost predicate Flashed(m: seq<byte>, ph: nat, rs: seq<Record>, comp: seq<byte>) {
    && |m| == TWO32 && AllFit(rs)
    && WellFormed(comp) && Decoded(comp).out == Image(rs)
    && |Image(rs)| < TWO32 && |comp| < TWO32 && Crc(Image(rs)) < TWO32
    && ph + PACK_HEADER_SIZE + |comp| <= TWO32
    && m[ph..ph + PACK_HEADER_SIZE + |comp|] == PackHeader(|Image(rs)|, |comp|, Crc(Image(rs))) + comp
  }

  /** The image has room in staging, and no target, nor the staged image, meets what the stub still needs. */
  ghost predicate Roomy(ph: nat, rs: seq<Record>, compSize: nat)
    requires AllFit(rs)
  {
    && STAGING + |Image(rs)| <= TWO32
    && (STAGING + |Image(rs)| <= ph || ph + PACK_HEADER_SIZE + compSize <= STAGING)
    && forall j :: 0 <= j < |rs| ==> Safe(Target(rs[j]), |Image(rs)|, ph)
  }

  lemma FieldReads(m: seq<byte>, ph: nat, file: seq<byte>, i: nat, x: u32, before: seq<byte>, after: seq<byte>)
    requires ph + |file| <= |m| && m[ph..ph + |file|] == file
    requires |before| == i && file == before + (Le32(x) + after)
    ensures ph + i + 4 <= |m| && PackField(m, ph, i) == x
  {
    hide FromLe32, Le32;
    forall k | 0 <= k < 4
      ensures m[ph + i..ph + i + 4][k] == Le32(x)[k]
    {
      assert m[ph..ph + |file|][i + k] == Le32(x)[k];
    }
    assert m[ph + i..ph + i + 4] == Le32(x);
    Le32RoundTrip(x);
  }

  lemma Regroup(a: seq<byte>, b: seq<byte>, c: seq<byte>, d: seq<byte>, e: seq<byte>)
    ensures a + b + c + d + e == a + (b + (c + (d + e)))
    ensures a + b + c + d + e == (a + b) + (c + (d + e))
    ensures a + b + c + d + e == (a + b + c) + (d + e)
  {
  }

  lemma StreamReads(m: seq<byte>, ph: nat, header: seq<byte>, comp: seq<byte>)
    requires |header| == PACK_HEADER_SIZE && ph + PACK_HEADER_SIZE + |comp| <= |m|
    requires m[ph..ph + PACK_HEADER_SIZE + |comp|] == header + comp
    ensures m[ph + PACK_HEADER_SIZE..ph + PACK_HEADER_SIZE + |comp|] == comp
  {
    forall k | 0 <= k < |comp|
      ensures m[ph + PACK_HEADER_SIZE..ph + PACK_HEADER_SIZE + |comp|][k] == comp[k]
    {
      assert m[ph..ph + PACK_HEADER_SIZE + |comp|][PACK_HEADER_SIZE + k] == comp[k];
    }
  }

  lemma HeaderReads(m: seq<byte>, ph: nat, usize: u32, csize: u32, crc: u32, comp: seq<byte>)
    requires |comp| == csize && ph + PACK_HEADER_SIZE + csize <= |m|
    requires m[ph..ph + PACK_HEADER_SIZE + csize] == PackHeader(usize, csize, crc) + comp
    ensures PackField(m, ph, 0) == PACK_MAGIC && PackField(m, ph, 4) == usize
    ensures PackField(m, ph, 8) == csize && PackField(m, ph, 12) == crc
    ensures Compressed(m, ph) == comp
  {
    hide FromLe32, Le32, PackField;
    var file := PackHeader(usize, csize, crc) + comp;
    var f0, f1, f2, f3 := Le32(PACK_MAGIC), Le32(usize), Le32(csize), Le32(crc);
    Regroup(f0, f1, f2, f3, comp);
    assert f0 + (f1 + (f2 + (f3 + comp))) == [] + (f0 + (f1 + (f2 + (f3 + comp))));
    FieldReads(m, ph, file, 0, PACK_MAGIC, [], f1 + (f2 + (f3 + comp)));
    FieldReads(m, ph, file, 4, usize, f0, f2 + (f3 + comp));
    FieldReads(m, ph, file, 8, csize, f0 + f1, f3 + comp);
    FieldReads(m, ph, file, 12, crc, f0 + f1 + f2, comp);
    StreamReads(m, ph, PackHeader(usize, csize, crc), comp);
  }

  ghost predicate Hangs(m: seq<byte>, ph: nat) {
    Bootable(m, ph) && Boot(m, ph).Fail?
  }

  ghost predicate BootsAt(m: seq<byte>, ph: nat, entry: int) {
    Bootable(m, ph) && Boot(m, ph).Jump? && Boot(m, ph).entry == entry
  }

  /** A flashed image whose targets do not clash, with one bootable record, passes every check of the stub and
      starts at that record's entry point. */
  lemma {:induction false} FlashedBoots(m: seq<byte>, ph: nat, rs: seq<Record>, comp: seq<byte>, i: nat)
    requires Flashed(m, ph, rs, comp) && Roomy(ph, rs, |comp|) && i < |rs|
    requires forall j :: 0 <= j < |rs| ==> (Starts(rs[j]) <==> j == i)
    requires rs[i].entry != 0
    ensures BootsAt(m, ph, rs[i].entry)
  {
    hide Walk, Guarded, Image, Crc, PackField;
    HeaderReads(m, ph, |Image(rs)|, |comp|, Crc(Image(rs)), comp);
    WalkFromStart(rs, ph);
    ChosenIs(rs, 0, 0, i);
  }

  /** With no bootable record the stub hangs. */
  lemma {:induction false} FlashedHangs(m: seq<byte>, ph: nat, rs: seq<Record>, comp: seq<byte>)
    requires Flashed(m, ph, rs, comp) && Roomy(ph, rs, |comp|)
    requires forall j :: 0 <= j < |rs| ==> !Starts(rs[j])
    ensures Hangs(m, ph)
  {
    hide Walk, Guarded, Image, Crc, PackField;
    HeaderReads(m, ph, |Image(rs)|, |comp|, Crc(Image(rs)), comp);
    WalkFromStart(rs, ph);
    ChosenNone(rs, 0, 0);
  }

  /** So an image without a record of the kernel type hangs, whatever its addresses. */
  lemma {:induction false} NoKernelHangs(m: seq<byte>, ph: nat, rs: seq<Record>, comp: seq<byte>)
    requires Flashed(m, ph, rs, comp) && Roomy(ph, rs, |comp|)
    requires forall j :: 0 <= j < |rs| ==> rs[j].kind != 2
    ensures Hangs(m, ph)
  {
    hide Roomy, Hangs;
    FlashedHangs(m, ph, rs, comp);
  }

  lemma {:induction false} WalkFromStart(rs: seq<Record>, ph: nat)
    requires AllFit(rs) && |Image(rs)| < TWO32
    requires forall j :: 0 <= j < |rs| ==> Safe(Target(rs[j]), |Image(rs)|, ph)
    ensures Walk(Image(rs), 0, 0) == if Chosen(rs, 0, 0) == 0 then Fail else Jump(Chosen(rs, 0, 0))
    ensures Guarded(Image(rs), 0, ph) && Places(Image(rs), 0) == Targets(rs)
  {
    WalkMeetsRecords(rs, 0, 0, ph);
    assert rs[..0] == [] && Targets(rs)[0..] == Targets(rs);
  }

  /** When the stub jumps, each payload is at its load address, and memory outside the staged image and the
      targets is as it was. */
  lemma {:induction false} FlashedLoads(m: seq<byte>, ph: nat, rs: seq<Record>, comp: seq<byte>, a: nat)
    requires Flashed(m, ph, rs, comp) && Roomy(ph, rs, |comp|) && !AnyClash(Areas(rs)) && a < TWO32
    ensures forall i :: 0 <= i < |rs| && Target(rs[i]).Holds(a) ==>
      ByteAt(Places(Image(rs), 0), Image(rs), m, a) == Padded(rs[i].payload)[a - rs[i].load]
    ensures NoneHolds(Targets(rs), a) && !(STAGING <= a < STAGING + |Image(rs)|) ==>
      ByteAt(Places(Image(rs), 0), Image(rs), m, a) == m[a]
  {
    hide Walk, Guarded, Image, Crc, PackField;
    WalkFromStart(rs, ph);
    assert Targets(rs)[..|rs|] == Targets(rs);
    forall i | 0 <= i < |rs| && Target(rs[i]).Holds(a)
      ensures ByteAt(Targets(rs), Image(rs), m, a) == Padded(rs[i].payload)[a - rs[i].load]
    {
      LoadedByte(rs, |rs|, i, Image(rs), m, a);
    }
    if NoneHolds(Targets(rs), a) {
      UntouchedByte(Targets(rs), Image(rs), m, a);
    }
  }

  /** Damage to the unpacked image that stays within four consecutive bytes is always caught. */
  lemma {:induction false} DamageIsCaught(m: seq<byte>, ph: nat, original: seq<byte>, p: nat)
    requires Bootable(m, ph) && PackField(m, ph, 0) == PACK_MAGIC && PackField(m, ph, 12) == Crc(original)
    requires var img := Decoded(Compressed(m, ph)).out;
             img != original && |img| == |original|
             && forall k :: 0 <= k < |img| && !(p <= k < p + 4) ==> img[k] == original[k]
    ensures Boot(m, ph) == Fail
  {
    hide Walk, Guarded;
    CorruptionChangesCrc(original, Decoded(Compressed(m, ph)).out, p);
  }

  // ----- From segments to a running program -----

  /** The records fit and do not clash, the `i`-th one alone can be started, and there is room for everything. */
  ghost predicate Deployable(rs: seq<Record>, ph: nat, i: nat) {
    && AllFit(rs) && !AnyClash(Areas(rs)) && i < |rs|
    && (forall j :: 0 <= j < |rs| ==> (Starts(rs[j]) <==> j == i)) && rs[i].entry != 0
    && Roomy(ph, rs, |Image(rs)| + |Image(rs)| / 255 + 2)
    && ph + PACK_HEADER_SIZE + |Image(rs)| + |Image(rs)| / 255 + 2 <= TWO32
  }

  /** Every payload is at its load address. */
  ghost predicate InPlace(mem: array<byte>, rs: seq<Record>)
    requires mem.Length == TWO32
    reads mem
  {
    forall j, a :: 0 <= j < |rs| && Fits(rs[j]) && 0 <= a < TWO32 && Target(rs[j]).Holds(a) ==>
      mem[a] == Padded(rs[j].payload)[a - rs[j].load]
  }

  /** The loader before the stub puts the packed file at `ph`. */
  method Flash(mem: array<byte>, ph: nat, file: seq<byte>)
    requires ph + |file| <= mem.Length
    modifies mem
    ensures mem[ph..ph + |file|] == file
    ensures forall a :: 0 <= a < mem.Length && !(ph <= a < ph + |file|) ==> mem[a] == old(mem[a])
  {
    for k := 0 to |file|
      invariant forall a :: ph <= a < ph + k ==> mem[a] == file[a - ph]
      invariant forall a :: 0 <= a < mem.Length && !(ph <= a < ph + k) ==> mem[a] == old(mem[a])
    {
      mem[ph + k] := file[k];
    }
  }

  lemma {:induction false} PackedIsFlashed(m: seq<byte>, ph: nat, rs: seq<Record>, comp: seq<byte>, i: nat)
    requires |m| == TWO32 && Deployable(rs, ph, i) && WellFormed(comp) && Decoded(comp).out == Image(rs)
    requires |comp| <= |Image(rs)| + |Image(rs)| / 255 + 2 && |Image(rs)| < TWO32 && |comp| < TWO32
      && Crc(Image(rs)) < TWO32
    requires ph + PACK_HEADER_SIZE + |comp| <= TWO32
    requires m[ph..ph + PACK_HEADER_SIZE + |comp|] == PackHeader(|Image(rs)|, |comp|, Crc(Image(rs))) + comp
    ensures Flashed(m, ph, rs, comp) && Roomy(ph, rs, |comp|)
    ensures BootsAt(m, ph, rs[i].entry) && Checked(m, ph, Image(rs)) && Compressed(m, ph) == comp
    ensures PackField(m, ph, 0) == PACK_MAGIC
  {
    hide Walk, Image, Crc, Decoded, PackField;
    assert Flashed(m, ph, rs, comp) && Roomy(ph, rs, |comp|);
    HeaderReads(m, ph, |Image(rs)|, |comp|, Crc(Image(rs)), comp);
    FlashedBoots(m, ph, rs, comp, i);
  }

  lemma {:induction false} ByteInPlace(m: seq<byte>, mem: array<byte>, ph: nat, rs: seq<Record>, comp: seq<byte>,
                                       j: nat, a: nat)
    requires Flashed(m, ph, rs, comp) && Roomy(ph, rs, |comp|) && !AnyClash(Areas(rs))
    requires Loaded(m, mem, Image(rs), ph, Places(Image(rs), 0))
    requires j < |rs| && a < TWO32 && Target(rs[j]).Holds(a)
    ensures mem[a] == Padded(rs[j].payload)[a - rs[j].load]
  {
    hide Image, Padded, Target, ByteAt, Places, Roomy, AnyClash, Safe;
    FlashedLoads(m, ph, rs, comp, a);
  }

  lemma {:induction false} LoadedInPlace(m: seq<byte>, mem: array<byte>, ph: nat, rs: seq<Record>, comp: seq<byte>)
    requires Flashed(m, ph, rs, comp) && Roomy(ph, rs, |comp|) && !AnyClash(Areas(rs))
    requires Loaded(m, mem, Image(rs), ph, Places(Image(rs), 0))
    ensures InPlace(mem, rs)
  {
    hide WellFormed, Decoded, Crc, PackHeader, Roomy, AnyClash, Loaded, Image, Padded, Places;
    assert mem.Length == TWO32 by {
      LoadedSize(m, mem, Image(rs), ph, Places(Image(rs), 0));
    }
    forall j, a | 0 <= j < |rs| && Fits(rs[j]) && 0 <= a < TWO32 && Target(rs[j]).Holds(a)
      ensures mem[a] == Padded(rs[j].payload)[a - rs[j].load]
    {
      ByteInPlace(m, mem, ph, rs, comp, j, a);
    }
  }

  lemma LoadedSize(m: seq<byte>, mem: array<byte>, img: seq<byte>, ph: nat, ps: seq<Place>)
    requires Loaded(m, mem, img, ph, ps)
    ensures mem.Length == TWO32
  {
  }

  /** Every byte of every segment is in memory where the A7 sees the segment's physical address. */
  ghost predicate SegmentsInPlace(mem: array<byte>, ss: seq<Segment>, dest: Core)
    reads mem
  {
    forall s, k :: s in ss && 0 <= k < |s.data| ==>
      var a := LoadAddress(s.paddr, dest, A7) + k; a < mem.Length && mem[a] == s.data[k]
  }

  /** The one record that can be started is an A7 segment's, with the file's entry point. */
  lemma EntryIsTheFiles(a7: seq<Segment>, entry7: nat, m4: seq<Segment>, entry4: nat, now: u32, rs: seq<Record>, i: nat)
    requires rs == RecordsOf(a7, entry7, A7, A7, now) + RecordsOf(m4, entry4, M4, A7, now)
    requires i < |rs| && Fits(rs[i]) && Starts(rs[i]) && rs[i].entry != 0
    ensures rs[i].entry == entry7
  {
    hide RecordsOf;
    var n := |RecordsOf(a7, entry7, A7, A7, now)|;
    KindAndEntry(a7, entry7, A7, now, i);
    KindAndEntry(m4, entry4, M4, now, if i < n then 0 else i - n);
  }

  lemma KindAndEntry(ss: seq<Segment>, entry: nat, dest: Core, now: u32, j: nat)
    ensures var rs := RecordsOf(ss, entry, dest, A7, now);
            j < |rs| ==> if dest.M4? then rs[j].kind == TYPE_COPRO else rs[j].entry == entry || rs[j].entry == 0
  {
    hide RecordsOf;
    RecordsAreFor(ss, entry, dest, A7, now);
    if j < |RecordsOf(ss, entry, dest, A7, now)| {
      assert IsRecordFor(RecordsOf(ss, entry, dest, A7, now)[j], WithData(ss)[j], entry, dest, A7, now);
    }
  }

  /** Payloads in place are segments in place. */
  lemma SegmentsLoaded(mem: array<byte>, rs: seq<Record>, ph: nat, i: nat, ss: seq<Segment>, entry: nat, dest: Core,
                       now: u32, from: nat)
    requires mem.Length == TWO32 && Deployable(rs, ph, i) && InPlace(mem, rs)
    requires from + |RecordsOf(ss, entry, dest, A7, now)| <= |rs|
    requires rs[from..from + |RecordsOf(ss, entry, dest, A7, now)|] == RecordsOf(ss, entry, dest, A7, now)
    ensures SegmentsInPlace(mem, ss, dest)
  {
    hide RecordsOf, Deployable, InPlace, WithData, LoadAddress;
    var own := RecordsOf(ss, entry, dest, A7, now);
    RecordsAreFor(ss, entry, dest, A7, now);
    forall s, k | s in ss && 0 <= k < |s.data|
      ensures var a := LoadAddress(s.paddr, dest, A7) + k; a < mem.Length && mem[a] == s.data[k]
    {
      assert s in WithData(ss);
      var j :| 0 <= j < |WithData(ss)| && WithData(ss)[j] == s;
      assert IsRecordFor(own[j], s, entry, dest, A7, now);
      assert rs[from..from + |own|][j] == rs[from + j];
      ByteLoaded(mem, rs, ph, i, from + j, k);
    }
  }

  lemma ByteLoaded(mem: array<byte>, rs: seq<Record>, ph: nat, i: nat, j: nat, k: nat)
    requires mem.Length == TWO32 && Deployable(rs, ph, i) && InPlace(mem, rs) && j < |rs| && k < |rs[j].payload|
    ensures 0 <= rs[j].load && rs[j].load + k < TWO32 && mem[rs[j].load + k] == rs[j].payload[k]
  {
    hide AnyClash;
    assert Fits(rs[j]) && Safe(Target(rs[j]), |Image(rs)|, ph);
    assert Target(rs[j]).Holds(rs[j].load + k);
    assert Padded(rs[j].payload)[k] == rs[j].payload[k];
  }

  lemma {:induction false} InTheEnd(m: seq<byte>, mem: array<byte>, ph: nat, rs: seq<Record>, comp: seq<byte>,
                                    a7: seq<Segment>, entry7: nat, m4: seq<Segment>, entry4: nat, now: u32, i: nat)
    requires rs == RecordsOf(a7, entry7, A7, A7, now) + RecordsOf(m4, entry4, M4, A7, now) && Deployable(rs, ph, i)
    requires Flashed(m, ph, rs, comp) && Roomy(ph, rs, |comp|)
    requires Loaded(m, mem, Image(rs), ph, Places(Image(rs), 0))
    ensures rs[i].entry == entry7 && SegmentsInPlace(mem, a7, A7) && SegmentsInPlace(mem, m4, M4)
  {
    hide RecordsOf, Image, Crc, Decoded, Walk, Places, Loaded, InPlace, SegmentsInPlace, Flashed, AnyClash, Roomy;
    LoadedInPlace(m, mem, ph, rs, comp);
    LoadedSize(m, mem, Image(rs), ph, Places(Image(rs), 0));
    EntryIsTheFiles(a7, entry7, m4, entry4, now, rs, i);
    SegmentsLoaded(mem, rs, ph, i, a7, entry7, A7, now, 0);
    SegmentsLoaded(mem, rs, ph, i, m4, entry4, M4, now, |RecordsOf(a7, entry7, A7, A7, now)|);
  }

  /** Build the records of both cores, pack them, flash the file, run the stub: it jumps to the A7 file's entry point,
      with every byte of every segment in place. */
  method BuildFlashBoot(mem: array<byte>, ph: nat, a7: seq<Segment>, entry7: nat, m4: seq<Segment>, entry4: nat,
                        now: u32, ghost i: nat)
    returns (r: Outcome)
    requires mem.Length == TWO32
    requires Deployable(RecordsOf(a7, entry7, A7, A7, now) + RecordsOf(m4, entry4, M4, A7, now), ph, i)
    modifies mem
    ensures r.Jump? && r.entry == entry7
    ensures SegmentsInPlace(mem, a7, A7) && SegmentsInPlace(mem, m4, M4)
  {
    hide RecordsOf, Image, Crc, Decoded, Walk, Places, Loaded, InPlace, SegmentsInPlace, Boot;
    ghost var rs := RecordsOf(a7, entry7, A7, A7, now) + RecordsOf(m4, entry4, M4, A7, now);
    var made, image := MakeImage(a7, entry7, m4, entry4, A7, now);
    var packed, comp, block := Pack(image);
    Flash(mem, ph, packed.file);
    ghost var m := mem[..];
    PackedIsFlashed(m, ph, rs, comp, i);
    r := StubMain(mem, ph);
    InTheEnd(m, mem, ph, rs, comp, a7, entry7, m4, entry4, now, i);
  }
}
