/** From ELF segments to one image of concatenated records, and the check that their targets do not overlap. */
module ElfToUimg {
  import opened Bytes
  import opened Uimg

  datatype Core = A7 | M4

  /** One stretch of memory as the A7 and as the M4 sees it. */
  datatype Mapping = Mapping(a7: nat, m4: nat, size: nat) {
    function Base(c: Core): nat {
      if c.A7? then a7 else m4
    }
  }

  const MEMORY_MAPPINGS: seq<Mapping> := [
    Mapping(0x38000000, 0x00000000, 0x10000),
    Mapping(0x30000000, 0x10000000, 0x60000)
  ]

  /** A loadable segment: where it runs, where its initial data is, and the names of its sections. */
  datatype Segment = Segment(vaddr: nat, memSize: nat, paddr: nat, data: seq<byte>, sections: seq<byte>)

  // ----- Remapping to the loader's view of memory -----

  function RemapBy(lma: nat, m: Mapping, dest: Core, loader: Core): nat {
    if m.Base(dest) <= lma <= m.Base(dest) + m.size then lma - m.Base(dest) + m.Base(loader) else lma
  }

  function RemapAll(lma: nat, ms: seq<Mapping>, dest: Core, loader: Core): nat
    decreases |ms|
  {
    if ms == [] then lma else RemapAll(RemapBy(lma, ms[0], dest, loader), ms[1..], dest, loader)
  }

  function Remap(lma: nat, dest: Core, loader: Core): nat {
    if dest == loader then lma else RemapAll(lma, MEMORY_MAPPINGS, dest, loader)
  }

  ghost predicate Mapped(lma: nat, c: Core) {
    exists m :: m in MEMORY_MAPPINGS && m.Base(c) <= lma <= m.Base(c) + m.size
  }

  lemma RemapUnfolds(lma: nat, dest: Core, loader: Core)
    requires dest != loader
    ensures Remap(lma, dest, loader)
         == RemapBy(RemapBy(lma, MEMORY_MAPPINGS[0], dest, loader), MEMORY_MAPPINGS[1], dest, loader)
  {
    assert MEMORY_MAPPINGS[1..] == [MEMORY_MAPPINGS[1]];
    assert MEMORY_MAPPINGS[1..][1..] == [];
  }

  /** A mapped address is the same memory in both views: remapping it there and back returns it. */
  lemma RemapBack(lma: nat, dest: Core, loader: Core)
    requires Mapped(lma, dest)
    ensures Mapped(Remap(lma, dest, loader), loader)
    ensures Remap(Remap(lma, dest, loader), loader, dest) == lma
  {
    if dest != loader {
      RemapUnfolds(lma, dest, loader);
      RemapUnfolds(Remap(lma, dest, loader), loader, dest);
      assert MEMORY_MAPPINGS[0] in MEMORY_MAPPINGS && MEMORY_MAPPINGS[1] in MEMORY_MAPPINGS;
    }
  }

  // ----- Records -----

  function Underscore(dest: Core): seq<byte> {
    if dest.A7? then [65, 55, 95] else [77, 52, 95]
  }

  /** An A7 segment whose run-time range holds the file's entry point makes a bootable record. */
  predicate HoldsEntry(s: Segment, entry: nat, dest: Core) {
    dest.A7? && s.vaddr <= entry <= s.vaddr + s.memSize
  }

  function RecordOf(s: Segment, entry: nat, dest: Core, loader: Core, now: u32): Record {
    Record(s.data, Remap(s.paddr, dest, loader), if HoldsEntry(s, entry, dest) then entry else 0,
           Underscore(dest) + s.sections,
           if HoldsEntry(s, entry, dest) then TYPE_KERNEL else if dest.M4? then TYPE_COPRO else TYPE_FIRMWARE, now)
  }

  /** Segments without initial data make no record. */
  function RecordsOf(ss: seq<Segment>, entry: nat, dest: Core, loader: Core, now: u32): seq<Record> {
    if ss == [] then []
    else
      var before := RecordsOf(ss[..|ss| - 1], entry, dest, loader, now);
      var last := ss[|ss| - 1];
      if last.data == [] then before else before + [RecordOf(last, entry, dest, loader, now)]
  }

  ghost predicate AllFit(rs: seq<Record>) {
    forall r :: r in rs ==> Fits(r)
  }

  function Image(rs: seq<Record>): seq<byte>
    requires AllFit(rs)
  {
    if rs == [] then [] else Image(rs[..|rs| - 1]) + RecordBytes(rs[|rs| - 1])
  }

  type Area = (int, int)

  function AreaOf(r: Record): Area {
    (r.load, r.load + |Padded(r.payload)|)
  }

  function Areas(rs: seq<Record>): (areas: seq<Area>)
    ensures |areas| == |rs|
  {
    seq(|rs|, i requires 0 <= i < |rs| => AreaOf(rs[i]))
  }

  // ----- The records, said field by field -----

  /** Where the loader sees a physical address of the other core: its two shared memories lie elsewhere. */
  function LoadAddress(paddr: nat, dest: Core, loader: Core): nat {
    match (dest, loader)
    case (M4, A7) =>
      if paddr <= 0x0001_0000 then paddr + 0x3800_0000
      else if 0x1000_0000 <= paddr <= 0x1006_0000 then paddr + 0x2000_0000
      else paddr
    case (A7, M4) =>
      if 0x3800_0000 <= paddr <= 0x3801_0000 then paddr - 0x3800_0000
      else if 0x3000_0000 <= paddr <= 0x3006_0000 then paddr - 0x2000_0000
      else paddr
    case _ => paddr
  }

  lemma RemapIsLoadAddress(paddr: nat, dest: Core, loader: Core)
    ensures Remap(paddr, dest, loader) == LoadAddress(paddr, dest, loader)
  {
    if dest != loader {
      RemapUnfolds(paddr, dest, loader);
    }
  }

  /** The record of a segment: its data, to be loaded at its physical address as the loader sees it; bootable, with the
      file's entry point, if it is the A7's and runs where that point is. */
  predicate IsRecordFor(r: Record, s: Segment, entry: nat, dest: Core, loader: Core, now: u32) {
    && r.payload == s.data && r.load == LoadAddress(s.paddr, dest, loader) && r.time == now
    && r.name == (match dest case A7 => [65, 55, 95] case M4 => [77, 52, 95]) + s.sections
    && match dest
       case A7 =>
         if s.vaddr <= entry && entry <= s.vaddr + s.memSize then r.kind == TYPE_KERNEL && r.entry == entry
         else r.kind == TYPE_FIRMWARE && r.entry == 0
       case M4 => r.kind == TYPE_COPRO && r.entry == 0
  }

  lemma RecordIsFor(s: Segment, entry: nat, dest: Core, loader: Core, now: u32, r: Record)
    ensures IsRecordFor(r, s, entry, dest, loader, now) <==> r == RecordOf(s, entry, dest, loader, now)
  {
    RemapIsLoadAddress(s.paddr, dest, loader);
  }

  /** The segments that have data, in order. */
  function WithData(ss: seq<Segment>): (r: seq<Segment>)
    ensures forall s :: s in r <==> s in ss && s.data != []
  {
    if ss == [] then []
    else
      var before, last := WithData(ss[..|ss| - 1]), ss[|ss| - 1];
      assert ss == ss[..|ss| - 1] + [last];
      if last.data == [] then before else before + [last]
  }

  /** One record for each segment with data, in order. */
  ghost predicate AreRecordsFor(rs: seq<Record>, ss: seq<Segment>, entry: nat, dest: Core, loader: Core, now: u32) {
    |rs| == |WithData(ss)|
    && forall i :: 0 <= i < |rs| ==> IsRecordFor(rs[i], WithData(ss)[i], entry, dest, loader, now)
  }

  /** That is exactly what is built. */
  lemma {:induction false} RecordsExactly(rs: seq<Record>, ss: seq<Segment>, entry: nat, dest: Core, loader: Core,
                                          now: u32)
    ensures AreRecordsFor(rs, ss, entry, dest, loader, now) <==> rs == RecordsOf(ss, entry, dest, loader, now)
  {
    RecordsAreFor(ss, entry, dest, loader, now);
    var built := RecordsOf(ss, entry, dest, loader, now);
    if AreRecordsFor(rs, ss, entry, dest, loader, now) {
      forall i | 0 <= i < |rs|
        ensures rs[i] == built[i]
      {
        RecordIsFor(WithData(ss)[i], entry, dest, loader, now, rs[i]);
        RecordIsFor(WithData(ss)[i], entry, dest, loader, now, built[i]);
      }
    }
  }

  lemma {:induction false} RecordsAreFor(ss: seq<Segment>, entry: nat, dest: Core, loader: Core, now: u32)
    ensures AreRecordsFor(RecordsOf(ss, entry, dest, loader, now), ss, entry, dest, loader, now)
    decreases |ss|
  {
    hide IsRecordFor, RecordOf;
    if ss != [] {
      var last := ss[|ss| - 1];
      RecordsAreFor(ss[..|ss| - 1], entry, dest, loader, now);
      RecordIsFor(last, entry, dest, loader, now, RecordOf(last, entry, dest, loader, now));
    }
  }

  datatype Images = Images(output: seq<byte>, areas: seq<Area>) | Refused

  /** `lma` is remapped by each mapping in turn, as the loop over the table does. */
  method RemapLma(lma: nat, dest: Core, loader: Core) returns (r: nat)
    ensures r == Remap(lma, dest, loader)
  {
    r := lma;
    if dest != loader {
      for i := 0 to |MEMORY_MAPPINGS|
        invariant RemapAll(r, MEMORY_MAPPINGS[i..], dest, loader) == RemapAll(lma, MEMORY_MAPPINGS, dest, loader)
      {
        assert MEMORY_MAPPINGS[i..][1..] == MEMORY_MAPPINGS[i + 1..];
        var m := MEMORY_MAPPINGS[i];
        if r >= m.Base(dest) && r <= m.Base(dest) + m.size {
          r := r - m.Base(dest) + m.Base(loader);
        }
      }
    }
  }

  lemma {:induction false} ImageAppend(rs: seq<Record>, r: Record)
    requires AllFit(rs) && Fits(r)
    ensures AllFit(rs + [r]) && Image(rs + [r]) == Image(rs) + RecordBytes(r)
  {
    assert (rs + [r])[..|rs|] == rs;
  }

  lemma AreasAppend(rs: seq<Record>, r: Record)
    ensures Areas(rs + [r]) == Areas(rs) + [AreaOf(r)]
  {
  }

  lemma {:induction false} RecordsAppend(ss: seq<Segment>, k: nat, entry: nat, dest: Core, loader: Core, now: u32)
    requires k < |ss|
    ensures RecordsOf(ss[..k + 1], entry, dest, loader, now)
         == if ss[k].data == [] then RecordsOf(ss[..k], entry, dest, loader, now)
            else RecordsOf(ss[..k], entry, dest, loader, now) + [RecordOf(ss[k], entry, dest, loader, now)]
  {
    assert ss[..k + 1][..k] == ss[..k];
  }

  /** What the loop body settles before the header is made. */
  method DescribeSegment(s: Segment, entry: nat, dest: Core, loader: Core, now: u32) returns (record: Record)
    ensures record == RecordOf(s, entry, dest, loader, now)
  {
    var lma := RemapLma(s.paddr, dest, loader);
    var kind, entryPoint := if dest.M4? then TYPE_COPRO else TYPE_FIRMWARE, 0;
    if dest.A7? && entry >= s.vaddr && entry <= s.vaddr + s.memSize {
      kind, entryPoint := TYPE_KERNEL, entry;
    }
    record := Record(s.data, lma, entryPoint, Underscore(dest) + s.sections, kind, now);
  }

  ghost predicate Built(r: Images, rs: seq<Record>) {
    if AllFit(rs) then r == Images(Image(rs), Areas(rs)) else r == Refused
  }

  lemma {:induction false} BuiltAppend(output: seq<byte>, areas: seq<Area>, rs: seq<Record>, r: Record)
    requires Built(Images(output, areas), rs)
    ensures Built(if Fits(r) then Images(output + RecordBytes(r), areas + [AreaOf(r)]) else Refused, rs + [r])
  {
    if Fits(r) {
      ImageAppend(rs, r);
      AreasAppend(rs, r);
    } else {
      assert (rs + [r])[|rs|] == r;
    }
  }

  /** Concatenate one more record, and remember its target area. */
  method AppendRecord(output: seq<byte>, areas: seq<Area>, record: Record) returns (r: Images)
    ensures r == if Fits(record) then Images(output + RecordBytes(record), areas + [AreaOf(record)]) else Refused
  {
    var created := CreateUimgHeader(record);
    if created.StructError? {
      return Refused;
    }
    r := Images(output + (created.header + created.payload), areas + [(record.load, record.load + |created.payload|)]);
  }

  /** `get_images_for_elf`: every segment with data becomes a record; a field that does not fit refuses the file. */
  method GetImagesForElf(segments: seq<Segment>, entry: nat, dest: Core, loader: Core, now: u32) returns (r: Images)
    ensures Built(r, RecordsOf(segments, entry, dest, loader, now))
    ensures forall rs :: AreRecordsFor(rs, segments, entry, dest, loader, now) ==> Built(r, rs)
  {
    r := BuildImages(segments, entry, dest, loader, now);
    forall rs | AreRecordsFor(rs, segments, entry, dest, loader, now)
      ensures Built(r, rs)
    {
      RecordsExactly(rs, segments, entry, dest, loader, now);
    }
  }

  method BuildImages(segments: seq<Segment>, entry: nat, dest: Core, loader: Core, now: u32) returns (r: Images)
    ensures Built(r, RecordsOf(segments, entry, dest, loader, now))
  {
    r := Images([], []);
    for k := 0 to |segments|
      invariant r.Images? && Built(r, RecordsOf(segments[..k], entry, dest, loader, now))
    {
      RecordsAppend(segments, k, entry, dest, loader, now);
      if |segments[k].data| > 0 {
        var record := DescribeSegment(segments[k], entry, dest, loader, now);
        BuiltAppend(r.output, r.areas, RecordsOf(segments[..k], entry, dest, loader, now), record);
        r := AppendRecord(r.output, r.areas, record);
        if r.Refused? {
          RefusedStays(segments, k + 1, entry, dest, loader, now);
          return;
        }
      }
    }
    assert segments[..|segments|] == segments;
  }

  /** A record that does not fit is still there when all segments have been seen. */
  lemma {:induction false} RefusedStays(ss: seq<Segment>, k: nat, entry: nat, dest: Core, loader: Core, now: u32)
    requires k <= |ss| && !AllFit(RecordsOf(ss[..k], entry, dest, loader, now))
    ensures !AllFit(RecordsOf(ss, entry, dest, loader, now))
    decreases |ss| - k
  {
    if k == |ss| {
      assert ss[..k] == ss;
    } else {
      RecordsAppend(ss, k, entry, dest, loader, now);
      MisfitStays(RecordsOf(ss[..k], entry, dest, loader, now), RecordsOf(ss[..k + 1], entry, dest, loader, now));
      RefusedStays(ss, k + 1, entry, dest, loader, now);
    }
  }

  lemma MisfitStays(rs: seq<Record>, more: seq<Record>)
    requires rs <= more && !AllFit(rs)
    ensures !AllFit(more)
  {
    var r :| r in rs && !Fits(r);
    var k :| 0 <= k < |rs| && rs[k] == r;
    assert more[k] == r;
  }

  lemma FitPrefix(rs: seq<Record>, more: seq<Record>)
    requires rs <= more && AllFit(more)
    ensures AllFit(rs)
  {
    forall r | r in rs
      ensures r in more
    {
      var k :| 0 <= k < |rs| && rs[k] == r;
      assert more[k] == r;
    }
  }

  // ----- The overlap check -----

  /** One area's end lies in the other's (begin, end]. */
  predicate Clash(a: Area, b: Area) {
    (a.1 > b.0 && a.1 <= b.1) || (b.1 > a.0 && b.1 <= a.1)
  }

  predicate In(x: int, a: Area) {
    a.0 <= x < a.1
  }

  ghost predicate Share(a: Area, b: Area) {
    exists x :: In(x, a) && In(x, b)
  }

  /** For areas that are not empty, the test on their ends is exactly whether they share an address. */
  lemma ClashIsSharing(a: Area, b: Area)
    requires a.0 < a.1 && b.0 < b.1
    ensures Clash(a, b) <==> Share(a, b)
  {
    if Clash(a, b) {
      var x := if a.0 < b.0 then b.0 else a.0;
      assert In(x, a) && In(x, b);
    }
  }

  ghost predicate AnyClash(areas: seq<Area>) {
    exists i, j :: 0 <= i < |areas| && 0 <= j < |areas| && i != j && Clash(areas[i], areas[j])
  }

  /** The nested loops of the main block: raise at the first clash found. */
  method OverlapCheck(areas: seq<Area>) returns (raised: bool)
    ensures raised <==> AnyClash(areas)
  {
    for i := 0 to |areas|
      invariant forall p, q :: 0 <= p < i && 0 <= q < |areas| && p != q ==> !Clash(areas[p], areas[q])
    {
      for j := 0 to |areas|
        invariant forall q :: 0 <= q < j && q != i ==> !Clash(areas[i], areas[q])
      {
        if i != j && Clash(areas[i], areas[j]) {
          return true;
        }
      }
    }
    return false;
  }

  /** If the check passes, no two records write to the same address. */
  lemma NoClashDisjoint(rs: seq<Record>, i: nat, j: nat, x: int)
    requires !AnyClash(Areas(rs)) && i < |rs| && j < |rs|
    requires In(x, AreaOf(rs[i])) && In(x, AreaOf(rs[j]))
    ensures i == j
  {
    ClashIsSharing(Areas(rs)[i], Areas(rs)[j]);
  }

  // ----- The main block -----

  datatype Made = Made | StructFailure | Overlap

  lemma {:induction false} ImageConcat(rs: seq<Record>, qs: seq<Record>)
    requires AllFit(rs) && AllFit(qs)
    ensures AllFit(rs + qs) && Image(rs + qs) == Image(rs) + Image(qs)
    decreases |qs|
  {
    hide RecordBytes, Fits;
    if qs == [] {
      assert rs + qs == rs;
    } else {
      var init, last := qs[..|qs| - 1], qs[|qs| - 1];
      assert rs + qs == (rs + init) + [last] && qs == init + [last];
      ImageConcat(rs, init);
      ImageAppend(rs + init, last);
      ImageAppend(init, last);
      assert (Image(rs) + Image(init)) + RecordBytes(last) == Image(rs) + (Image(init) + RecordBytes(last));
    }
  }

  lemma AreasConcat(rs: seq<Record>, qs: seq<Record>)
    ensures Areas(rs + qs) == Areas(rs) + Areas(qs)
  {
  }

  /** The A7's records, then the M4's; the image is good if every field fits and no two targets clash.  `written` is
      what is in the output file at the end, also if it ends in an error. */
  method MakeImage(a7: seq<Segment>, entry7: nat, m4: seq<Segment>, entry4: nat, loader: Core, now: u32)
    returns (r: Made, written: seq<byte>)
    ensures var rs7, rs4 := RecordsOf(a7, entry7, A7, loader, now), RecordsOf(m4, entry4, M4, loader, now);
            if !AllFit(rs7) then r == StructFailure && written == []
            else if !AllFit(rs4) then r == StructFailure && written == Image(rs7)
            else AllFit(rs7 + rs4) && written == Image(rs7 + rs4)
                 && r == if AnyClash(Areas(rs7 + rs4)) then Overlap else Made
  {
    hide RecordsOf, Image, Areas, AnyClash, AllFit;
    ghost var rs7, rs4 := RecordsOf(a7, entry7, A7, loader, now), RecordsOf(m4, entry4, M4, loader, now);
    written := [];
    var images7 := GetImagesForElf(a7, entry7, A7, loader, now);
    if images7.Refused? {
      return StructFailure, written;
    }
    written := written + images7.output;
    var images4 := GetImagesForElf(m4, entry4, M4, loader, now);
    if images4.Refused? {
      return StructFailure, written;
    }
    written := written + images4.output;
    ImageConcat(rs7, rs4);
    AreasConcat(rs7, rs4);
    var clash := OverlapCheck(images7.areas + images4.areas);
    r := if clash then Overlap else Made;
  }

  lemma FitParts(rs: seq<Record>, qs: seq<Record>)
    requires AllFit(rs + qs)
    ensures AllFit(rs) && AllFit(qs)
  {
    FitPrefix(rs, rs + qs);
    forall r | r in qs
      ensures r in rs + qs
    {
    }
  }
}
