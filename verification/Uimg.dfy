/** Image records: a 64-byte big-endian header, then the payload. */
module Uimg {
  import opened Bytes
  import opened BitArithmetic
  import opened Crc32

  const UIMG_MAGIC: u32 := 0x27051956
  const UIMG_HEADER_SIZE := 64
  const OS_LINUX: byte := 5
  const ARCH_ARM: byte := 2
  const COMPRESS_NONE: byte := 0
  const TYPE_KERNEL: byte := 2
  const TYPE_FIRMWARE: byte := 5
  const TYPE_COPRO: byte := 40
  const NAME_SIZE := 32

  /** What a record is built from. */
  datatype Record = Record(payload: seq<byte>, load: int, entry: int, name: seq<byte>, kind: byte, time: u32)

  function Zeros(n: nat): (z: seq<byte>)
    ensures |z| == n
  {
    seq(n, _ => 0)
  }

  // ----- Padding -----

  /** As many zero bytes as the length exceeds a multiple of four. */
  function Padded(payload: seq<byte>): (p: seq<byte>)
    ensures |p| == |payload| + |payload| % 4 && payload <= p
  {
    payload + Zeros(|payload| % 4)
  }

  lemma TwiceRemainder(n: nat, q: nat, m: nat)
    requires n == 4 * q + m && m < 4
    ensures (n + m) % 4 == 0 <==> n % 2 == 0
  {
    ModUnique(n + m, 4, q + m / 2, 2 * (m % 2));
    ModUnique(n, 2, 2 * q + m / 2, m % 2);
  }

  /** The padding is meant to align payloads to four bytes; it does so exactly for those of even length. */
  lemma PaddingAligns(payload: seq<byte>)
    ensures |Padded(payload)| % 4 == 0 <==> |payload| % 2 == 0
  {
    TwiceRemainder(|payload|, |payload| / 4, |payload| % 4);
  }

  /** A payload of one byte gets one zero. */
  lemma OneByteIsNotAligned(b: byte)
    ensures Padded([b]) == [b, 0] && |Padded([b])| % 4 == 2
  {
  }

  method Pad(payload: seq<byte>) returns (p: seq<byte>)
    ensures p == Padded(payload)
  {
    p := payload;
    var alignment := |payload| % 4;
    while alignment > 0
      invariant 0 <= alignment <= |payload| % 4
      invariant p == payload + Zeros(|payload| % 4 - alignment)
    {
      p := p + [0];
      alignment := alignment - 1;
    }
  }

  // ----- The header -----

  /** Strings are cut or filled with zeros to the size of their field. */
  function NameField(name: seq<byte>): (f: seq<byte>)
    ensures |f| == NAME_SIZE
  {
    if |name| >= NAME_SIZE then name[..NAME_SIZE] else name + Zeros(NAME_SIZE - |name|)
  }

  function HeaderBytes(hcrc: u32, time: u32, size: u32, load: u32, entry: u32, dcrc: u32, kind: byte,
                       name: seq<byte>): (h: seq<byte>)
    ensures |h| == UIMG_HEADER_SIZE
  {
    Be32(UIMG_MAGIC) + Be32(hcrc) + Be32(time) + Be32(size) + Be32(load) + Be32(entry) + Be32(dcrc)
    + [OS_LINUX, ARCH_ARM, kind, COMPRESS_NONE] + NameField(name)
  }

  /** Sizes and addresses go into unsigned 32-bit fields and the type into a signed byte; what does not fit is
      refused. */
  predicate Fits(r: Record) {
    0 <= r.load < TWO32 && 0 <= r.entry < TWO32 && RecordSize(r) < TWO32 && r.kind < 128
  }

  function RecordSize(r: Record): nat {
    UIMG_HEADER_SIZE + |Padded(r.payload)|
  }

  function Crc32Of(data: seq<byte>): u32 {
    CrcBelow(data);
    Crc(data)
  }

  function Header(r: Record): (h: seq<byte>)
    requires Fits(r)
    ensures |h| == UIMG_HEADER_SIZE
  {
    var blank := HeaderBytes(0, r.time, RecordSize(r), r.load, r.entry, Crc32Of(Padded(r.payload)), r.kind, r.name);
    HeaderBytes(Crc32Of(blank), r.time, RecordSize(r), r.load, r.entry, Crc32Of(Padded(r.payload)), r.kind, r.name)
  }

  function RecordBytes(r: Record): (b: seq<byte>)
    requires Fits(r)
    ensures |b| == RecordSize(r)
  {
    Header(r) + Padded(r.payload)
  }

  datatype Created = Created(header: seq<byte>, payload: seq<byte>) | StructError

  /** `create_uimg_header`: pad the payload, pack a header with a zero checksum, then patch the checksum in. */
  method CreateUimgHeader(r: Record) returns (c: Created)
    ensures c == if Fits(r) then Created(Header(r), Padded(r.payload)) else StructError
  {
    hide Be32, NameField, Crc32Of, HeaderBytes;
    var payload := Pad(r.payload);
    var size := |payload| + UIMG_HEADER_SIZE;
    if !(0 <= r.load < TWO32 && 0 <= r.entry < TWO32 && size < TWO32 && r.kind < 128) {
      return StructError;
    }
    var dcrc := Crc32Of(payload);
    var header := HeaderBytes(0, r.time, size, r.load, r.entry, dcrc, r.kind, r.name);
    var hcrc := Be32(Crc32Of(header));
    PatchChecksum(Crc32Of(header), r.time, size, r.load, r.entry, dcrc, r.kind, r.name);
    header := header[..4] + hcrc + header[8..];
    return Created(header, payload);
  }

  lemma PatchChecksum(hcrc: u32, time: u32, size: u32, load: u32, entry: u32, dcrc: u32, kind: byte, name: seq<byte>)
    ensures var blank := HeaderBytes(0, time, size, load, entry, dcrc, kind, name);
            blank[..4] + Be32(hcrc) + blank[8..] == HeaderBytes(hcrc, time, size, load, entry, dcrc, kind, name)
  {
  }

  // ----- Reading a header back -----

  datatype Fields = Fields(magic: u32, size: u32, load: u32, entry: u32, kind: byte)

  /** The fields the stub looks at, in the image `img` at `off`. */
  function FieldsAt(img: seq<byte>, off: nat): Fields
    requires off + UIMG_HEADER_SIZE <= |img|
  {
    Fields(FromBe32(img[off..off + 4]), FromBe32(img[off + 12..off + 16]), FromBe32(img[off + 16..off + 20]),
           FromBe32(img[off + 20..off + 24]), img[off + 30])
  }

  lemma HeaderFields(hcrc: u32, time: u32, size: u32, load: u32, entry: u32, dcrc: u32, kind: byte, name: seq<byte>)
    ensures FieldsAt(HeaderBytes(hcrc, time, size, load, entry, dcrc, kind, name), 0)
         == Fields(UIMG_MAGIC, size, load, entry, kind)
  {
    var h := HeaderBytes(hcrc, time, size, load, entry, dcrc, kind, name);
    assert h[0..4] == Be32(UIMG_MAGIC) && h[12..16] == Be32(size) && h[16..20] == Be32(load)
      && h[20..24] == Be32(entry);
    Be32RoundTrip(UIMG_MAGIC);
    Be32RoundTrip(size);
    Be32RoundTrip(load);
    Be32RoundTrip(entry);
  }

  /** A built record's header reads back as what it was built from. */
  lemma RecordFields(r: Record)
    requires Fits(r)
    ensures FieldsAt(RecordBytes(r), 0) == Fields(UIMG_MAGIC, RecordSize(r), r.load, r.entry, r.kind)
  {
    var blank := HeaderBytes(0, r.time, RecordSize(r), r.load, r.entry, Crc32Of(Padded(r.payload)), r.kind, r.name);
    HeaderFields(Crc32Of(blank), r.time, RecordSize(r), r.load, r.entry, Crc32Of(Padded(r.payload)), r.kind, r.name);
    FieldsShift(Header(r), [], Padded(r.payload));
  }

  /** The other fields: each checksum is that of the bytes it covers, the header's own counting as zero. */
  lemma RecordChecks(r: Record)
    requires Fits(r)
    ensures var b := RecordBytes(r);
            && b[64..] == r.payload + Zeros(|r.payload| % 4) && b[..4] == [0x27, 0x05, 0x19, 0x56]
            && FromBe32(b[24..28]) == Crc(b[64..])
            && FromBe32(b[4..8]) == Crc(b[..4] + [0, 0, 0, 0] + b[8..64])
            && FromBe32(b[8..12]) == r.time && b[28..32] == [5, 2, r.kind, 0]
            && b[32..64] == if |r.name| >= 32 then r.name[..32] else r.name + Zeros(32 - |r.name|)
  {
    hide Crc32Of, Crc, FromBe32;
    var b, data := RecordBytes(r), Padded(r.payload);
    var dcrc := Crc32Of(data);
    var blank := HeaderBytes(0, r.time, RecordSize(r), r.load, r.entry, dcrc, r.kind, r.name);
    var hcrc := Crc32Of(blank);
    var h := HeaderBytes(hcrc, r.time, RecordSize(r), r.load, r.entry, dcrc, r.kind, r.name);
    assert b == h + data && b[64..] == data;
    HeaderParts(hcrc, r.time, RecordSize(r), r.load, r.entry, dcrc, r.kind, r.name);
    ClearChecksum(hcrc, r.time, RecordSize(r), r.load, r.entry, dcrc, r.kind, r.name);
    hide HeaderBytes;
    assert b[..64] == h && b[24..28] == h[24..28] && b[4..8] == h[4..8] && b[8..12] == h[8..12];
    assert b[28..32] == h[28..32] && b[32..64] == h[32..64] && b[..4] == h[..4] && b[8..64] == h[8..64];
    Crc32OfIs(data);
    Crc32OfIs(blank);
  }

  lemma Crc32OfIs(data: seq<byte>)
    ensures Crc32Of(data) == Crc(data)
  {
  }

  lemma HeaderParts(hcrc: u32, time: u32, size: u32, load: u32, entry: u32, dcrc: u32, kind: byte, name: seq<byte>)
    ensures var h := HeaderBytes(hcrc, time, size, load, entry, dcrc, kind, name);
            && h[..4] == [0x27, 0x05, 0x19, 0x56] && FromBe32(h[4..8]) == hcrc && FromBe32(h[8..12]) == time
            && FromBe32(h[24..28]) == dcrc && h[28..32] == [5, 2, kind, 0] && h[32..64] == NameField(name)
  {
    var h := HeaderBytes(hcrc, time, size, load, entry, dcrc, kind, name);
    assert Be32(UIMG_MAGIC) == [0x27, 0x05, 0x19, 0x56] by {
      MagicWord();
    }
    hide Be32, FromBe32, NameField;
    assert h[..4] == Be32(UIMG_MAGIC) && h[4..8] == Be32(hcrc) && h[8..12] == Be32(time);
    assert h[24..28] == Be32(dcrc) && h[28..32] == [OS_LINUX, ARCH_ARM, kind, COMPRESS_NONE];
    assert h[32..64] == NameField(name);
    Be32RoundTrip(hcrc);
    Be32RoundTrip(time);
    Be32RoundTrip(dcrc);
  }

  lemma MagicWord()
    ensures Be32(UIMG_MAGIC) == [0x27, 0x05, 0x19, 0x56]
  {
  }

  lemma ClearChecksum(hcrc: u32, time: u32, size: u32, load: u32, entry: u32, dcrc: u32, kind: byte, name: seq<byte>)
    ensures var h := HeaderBytes(hcrc, time, size, load, entry, dcrc, kind, name);
            h[..4] + [0, 0, 0, 0] + h[8..64] == HeaderBytes(0, time, size, load, entry, dcrc, kind, name)
  {
    PatchChecksum(hcrc, time, size, load, entry, dcrc, kind, name);
    PatchChecksum(0, time, size, load, entry, dcrc, kind, name);
    ZeroWord();
    hide Be32, HeaderBytes;
    var blank := HeaderBytes(0, time, size, load, entry, dcrc, kind, name);
    var h := blank[..4] + Be32(hcrc) + blank[8..];
    assert h[..4] == blank[..4] && h[8..64] == blank[8..];
  }

  lemma ZeroWord()
    ensures Be32(0) == [0, 0, 0, 0]
  {
  }

  lemma FieldsShift(header: seq<byte>, before: seq<byte>, after: seq<byte>)
    requires |header| >= UIMG_HEADER_SIZE
    ensures FieldsAt(before + header + after, |before|) == FieldsAt(header, 0)
  {
    var img, off := before + header + after, |before|;
    assert img[off..off + 4] == header[0..4] && img[off + 12..off + 16] == header[12..16];
    assert img[off + 16..off + 20] == header[16..20] && img[off + 20..off + 24] == header[20..24];
  }
}
