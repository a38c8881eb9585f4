/** The console ring and its reader in memory: a step for step realisation of the specification of their interplay. */
module ConsoleRing {
  import opened Bytes
  import opened ConsoleLog

  // ----- The ring -----

  lemma IndexOfPosition(p: nat, j: nat)
    ensures (Wrap32(p) + j) % 0x4_0000 == (p + j) % 0x4_0000
    ensures Wrap32(Wrap32(p) + j) == Wrap32(p + j)
  {
    assert p + j == Wrap32(p) + j + SIZE * (0x4000 * (p / TWO32));
  }

  lemma IndicesDiffer(p: nat, q: nat)
    requires p < q < p + SIZE
    ensures p % 0x4_0000 != q % 0x4_0000
  {
  }

  /** Without wrapping past the ring's end, indices go on from the first one. */
  lemma IndexRun(p: nat, j: nat)
    requires p % 0x4_0000 + j < SIZE
    ensures (p + j) % 0x4_0000 == p % 0x4_0000 + j
  {
  }

  lemma SameIndex(p: nat)
    ensures (p + SIZE) % 0x4_0000 == p % 0x4_0000
  {
  }

  /** The ring holds the last `SIZE` bytes of the log. */
  ghost predicate Window(ring: array<byte>, log: seq<byte>)
    reads ring
  {
    && ring.Length == SIZE
    && forall p {:trigger log[p]} :: 0 <= p < |log| <= p + SIZE ==> ring[p % 0x4_0000] == log[p]
  }

  /** Any cell holds the byte logged last to it. */
  lemma {:induction false} CellIsLatest(ring: array<byte>, log: seq<byte>, p: nat)
    requires Window(ring, log) && p < |log|
    ensures ring[p % 0x4_0000] == log[Latest(|log|, p)]
    decreases |log| - p
  {
    if |log| <= p + SIZE {
      assert log[p] == ring[p % 0x4_0000];
    } else {
      SameIndex(p);
      CellIsLatest(ring, log, p + SIZE);
    }
  }

  class ConcurrentBuffer {
    const ring: array<byte>
    var writePos: u32
    var readPos: u32
    var reservePos: u32
    ghost var w: Writer

    ghost predicate Valid()
      reads this, ring
    {
      && Window(ring, w.log) && w.Ok()
      && writePos == Wrap32(w.published) && readPos == Wrap32(w.seen) && reservePos == Wrap32(|w.log|)
    }

    constructor ()
      ensures Valid() && fresh(ring) && w == Writer([], 0, 0)
    {
      ring := new byte[SIZE](_ => 0);
      writePos, readPos, reservePos, w := 0, 0, 0, Writer([], 0, 0);
    }

    method Put(at: nat, b: byte)
      requires Window(ring, w.log) && at == |w.log| % 0x4_0000
      modifies ring, `w
      ensures Window(ring, w.log) && w == old(w).(log := old(w.log) + [b])
    {
      ghost var before := w.log;
      ring[at] := b;
      w := w.(log := before + [b]);
      forall p | 0 <= p < |w.log| <= p + SIZE
        ensures ring[p % 0x4_0000] == w.log[p]
      {
        if p < |before| {
          IndicesDiffer(p, |before|);
          assert before[p] == w.log[p];
        }
      }
    }

    /** Byte `j` of the data goes to position `pos + j`. */
    method CopyIn(data: seq<byte>, pos: u32)
      requires Window(ring, w.log) && pos == Wrap32(|w.log|)
      modifies ring, `w
      ensures Window(ring, w.log) && w == old(w).(log := old(w.log) + data)
    {
      ghost var before := w.log;
      for j := 0 to |data|
        invariant Window(ring, w.log) && w == old(w).(log := before + data[..j])
      {
        IndexOfPosition(|before|, j);
        Put((pos + j) % 0x4_0000, data[j]);
        assert before + data[..j + 1] == before + data[..j] + [data[j]];
      }
      assert data[..|data|] == data;
    }

    /** Reserve, then copy. */
    method Write(data: seq<byte>)
      requires Valid()
      modifies ring, `w, `reservePos
      ensures Valid() && w == old(w).(log := old(w.log) + data)
    {
      var start := reservePos;
      reservePos := Wrap32(start + |data|);
      IndexOfPosition(|w.log|, |data|);
      CopyIn(data, start);
    }

    /** One step of the writer. */
    method Step(s: WriterStep)
      requires Valid()
      modifies ring, `w, `writePos, `reservePos
      ensures Valid() && w == AfterStep(old(w), s)
    {
      match s
      case Copy(data) => Write(data);
      case Publish =>
        writePos := reservePos;
        w := w.(published := |w.log|);
      case WaitAndCopy(data) =>
        if Wrap32(Wrap32(reservePos - readPos) + |data|) <= SIZE {
          Write(data);
        }
    }

    /** The writer runs for a while. */
    method Interfere(steps: seq<WriterStep>)
      requires Valid()
      modifies ring, `w, `writePos, `reservePos
      ensures Valid() && w == After(old(w), steps)
    {
      assert steps[..0] == [];
      for k := 0 to |steps|
        invariant Valid() && w == After(old(w), steps[..k])
      {
        assert steps[..k + 1][..k] == steps[..k];
        Step(steps[k]);
      }
      assert steps[..|steps|] == steps;
    }

    /** The writer runs up to the reader's `p`-th load. */
    method Advance(env: Schedule, p: nat, ghost w0: Writer)
      requires Valid() && w0.Ok() && w == if p == 0 then w0 else At(w0, env, p - 1)
      modifies ring, `w, `writePos, `reservePos
      ensures Valid() && w == At(w0, env, p)
    {
      hide After;
      Interfere(env(p));
    }
  }

  // ----- Bytes into the output -----

  ghost predicate Unchanged(was: seq<byte>, out: array<byte>, base: nat, size: nat)
    reads out
  {
    && |was| == out.Length
    && forall a {:trigger out[a]} :: 0 <= a < |was| && !(base <= a < base + size) ==> out[a] == was[a]
  }

  /** `memcpy` of known bytes. */
  method StoreAt(out: array<byte>, base: nat, data: seq<byte>)
    requires base + |data| <= out.Length
    modifies out
    ensures Unchanged(old(out[..]), out, base, |data|) && out[base..base + |data|] == data
  {
    for k := 0 to |data|
      invariant Unchanged(old(out[..]), out, base, |data|)
      invariant forall a {:trigger out[a]} :: base <= a < base + k ==> out[a] == data[a - base]
    {
      out[base + k] := data[k];
    }
  }

  /** The backward search for a newline. */
  method TrimLine(out: array<byte>, base: nat, n: nat) returns (r: nat)
    requires 1 <= n && base + n <= out.Length
    ensures r == Trimmed(out[base..base + n])
  {
    r := n;
    if out[base + n - 1] != NEWLINE {
      ghost var s := out[base..base + n];
      var k := n;
      assert s[..n] == s;
      while k > 0 && out[base + k - 1] != NEWLINE
        invariant k <= n && LastLine(s[..k]) == LastLine(s)
      {
        assert s[..k][..k - 1] == s[..k - 1];
        k := k - 1;
      }
      if k > 0 {
        r := k;
      }
    }
  }

  // ----- Reading one buffer -----

  /** The copy of `n` bytes, the writer running before each load: byte `k` is load `k + 1`. */
  method CopyOut(buf: ConcurrentBuffer, env: Schedule, offset: nat, out: array<byte>, base: nat, n: nat,
                 ghost at: nat, ghost w0: Writer)
    requires buf.Valid() && out != buf.ring && base + n <= out.Length && w0.Ok() && buf.w == At(w0, env, 0)
    requires offset == at % 0x4_0000 && offset + n <= SIZE && at + n <= |buf.w.log|
    modifies buf.ring, buf`w, buf`writePos, buf`reservePos, out
    ensures buf.Valid() && buf.w == At(w0, env, n)
    ensures out[base..base + n] == LoadedBytes(w0, env, at, n) && Unchanged(old(out[..]), out, base, n)
  {
    hide At;
    for k := 0 to n
      invariant buf.Valid() && buf.w == At(w0, env, k)
      invariant at + n <= |At(w0, env, 0).log|
      invariant out[base..base + k] == LoadedBytes(w0, env, at, k) && Unchanged(old(out[..]), out, base, n)
    {
      hide At, After, LoadedByte;
      AtGrows(w0, env, 0, k + 1);
      ghost var before := out[base..base + k];
      CopyByte(buf, env, offset, out, base, k, at, w0);
      assert out[base..base + k + 1] == before + [LoadedByte(w0, env, at, k)];
    }
  }

  method CopyByte(buf: ConcurrentBuffer, env: Schedule, offset: nat, out: array<byte>, base: nat, k: nat,
                  ghost at: nat, ghost w0: Writer)
    requires buf.Valid() && out != buf.ring && base + k < out.Length && w0.Ok() && buf.w == At(w0, env, k)
    requires offset == at % 0x4_0000 && offset + k < SIZE && at + k < |At(w0, env, 0).log|
    modifies buf.ring, buf`w, buf`writePos, buf`reservePos, out
    ensures buf.Valid() && buf.w == At(w0, env, k + 1) && out[base + k] == LoadedByte(w0, env, at, k)
    ensures Unchanged(old(out[..]), out, base + k, 1)
  {
    hide At, After, Latest;
    buf.Advance(env, k + 1, w0);
    AtGrows(w0, env, 0, k + 1);
    IndexRun(at, k);
    CellIsLatest(buf.ring, buf.w.log, at + k);
    out[base + k] := buf.ring[offset + k];
  }

  /** Copy `n` pending bytes, look at the write position again, and end the chunk at a line. */
  method ReadChunk(buf: ConcurrentBuffer, env: Schedule, start: u32, out: array<byte>, base: nat, n: nat,
                   ghost at: nat, ghost w0: Writer)
    returns (kind: Kind, len: nat, pos: u32, ghost o: Outcome)
    requires buf.Valid() && out != buf.ring && base + n <= out.Length && 1 <= n
    requires w0.Ok() && buf.w == At(w0, env, 0) && start == Wrap32(at)
    requires at + n <= buf.w.published && at % 0x4_0000 + n <= SIZE
    modifies buf.ring, buf`w, buf`writePos, buf`reservePos, out
    ensures o == CopyOutcome(w0, at, env, n) && buf.Valid() && buf.w == At(w0, env, o.loads - 1)
    ensures kind == o.kind && len <= n && out[base..base + len] == o.data && pos == Wrap32(o.next)
    ensures Unchanged(old(out[..]), out, base, n)
  {
    hide At, LoadedBytes, Wrap32, LastLine;
    o := CopyOutcome(w0, at, env, n);
    IndexOfPosition(at, 0);
    CopyOut(buf, env, start % 0x4_0000, out, base, n, at, w0);
    buf.Advance(env, n + 1, w0);
    if Wrap32(buf.writePos - start) > SIZE {
      buf.Advance(env, n + 2, w0);
      kind, len, pos := Torn, 0, buf.writePos;
    } else {
      len := TrimLine(out, base, n);
      assert out[base..base + len] == out[base..base + n][..len];
      IndexOfPosition(at, len);
      kind, pos := Chunk, Wrap32(start + len);
    }
  }

  /** `read_from`, for one buffer, with its writer running before every load. */
  method ReadRing(buf: ConcurrentBuffer, env: Schedule, start: u32, out: array<byte>, base: nat, size: nat,
                  ghost at: nat)
    returns (kind: Kind, len: nat, pos: u32, ghost o: Outcome)
    requires buf.Valid() && out != buf.ring && base + size <= out.Length && 1 <= size
    requires start == Wrap32(at) && at <= buf.w.published
    modifies buf.ring, buf`w, buf`writePos, buf`reservePos, out
    ensures o == ReadOutcome(old(buf.w), at, env, size) && buf.Valid() && buf.w == At(old(buf.w), env, o.loads - 1)
    ensures kind == o.kind && len <= size && out[base..base + len] == o.data && pos == Wrap32(o.next)
    ensures Unchanged(old(out[..]), out, base, size)
  {
    hide At, CopyOutcome, Wrap32;
    ghost var w0 := buf.w;
    o := ReadOutcome(w0, at, env, size);
    buf.Advance(env, 0, w0);
    var wpos := buf.writePos;
    var avail := Wrap32(wpos - start);
    PositionDifference(buf.w.published, at);
    if avail == 0 {
      return Idle, 0, start, o;
    }
    if avail > SIZE {
      len := Min(|OVERRUN|, size);
      StoreAt(out, base, OVERRUN[..len]);
      return Lapped, len, wpos, o;
    }
    IndexOfPosition(at, 0);
    var n := Min(Min(avail, size), SIZE - start % 0x4_0000);
    kind, len, pos, o := ReadChunk(buf, env, start, out, base, n, at, w0);
  }

  // ----- The reader -----

  lemma SliceKept(was: seq<byte>, out: array<byte>, base: nat, size: nat, lo: nat, hi: nat)
    requires Unchanged(was, out, base, size) && lo <= hi <= |was| && (hi <= base || base + size <= lo)
    ensures out[lo..hi] == was[lo..hi]
  {
  }

  lemma Pieces(out: array<byte>, a: nat, b: nat, c: nat)
    requires a <= b <= c <= out.Length
    ensures out[..c] == out[0..a] + out[a..b] + out[b..c]
  {
  }

  /** Put colour codes around a payload of `n` bytes. */
  method Decorate(out: array<byte>, prefix: seq<byte>, suffix: seq<byte>, n: nat)
    requires |prefix| + n + |suffix| <= out.Length
    modifies out
    ensures out[..|prefix| + n + |suffix|] == prefix + old(out[|prefix|..|prefix| + n]) + suffix
  {
    var a, b := |prefix|, |prefix| + n;
    StoreAt(out, 0, prefix);
    SliceKept(old(out[..]), out, 0, a, a, b);
    ghost var was := out[..];
    StoreAt(out, b, suffix);
    SliceKept(was, out, b, |suffix|, 0, a);
    SliceKept(was, out, b, |suffix|, a, b);
    Pieces(out, a, b, b + |suffix|);
  }

  class ConsoleBufferReader {
    const buffers: seq<ConcurrentBuffer>
    const colors: seq<seq<byte>>
    const normal: seq<byte>
    var readPos: seq<u32>
    var nextIdx: nat
    var useColor: bool

    /** Absolute read positions, where each buffer's unbroken run began, and what it has delivered. */
    ghost var at: seq<nat>
    ghost var from: seq<nat>
    ghost var delivered: seq<seq<byte>>

    ghost function Footprint(): set<object> {
      (set i | 0 <= i < |buffers| :: buffers[i]) + (set i | 0 <= i < |buffers| :: buffers[i].ring)
    }

    /** Buffers and rings are all different objects. */
    ghost predicate Separate() {
      && |buffers| == |colors| == NUM_BUFFERS
      && forall i: nat, j: nat :: i < j < NUM_BUFFERS ==> buffers[i] != buffers[j] && buffers[i].ring != buffers[j].ring
    }

    ghost predicate Lengths()
      reads `readPos, `at, `from, `delivered
    {
      |readPos| == |at| == |from| == |delivered| == NUM_BUFFERS
    }

    ghost function State(i: nat): Slot
      requires Separate() && Lengths() && i < NUM_BUFFERS
      reads `readPos, `at, `from, `delivered, buffers[i]
    {
      Slot(buffers[i].w, at[i], from[i], delivered[i])
    }

    ghost predicate SlotValid(i: nat)
      requires Separate() && Lengths() && i < NUM_BUFFERS
      reads `readPos, `at, `from, `delivered, buffers[i], buffers[i].ring
    {
      buffers[i].Valid() && readPos[i] == Wrap32(at[i]) && State(i).Ok()
    }

    ghost predicate Valid()
      reads this, Footprint()
    {
      && Separate() && Lengths() && nextIdx < NUM_BUFFERS
      && forall i {:trigger SlotValid(i)} {:trigger State(i)} :: 0 <= i < NUM_BUFFERS ==> SlotValid(i)
    }

    /** The reader and its buffers, as the specification sees them. */
    ghost function View(): (d: Desk)
      requires Separate() && Lengths()
      reads `readPos, `at, `from, `delivered, `nextIdx, Footprint()
      ensures d.next == nextIdx && |d.slots| == NUM_BUFFERS
        && forall j :: 0 <= j < NUM_BUFFERS ==> d.slots[j] == State(j)
    {
      Desk([State(0), State(1), State(2)], nextIdx)
    }

    constructor (buffers: seq<ConcurrentBuffer>, colors: seq<seq<byte>>, normal: seq<byte>)
      requires |buffers| == |colors| == NUM_BUFFERS && forall i :: 0 <= i < NUM_BUFFERS ==> buffers[i].Valid()
      requires forall i: nat, j: nat :: i < j < NUM_BUFFERS ==>
        buffers[i] != buffers[j] && buffers[i].ring != buffers[j].ring
      ensures Valid() && this.buffers == buffers && nextIdx == 0 && !useColor
      ensures forall j :: 0 <= j < NUM_BUFFERS ==> State(j) == Slot(buffers[j].w, 0, 0, [])
    {
      this.buffers, this.colors, this.normal := buffers, colors, normal;
      readPos, nextIdx, useColor := [0, 0, 0], 0, false;
      at, from, delivered := [0, 0, 0], [0, 0, 0], [[], [], []];
      new;
      forall i | 0 <= i < NUM_BUFFERS
        ensures SlotValid(i)
      {
        assert this.buffers[i].Valid();
      }
    }

    /** Store a new read position for buffer `i`, where its writer sees it too. */
    method Move(i: nat, pos: u32, ghost s: Slot)
      requires Separate() && Lengths() && nextIdx < NUM_BUFFERS && i < NUM_BUFFERS
      requires forall j :: 0 <= j < NUM_BUFFERS && j != i ==> SlotValid(j)
      requires buffers[i].Valid() && s.Ok() && s.w == buffers[i].w.(seen := s.at) && pos == Wrap32(s.at)
      modifies `readPos, `at, `from, `delivered, buffers[i]
      ensures Valid() && State(i) == s && nextIdx == old(nextIdx)
      ensures forall j {:trigger State(j)} :: 0 <= j < NUM_BUFFERS && j != i ==> State(j) == old(State(j))
    {
      readPos := readPos[i := pos];
      buffers[i].readPos := pos;
      buffers[i].w := s.w;
      at, from, delivered := at[i := s.at], from[i := s.from], delivered[i := s.delivered];
      forall j | 0 <= j < NUM_BUFFERS && j != i
        ensures SlotValid(j)
      {
        assert old(SlotValid(j));
      }
    }

    /** `read_from`: the slot becomes what the specification says, for whatever its writer does meanwhile. */
    method ReadFrom(i: nat, out: array<byte>, base: nat, size: nat, env: Schedule) returns (n: nat)
      requires Valid() && i < NUM_BUFFERS && out !in Footprint() && base + size <= out.Length && 1 <= size
      modifies `readPos, `at, `from, `delivered, buffers[i], buffers[i].ring, out
      ensures Valid() && nextIdx == old(nextIdx) && State(i) == ReadSlot(old(State(i)), env, size)
      ensures at[i] != old(at[i]) ==> buffers[i].readPos == readPos[i]
      ensures forall j {:trigger State(j)} :: 0 <= j < NUM_BUFFERS && j != i ==> State(j) == old(State(j))
      ensures n <= size && out[base..base + n] == ReadOutcome(old(State(i).w), old(at[i]), env, size).data
      ensures Unchanged(old(out[..]), out, base, size)
    {
      hide ReadOutcome, At, Wrap32;
      assert SlotValid(i);
      ghost var s := ReadSlot(State(i), env, size);
      ReadShows(State(i), env, size);
      var kind, pos;
      ghost var o;
      kind, n, pos, o := ReadRing(buffers[i], env, readPos[i], out, base, size, at[i]);
      forall j | 0 <= j < NUM_BUFFERS && j != i
        ensures SlotValid(j)
      {
        assert old(SlotValid(j));
      }
      if kind != Idle {
        Move(i, pos, s);
      } else {
        assert SlotValid(i);
      }
    }

    method ResyncOne(i: nat)
      requires Valid() && i < NUM_BUFFERS
      modifies `readPos, `at, `from, `delivered, buffers[i]
      ensures Valid() && nextIdx == old(nextIdx)
      ensures forall j {:trigger State(j)} :: 0 <= j < NUM_BUFFERS && j != i ==> State(j) == old(State(j))
      ensures State(i) == Resynced(old(State(i)))
    {
      assert SlotValid(i);
      Move(i, buffers[i].writePos, Resynced(State(i)));
    }

    /** `resync`: every backlog is dropped, and the writers see it. */
    method Resync()
      requires Valid()
      modifies `readPos, `at, `from, `delivered, Footprint()
      ensures Valid() && nextIdx == old(nextIdx)
      ensures forall i {:trigger State(i)} :: 0 <= i < NUM_BUFFERS ==> State(i) == Resynced(old(State(i)))
    {
      for i := 0 to NUM_BUFFERS
        invariant Valid() && nextIdx == old(nextIdx)
        invariant forall j {:trigger State(j)} :: 0 <= j < NUM_BUFFERS ==>
          State(j) == if j < i then Resynced(old(State(j))) else old(State(j))
      {
        ResyncOne(i);
      }
    }

    function Prefix(i: nat): seq<byte>
      requires i < |colors|
      reads `useColor
    {
      if useColor then colors[i] else []
    }

    function Suffix(): seq<byte>
      reads `useColor
    {
      if useColor then normal else []
    }

    /** How much payload fits between the colour codes. */
    ghost function Rooms(color: bool, length: nat): (rooms: seq<int>)
      requires Separate()
      ensures |rooms| == NUM_BUFFERS
    {
      if color then
        [length - |colors[0]| - |normal|, length - |colors[1]| - |normal|, length - |colors[2]| - |normal|]
      else [length, length, length]
    }

    lemma RoomIs(i: nat, length: nat)
      requires Separate() && i < NUM_BUFFERS
      ensures Rooms(useColor, length)[i] == length - |Prefix(i)| - |Suffix()|
    {
    }

    /** One buffer's turn in the scan. */
    method Ask(i: nat, out: array<byte>, env: Schedule) returns (n: nat, ghost payload: seq<byte>)
      requires Valid() && i < NUM_BUFFERS && out !in Footprint() && |Prefix(i)| + |Suffix()| < out.Length
      modifies `readPos, `at, `from, `delivered, buffers[i], buffers[i].ring, out
      ensures Valid()
      ensures old(View().slots[i].Ok())
      ensures var s, size := old(View().slots[i]), out.Length - |Prefix(i)| - |Suffix()|;
              && payload == ReadOutcome(s.w, s.at, env, size).data
              && View() == Desk(old(View()).slots[i := ReadSlot(s, env, size)], old(nextIdx))
      ensures n == 0 <==> payload == []
      ensures n > 0 ==> n <= out.Length && out[..n] == Prefix(i) + payload + Suffix()
    {
      hide ReadOutcome, ReadSlot, Wrap32;
      ghost var slots := View().slots;
      var base := |Prefix(i)|;
      var len := ReadFrom(i, out, base, out.Length - base - |Suffix()|, env);
      ViewIs(slots[i := State(i)]);
      payload := out[base..base + len];
      n := 0;
      if len > 0 {
        Decorate(out, Prefix(i), Suffix(), len);
        n := base + len + |Suffix()|;
      }
    }

    lemma ViewIs(slots: seq<Slot>)
      requires Separate() && Lengths() && |slots| == NUM_BUFFERS
        && forall j :: 0 <= j < NUM_BUFFERS ==> slots[j] == State(j)
      ensures View() == Desk(slots, nextIdx)
    {
    }

    /** The loop body of the scan. */
    method ScanOne(out: array<byte>, envs: nat -> Schedule, ghost call: Call, ghost scan: nat, ghost g: Given)
      returns (n: nat, stop: bool)
      requires Valid() && View().Ok() && out !in Footprint() && 1 <= out.Length && scan < NUM_BUFFERS
      requires call == Call(Rooms(useColor, out.Length), envs) && g == Scan(View(), call, scan)
      modifies `nextIdx, `readPos, `at, `from, `delivered, Footprint(), out
      ensures Valid() && View().Ok()
      ensures n > 0 ==> stop && n <= out.Length && out[..n] == Prefix(g.served) + g.payload + Suffix()
      ensures stop ==> View() == g.desk && (n == 0 <==> g.payload == [])
      ensures !stop ==> g == Scan(View(), call, scan + 1)
    {
      hide Scan, ReadOutcome, ReadSlot, SlotValid, State, Wrap32, Prefix, Suffix, Rooms;
      var i := nextIdx;
      RoomIs(i, out.Length);
      ghost var before := View();
      ScanStops(before, call, scan);
      nextIdx := (nextIdx + 1) % 3;
      if out.Length <= |Prefix(i)| + |Suffix()| {
        ViewIs(before.slots);
        ViewOk();
        return 0, true;
      }
      ghost var payload;
      n, payload := Ask(i, out, envs(i));
      ViewOk();
      ScanAsks(before, call, scan, View(), payload);
      stop := n > 0;
    }

    /** `next_chunk`: the desk becomes what the specification says, and the output is the payload in its colour. */
    method NextChunk(out: array<byte>, envs: nat -> Schedule) returns (n: nat, ghost g: Given)
      requires Valid() && out !in Footprint() && 1 <= out.Length
      modifies `nextIdx, `readPos, `at, `from, `delivered, Footprint(), out
      ensures Valid() && old(View()).Ok()
      ensures g == ConsoleLog.NextChunk(old(View()), Call(Rooms(useColor, out.Length), envs))
      ensures View() == g.desk && (n == 0 <==> g.payload == [])
      ensures n > 0 ==> n <= out.Length && out[..n] == Prefix(g.served) + g.payload + Suffix()
    {
      hide Scan, SlotValid, State, Wrap32, Prefix, Suffix, Rooms;
      n := 0;
      ghost var call := Call(Rooms(useColor, out.Length), envs);
      ViewOk();
      g := ConsoleLog.NextChunk(View(), call);
      for scan := 0 to NUM_BUFFERS
        invariant Valid() && View().Ok() && n == 0 && g == Scan(View(), call, scan)
      {
        var stop;
        n, stop := ScanOne(out, envs, call, scan, g);
        if stop {
          return;
        }
      }
      ScanStops(View(), call, NUM_BUFFERS);
    }

    lemma ViewOk()
      requires Valid()
      ensures View().Ok()
    {
      assert SlotValid(0) && SlotValid(1) && SlotValid(2);
    }

    /** Any number of chunks. */
    method Drain(out: array<byte>, envs: seq<nat -> Schedule>)
      requires Valid() && out !in Footprint() && 1 <= out.Length
      modifies `nextIdx, `readPos, `at, `from, `delivered, Footprint(), out
      ensures Valid() && old(View()).Ok()
      ensures View() == ConsoleLog.Drain(old(View()), CallsOf(Rooms(useColor, out.Length), envs))
    {
      hide ConsoleLog.NextChunk, ConsoleLog.Drain, CallsOf, View, SlotValid, State, Prefix, Suffix, Rooms, Wrap32;
      ViewOk();
      ghost var d, rooms := View(), Rooms(useColor, out.Length);
      ghost var cur := d;
      NoCalls(d, rooms, envs);
      for k := 0 to |envs|
        invariant Valid() && View() == cur && cur == ConsoleLog.Drain(d, CallsOf(rooms, envs[..k]))
      {
        var n;
        ghost var g;
        n, g := NextChunk(out, envs[k]);
        DrainCalls(d, rooms, envs, k);
        cur := g.desk;
      }
    }

    lemma NoCalls(d: Desk, rooms: seq<int>, envs: seq<nat -> Schedule>)
      requires d.Ok() && |rooms| == NUM_BUFFERS
      ensures ConsoleLog.Drain(d, CallsOf(rooms, envs[..0])) == d && envs[..|envs|] == envs
    {
      assert CallsOf(rooms, envs[..0]) == [];
    }

    lemma DrainCalls(d: Desk, rooms: seq<int>, envs: seq<nat -> Schedule>, k: nat)
      requires d.Ok() && |rooms| == NUM_BUFFERS && k < |envs|
      ensures ConsoleLog.Drain(d, CallsOf(rooms, envs[..k + 1]))
           == ConsoleLog.NextChunk(ConsoleLog.Drain(d, CallsOf(rooms, envs[..k])), Call(rooms, envs[k])).desk
    {
      hide ConsoleLog.NextChunk, ConsoleLog.Drain, CallsOf;
      CallsOfStep(rooms, envs, k);
      DrainStep(d, CallsOf(rooms, envs[..k]), Call(rooms, envs[k]));
    }
  }
}
