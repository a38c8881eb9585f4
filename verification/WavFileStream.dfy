/** The WAV pre-buffer: a FIFO that caches a window of a file, and can be rewound within it. */
module WavFileStream {
  import opened Bytes

  const READ_BLOCK_BYTES: nat := 4096

  // ----- The sample FIFO -----

  lemma Multiple(b: nat, d: int)
    ensures d >= 1 ==> b * d >= b
    ensures d <= 0 ==> b * d <= 0
  {
  }

  lemma SlotsDiffer(p: nat, q: nat, b: nat)
    requires p < q < p + b
    ensures p % b != q % b
  {
    if p % b == q % b {
      assert q - p == b * (q / b - p / b);
      Multiple(b, q / b - p / b);
    }
  }

  /** It holds exactly as many samples as it has slots; positions count samples ever written and read. */
  datatype Fifo = Fifo(slots: seq<int>, w: nat, r: nat) {
    predicate Ok() {
      r <= w <= r + |slots|
    }

    function Filled(): nat
      requires Ok()
    {
      w - r
    }

    function Free(): nat
      requires Ok()
    {
      |slots| - (w - r)
    }

    function Put(x: int): (f: Fifo)
      requires Ok()
      ensures f.Ok() && |f.slots| == |slots| && f.r == r
    {
      if w - r == |slots| then this else Fifo(slots[w % |slots| := x], w + 1, r)
    }

    function Front(): int
      requires Ok() && r < w
    {
      slots[r % |slots|]
    }
  }

  /** The last `known` samples written are those of `file` that end before `end`. */
  ghost predicate Tail(f: Fifo, file: seq<int>, end: nat, known: nat) {
    && known <= f.w && known <= |f.slots| && known <= end <= |file|
    && forall a {:trigger a % |f.slots|} :: f.w - known <= a < f.w ==> f.slots[a % |f.slots|] == file[end - (f.w - a)]
  }

  lemma PutKeepsTail(f: Fifo, file: seq<int>, end: nat, known: nat)
    requires f.Ok() && Tail(f, file, end, known) && end < |file| && f.w - f.r < |f.slots|
    ensures Tail(f.Put(file[end]), file, end + 1, if known < |f.slots| then known + 1 else known)
  {
    var b := |f.slots|;
    var g := f.Put(file[end]);
    var more := if known < b then known + 1 else known;
    forall a | g.w - more <= a < g.w
      ensures g.slots[a % b] == file[end + 1 - (g.w - a)]
    {
      if a < f.w {
        SlotsDiffer(a, f.w, b);
        assert f.slots[a % b] == file[end - (f.w - a)];
      }
    }
  }

  lemma FrontIsTail(f: Fifo, file: seq<int>, end: nat, known: nat)
    requires f.Ok() && Tail(f, file, end, known) && 1 <= f.w - f.r <= known
    ensures f.Front() == file[end - (f.w - f.r)]
  {
  }

  // ----- The stream -----

  /** What the WAV reader knows of a file: samples are interleaved. */
  datatype Wav = Wav(total: nat, channels: nat, blockAlign: nat, samples: seq<int>) {
    ghost predicate Ok() {
      && channels <= 2 && |samples| == SampleAt(total, channels) < TWO32
      && 1 <= blockAlign <= READ_BLOCK_BYTES && channels <= blockAlign
    }
  }

  /** What the stream's users do: the reading thread reads and seeks, the audio thread pops and resets. */
  datatype Call = Read(frames: int) | Pop | Reset(frame: nat) | Seek(frame: nat)

  /** Whether a reset's seek is still to come, and for which frame. */
  datatype Asked = Nothing | Frame(frame: nat)

  function AskedAfter(calls: seq<Call>): Asked {
    if calls == [] then Nothing
    else
      match calls[|calls| - 1]
      case Reset(f) => Frame(f)
      case Seek(_) => Nothing
      case _ => AskedAfter(calls[..|calls| - 1])
  }

  /** A reset to a frame of the file is followed by its seek before the next read, and there is no other seek. */
  predicate Orderly(calls: seq<Call>, total: nat) {
    calls == [] ||
    var init := calls[..|calls| - 1];
    && Orderly(init, total)
    && match calls[|calls| - 1]
       case Read(_) => AskedAfter(init).Nothing?
       case Pop => true
       case Reset(f) => f <= total
       case Seek(f) => AskedAfter(init) == Frame(f)
  }

  /** The sample from which playback goes on after the calls, if it went on from `from` before. */
  function PlaysFrom(calls: seq<Call>, from: nat, channels: nat): nat {
    if calls == [] then from
    else
      match calls[|calls| - 1]
      case Reset(f) => SampleAt(f, channels)
      case _ => PlaysFrom(calls[..|calls| - 1], from, channels)
  }

  datatype LoadState = NotLoaded | Loaded | LoadedEof | FileError

  /** The index of a frame's first sample. */
  function SampleAt(frame: nat, channels: nat): nat {
    frame * channels
  }

  lemma NextSampleAt(frame: nat, channels: nat)
    ensures SampleAt(frame + 1, channels) == SampleAt(frame, channels) + channels
  {
  }

  lemma SampleAtGrows(a: nat, b: nat, channels: nat)
    requires a <= b
    ensures SampleAt(a, channels) <= SampleAt(b, channels)
    ensures SampleAt(b, channels) - SampleAt(a, channels) == SampleAt(b - a, channels)
  {
  }

  lemma WholeFrames(slots: nat, channels: nat)
    requires channels > 0
    ensures SampleAt(slots / channels, channels) <= slots
  {
  }

  /** A read of whole frames from one block of the file fits the read buffer. */
  lemma BlockFits(blockAlign: nat, channels: nat, n: nat)
    requires 1 <= blockAlign && channels <= blockAlign && n <= READ_BLOCK_BYTES / blockAlign
    ensures SampleAt(n, channels) <= READ_BLOCK_BYTES
  {
    SampleAtGrows(n, READ_BLOCK_BYTES / blockAlign, channels);
    Multiple(READ_BLOCK_BYTES / blockAlign, channels - blockAlign);
    WholeFrames(READ_BLOCK_BYTES, blockAlign);
    Distribute(READ_BLOCK_BYTES / blockAlign, channels, blockAlign);
  }

  lemma Distribute(q: nat, a: nat, b: nat)
    requires a <= b
    ensures q * a <= q * b
  {
  }

  // ----- How a read ends -----

  /** The medium fails in block `t`: the blocks before it came whole, this one is cut short, and not by the file's end.
      `want` frames are asked for, `left` are left in the file, and a block holds `block`. */
  ghost predicate FailsAt(want: nat, left: nat, block: nat, limits: nat -> nat, t: nat) {
    && SampleAt(t, block) < want && (forall u :: 0 <= u < t ==> limits(u) >= block)
    && limits(t) < Min(block, want - SampleAt(t, block)) && SampleAt(t, block) + limits(t) < left
  }

  /** It has failed exactly if there is such a block, and then the blocks before that one were added; else all that was
      wanted was added, or all that was left. */
  ghost predicate ReadEnds(want: nat, left: nat, block: nat, limits: nat -> nat, added: nat, failed: bool) {
    if failed then exists t :: FailsAt(want, left, block, limits, t) && added == SampleAt(t, block)
    else added == Min(want, left) && forall t :: !FailsAt(want, left, block, limits, t)
  }

  /** A medium that gives whole blocks never fails. */
  lemma WholeBlocksSuffice(want: nat, left: nat, block: nat, limits: nat -> nat, added: nat, failed: bool)
    requires ReadEnds(want, left, block, limits, added, failed) && forall t :: limits(t) >= block
    ensures !failed && added == Min(want, left)
  {
  }

  /** After `turn` whole blocks more is wanted. */
  ghost predicate ReadGoesOn(want: nat, left: nat, block: nat, limits: nat -> nat, turn: nat, added: nat) {
    added == SampleAt(turn, block) && added < want && added <= left && forall u :: 0 <= u < turn ==> limits(u) >= block
  }

  lemma NothingWanted(want: nat, left: nat, block: nat, limits: nat -> nat)
    ensures want == 0 ==> ReadEnds(want, left, block, limits, 0, false)
    ensures want > 0 ==> ReadGoesOn(want, left, block, limits, 0, 0)
  {
  }

  /** One more block: asked for `n`, given `k`. */
  lemma ReadTurn(want: nat, left: nat, block: nat, limits: nat -> nat, turn: nat, added: nat, n: nat, k: nat)
    requires ReadGoesOn(want, left, block, limits, turn, added) && block >= 1
    requires n == Min(block, want - added) && k == Min(Min(n, limits(turn)), left - added)
    ensures added + k == left ==> left <= want && ReadEnds(want, left, block, limits, left, false)
    ensures added + k != left && k < n ==> ReadEnds(want, left, block, limits, added, true)
    ensures added + k != left && k == n && added + k == want ==> ReadEnds(want, left, block, limits, want, false)
    ensures added + k != left && k == n && added + k != want ==>
      ReadGoesOn(want, left, block, limits, turn + 1, added + k)
  {
    NextSampleAt(turn, block);
    if added + k == left || (k == n && added + k == want) {
      forall t: nat
        ensures !FailsAt(want, left, block, limits, t)
      {
        if t > turn {
          SampleAtGrows(turn + 1, t, block);
        }
      }
    } else if k < n {
      assert FailsAt(want, left, block, limits, turn);
    }
  }

  function Want(numFrames: int, room: nat): nat {
    Min(if numFrames > 0 then numFrames else 0, room)
  }

  /** Between blocks: `added` frames so far, `remaining` still to be asked for. */
  ghost predicate Midway(numFrames: int, room: nat, left: nat, block: nat, limits: nat -> nat,
                         remaining: int, turn: nat, added: nat, state: LoadState) {
    var want := Want(numFrames, room);
    && added <= room && (turn == 0 ==> remaining == numFrames)
    && (state == Loaded && remaining > 0 ==>
          && remaining == numFrames - added
          && if added < room then ReadGoesOn(want, left, block, limits, turn, added)
             else ReadEnds(want, left, block, limits, added, false))
    && (state != Loaded || remaining <= 0 ==> ReadEnds(want, left, block, limits, added, state == FileError))
    && (state == Loaded && want > 0 && turn > 0 ==> added != left)
    && (state == LoadedEof ==> want > 0 && added == left)
  }

  lemma MidwayBegins(numFrames: int, room: nat, left: nat, block: nat, limits: nat -> nat)
    ensures Midway(numFrames, room, left, block, limits, numFrames, 0, 0, Loaded)
  {
    NothingWanted(Want(numFrames, room), left, block, limits);
  }

  /** The loop's body does this to the numbers. */
  ghost predicate BlockRead(room: nat, left: nat, block: nat, limit: nat, remaining: nat, added: nat,
                            remaining': int, added': nat, state: LoadState) {
    if room <= added then remaining' == 0 && added' == added && state == Loaded
    else
      var n := Min(block, Min(remaining, room - added));
      added <= left && var k := Min(Min(n, limit), left - added);
      && state == (if added + k == left then LoadedEof else if k < n then FileError else Loaded)
      && added' == (if state == FileError then added else added + k)
      && remaining' == (if state == Loaded && n == block && n <= room - added then remaining - n else 0)
  }

  lemma MidwayTurn(numFrames: int, room: nat, left: nat, block: nat, limits: nat -> nat, remaining: nat, turn: nat,
                   added: nat, remaining': int, added': nat, state: LoadState)
    requires Midway(numFrames, room, left, block, limits, remaining, turn, added, Loaded) && remaining > 0 && block > 0
    requires BlockRead(room, left, block, limits(turn), remaining, added, remaining', added', state)
    ensures Midway(numFrames, room, left, block, limits, remaining', turn + 1, added', state)
  {
    hide ReadEnds, ReadGoesOn;
    if added < room {
      var want := Want(numFrames, room);
      var n := Min(block, Min(remaining, room - added));
      GoesOnBelow(want, left, block, limits, turn, added);
      ReadTurn(want, left, block, limits, turn, added, n, Min(Min(n, limits(turn)), left - added));
    }
  }

  lemma GoesOnBelow(want: nat, left: nat, block: nat, limits: nat -> nat, turn: nat, added: nat)
    requires ReadGoesOn(want, left, block, limits, turn, added)
    ensures added < want && added <= left
  {
  }

  lemma MidwayEnds(numFrames: int, room: nat, left: nat, block: nat, limits: nat -> nat, remaining: int, turn: nat,
                   added: nat, state: LoadState)
    requires Midway(numFrames, room, left, block, limits, remaining, turn, added, state) && state != NotLoaded
    requires state != Loaded || remaining <= 0
    ensures var want := Want(numFrames, room);
            && ReadEnds(want, left, block, limits, added, state == FileError)
            && (state != FileError ==> state == if want > 0 && added == left then LoadedEof else Loaded)
  {
    hide ReadEnds, ReadGoesOn;
  }

  // ----- What calls do to the stream if the medium gives whole blocks -----

  /** Where the buffer ends, where the file is read next, how many frames are counted as buffered, how many samples are
      waiting, and the state. */
  datatype Flow = Flow(next: nat, cursor: nat, buffered: nat, filled: nat, state: LoadState) {
    predicate Hit(f: nat) {
      buffered > 0 && next - buffered <= f < next
    }
  }

  /** A buffer of so many sample slots, for a file of so many frames. */
  datatype Sizes = Sizes(slots: nat, channels: nat, total: nat) {
    function Frames(): nat {
      slots / if channels >= 2 then 2 else 1
    }

    /** The whole frames that fit beside the samples waiting. */
    function Room(filled: nat): nat {
      if channels > 0 && filled <= slots then (slots - filled) / channels else 0
    }
  }

  function FlowAfter(z: Sizes, fl: Flow, call: Call): Flow {
    match call
    case Read(n) =>
      if fl.state != Loaded || z.channels == 0 then fl
      else
        var want, left := Want(n, z.Room(fl.filled)), if fl.cursor <= z.total then z.total - fl.cursor else 0;
        var added := Min(want, left);
        Flow(fl.next + added, fl.cursor + added, Min(fl.buffered + added, z.Frames()),
             fl.filled + SampleAt(added, z.channels), if want > 0 && added == left then LoadedEof else Loaded)
    case Pop => if fl.filled == 0 then fl else fl.(filled := fl.filled - 1)
    case Reset(f) =>
      if fl.Hit(f) then fl.(filled := SampleAt(fl.next - f, z.channels)) else fl.(next := 0, buffered := 0, filled := 0)
    case Seek(f) =>
      if fl.Hit(f) then fl
      else fl.(next := f, cursor := Min(f, z.total), state := if fl.state == LoadedEof then Loaded else fl.state)
  }

  function FlowAfterAll(z: Sizes, fl: Flow, calls: seq<Call>): Flow {
    if calls == [] then fl else FlowAfter(z, FlowAfterAll(z, fl, calls[..|calls| - 1]), calls[|calls| - 1])
  }

  /** The medium never fails. */
  lemma {:induction false} FlowNeverFails(z: Sizes, fl: Flow, calls: seq<Call>)
    requires fl.state != FileError
    ensures FlowAfterAll(z, fl, calls).state != FileError
    decreases |calls|
  {
    if calls != [] {
      FlowNeverFails(z, fl, calls[..|calls| - 1]);
    }
  }

  lemma FlowStep(z: Sizes, fl: Flow, calls: seq<Call>, k: nat)
    requires k < |calls|
    ensures FlowAfterAll(z, fl, calls[..k + 1]) == FlowAfter(z, FlowAfterAll(z, fl, calls[..k]), calls[k])
  {
    hide FlowAfter;
    assert calls[..k + 1][..k] == calls[..k];
  }

  lemma FailsOnlyIfShort(calls: seq<Call>, limits: nat -> nat -> nat, z: Sizes, fl: Flow, block: nat)
    ensures fl.state != FileError ==> FlowAfterAll(z, fl, calls).state != FileError
    ensures !(forall k :: 0 <= k < |calls| ==> WholeBlocks(limits(k), block)) ==>
      exists k, t :: 0 <= k < |calls| && limits(k)(t) < block
  {
    hide FlowAfterAll;
    if fl.state != FileError {
      FlowNeverFails(z, fl, calls);
    }
  }

  ghost predicate WholeBlocks(limits: nat -> nat, block: nat) {
    forall t :: limits(t) >= block
  }

  // ----- Reading and playing a file frame by frame -----

  function Pops(k: nat): seq<Call> {
    if k == 0 then [] else Pops(k - 1) + [Pop]
  }

  /** Read a frame, play its samples, `n` times. */
  function Rounds(n: nat, channels: nat): seq<Call> {
    if n == 0 then [] else Rounds(n - 1, channels) + ([Read(1)] + Pops(channels))
  }

  predicate Plain(calls: seq<Call>) {
    forall k :: 0 <= k < |calls| ==> calls[k].Read? || calls[k].Pop?
  }

  lemma {:induction false} PlainIsOrderly(calls: seq<Call>, total: nat, from: nat, channels: nat)
    requires Plain(calls)
    ensures Orderly(calls, total) && AskedAfter(calls) == Nothing && PlaysFrom(calls, from, channels) == from
    decreases |calls|
  {
    if calls != [] {
      PlainIsOrderly(calls[..|calls| - 1], total, from, channels);
    }
  }

  lemma {:induction false} RoundsArePlain(n: nat, channels: nat)
    ensures Plain(Pops(channels)) && Plain(Rounds(n, channels))
    decreases n, channels
  {
    if n > 0 {
      RoundsArePlain(n - 1, channels);
    } else if channels > 0 {
      RoundsArePlain(0, channels - 1);
    }
  }

  lemma {:induction false} FlowConcat(z: Sizes, fl: Flow, a: seq<Call>, b: seq<Call>)
    ensures FlowAfterAll(z, fl, a + b) == FlowAfterAll(z, FlowAfterAll(z, fl, a), b)
    decreases |b|
  {
    hide FlowAfter;
    if b == [] {
      assert a + b == a;
    } else {
      assert (a + b)[..|a + b| - 1] == a + b[..|b| - 1];
      FlowConcat(z, fl, a, b[..|b| - 1]);
    }
  }

  lemma {:induction false} PopsDrain(z: Sizes, fl: Flow, k: nat)
    requires k <= fl.filled
    ensures FlowAfterAll(z, fl, Pops(k)) == fl.(filled := fl.filled - k)
    decreases k
  {
    if k > 0 {
      PopsDrain(z, fl, k - 1);
      assert Pops(k)[..k - 1] == Pops(k - 1) by {
        PopsSize(k - 1);
      }
      PopsSize(k);
    }
  }

  lemma {:induction false} PopsSize(k: nat)
    ensures |Pops(k)| == k
    decreases k
  {
    if k > 0 {
      PopsSize(k - 1);
    }
  }

  /** One frame is read, and there is room for it. */
  lemma ReadOne(z: Sizes, fl: Flow)
    requires 1 <= z.channels <= z.slots && fl.filled == 0 && fl.state == Loaded && fl.cursor < z.total
    ensures FlowAfter(z, fl, Read(1))
         == Flow(fl.next + 1, fl.cursor + 1, Min(fl.buffered + 1, z.Frames()), z.channels,
                 if fl.cursor + 1 == z.total then LoadedEof else Loaded)
  {
    assert z.Room(0) >= 1 by {
      Quotient(z.slots, z.channels, z.slots / z.channels, z.slots % z.channels);
      Multiple(z.channels, z.slots / z.channels);
    }
    NextSampleAt(0, z.channels);
  }

  lemma {:induction false} RoundsPlay(z: Sizes, n: nat)
    requires 1 <= z.channels <= z.slots && n <= z.total
    ensures var fl := FlowAfterAll(z, Flow(0, 0, 0, 0, Loaded), Rounds(n, z.channels));
            && fl.next == fl.cursor == n && fl.filled == 0
            && fl.state == if n == z.total && n > 0 then LoadedEof else Loaded
    decreases n
  {
    if n > 0 {
      RoundsPlay(z, n - 1);
      var fl := FlowAfterAll(z, Flow(0, 0, 0, 0, Loaded), Rounds(n - 1, z.channels));
      ReadOne(z, fl);
      FlowConcat(z, Flow(0, 0, 0, 0, Loaded), Rounds(n - 1, z.channels), [Read(1)] + Pops(z.channels));
      FlowConcat(z, fl, [Read(1)], Pops(z.channels));
      hide FlowAfter;
      assert [Read(1)][..0] == [];
      assert FlowAfterAll(z, fl, [Read(1)]) == FlowAfter(z, fl, Read(1));
      PopsDrain(z, FlowAfter(z, fl, Read(1)), z.channels);
    }
  }

  // ----- The stream itself -----

  class Stream {
    var maxSamples: nat
    var wav: Wav
    var readCursor: nat
    var state: LoadState
    var framesInBuffer: nat
    var nextFrameToWrite: nat
    var nextSampleToRead: u32
    var preBuff: Fifo
    const readBuff: array<int>

    /** How many of the last samples written are known to be the file's, and whether callers have kept to the rule
        that a missed rewind is followed by its seek before the next read, and no other seek moves the cursor. */
    ghost var known: nat
    ghost var ruled: bool

    /** What has been played since playback was last positioned, and where in the file that was. */
    ghost var start: nat
    ghost var played: seq<int>

    function BufferFrames(): nat
      reads `wav, `preBuff
    {
      |preBuff.slots| / (if wav.channels >= 2 then 2 else 1)
    }

    ghost predicate Shape()
      reads `wav, `preBuff, `state, `readCursor, `framesInBuffer
    {
      && preBuff.Ok() && readBuff.Length == READ_BLOCK_BYTES
      && (if state == NotLoaded then framesInBuffer == 0
          else wav.Ok() && readCursor <= wav.total && SampleAt(framesInBuffer, wav.channels) <= preBuff.w)
      && framesInBuffer <= BufferFrames()
    }

    /** The buffer ends where the file will next be read. */
    ghost predicate Synced()
      reads `nextFrameToWrite, `readCursor
    {
      nextFrameToWrite == readCursor
    }

    /** The buffer holds the file's samples up to frame `next`: all that it counts, and all that is unread. */
    ghost predicate Window(next: nat)
      reads `preBuff, `wav, `known, `framesInBuffer
    {
      && preBuff.Ok() && Tail(preBuff, wav.samples, SampleAt(next, wav.channels), known)
      && SampleAt(framesInBuffer, wav.channels) <= known && preBuff.w - preBuff.r <= known
      && (framesInBuffer == 0 ==> known == 0)
      && framesInBuffer <= next
    }

    /** What was played is the file from where playback was positioned, and goes on with what is unread. */
    ghost predicate Placed()
      requires preBuff.Ok()
      reads `preBuff, `wav, `nextFrameToWrite, `start, `played, `state, `framesInBuffer, `readCursor
    {
      && nextFrameToWrite <= wav.total
      && start + |played| + (preBuff.w - preBuff.r) == SampleAt(nextFrameToWrite, wav.channels) <= |wav.samples|
      && played == wav.samples[start..start + |played|]
      && (state != FileError && framesInBuffer > 0 ==> Synced())
    }

    /** Window and play position agree with the file. */
    ghost predicate Faithful()
      reads this
    {
      preBuff.Ok() && Window(nextFrameToWrite) && Placed()
    }

    ghost predicate Valid()
      reads this
    {
      Shape() && (state != NotLoaded && ruled ==> Faithful())
    }

    // ----- Queries -----

    /** How many frames one block of the file holds. */
    function BlockFrames(): (n: nat)
      requires 1 <= wav.blockAlign <= READ_BLOCK_BYTES
      reads `wav
      ensures 1 <= n
    {
      READ_BLOCK_BYTES / wav.blockAlign
    }

    /** How many whole frames the buffer has room for. */
    function Room(): nat
      requires preBuff.Ok() && wav.channels > 0
      reads `preBuff, `wav
    {
      preBuff.Free() / wav.channels
    }

    function TotalFrames(): nat
      reads `state, `wav
    {
      if state == Loaded || state == LoadedEof then wav.total else 0
    }

    function FirstFrameInBuffer(): int
      reads `state, `wav, `nextFrameToWrite, `framesInBuffer
    {
      if nextFrameToWrite >= framesInBuffer then nextFrameToWrite - framesInBuffer
      else nextFrameToWrite + TotalFrames() - framesInBuffer
    }

    predicate IsFrameInBuffer(f: nat)
      reads `state, `wav, `nextFrameToWrite, `framesInBuffer
    {
      if framesInBuffer == 0 then false
      else if nextFrameToWrite >= FirstFrameInBuffer() then FirstFrameInBuffer() <= f < nextFrameToWrite
      else f < nextFrameToWrite || f >= FirstFrameInBuffer()
    }

    // ----- Loading -----

    constructor (maxSamples: nat)
      ensures Valid() && state == NotLoaded && fresh(readBuff)
    {
      this.maxSamples, state, preBuff := maxSamples, NotLoaded, Fifo([], 0, 0);
      readBuff := new int[READ_BLOCK_BYTES];
      framesInBuffer, nextFrameToWrite, nextSampleToRead, readCursor := 0, 0, 0, 0;
      wav := Wav(0, 0, 1, []);
    }

    method ResetPrebuff()
      requires Shape()
      modifies `preBuff, `nextFrameToWrite, `nextSampleToRead, `framesInBuffer, `known, `start, `played, `ruled
      ensures Shape() && preBuff == Fifo(old(preBuff.slots), 0, 0)
      ensures nextFrameToWrite == framesInBuffer == known == start == 0 && nextSampleToRead == 0 && played == []
      ensures ruled && (state != NotLoaded ==> Faithful())
    {
      preBuff := Fifo(preBuff.slots, 0, 0);
      nextFrameToWrite, nextSampleToRead, framesInBuffer := 0, 0, 0;
      known, start, played, ruled := 0, 0, [], true;
      assert state != NotLoaded ==> wav.samples[0..0] == [];
    }

    /** The buffer takes what the caller allows, and no more than the file has. */
    method Resize(maxSamples: nat) returns (resized: bool)
      requires Valid()
      modifies this
      ensures Valid() && this.maxSamples == maxSamples
      ensures wav == old(wav) && readCursor == old(readCursor) && state == old(state)
      ensures resized == (state != NotLoaded && |old(preBuff.slots)| != Min(maxSamples, |wav.samples|))
      ensures state != NotLoaded ==> |preBuff.slots| == Min(maxSamples, |wav.samples|)
      ensures resized ==> ruled && preBuff.w == preBuff.r == 0 && nextFrameToWrite == framesInBuffer == start == 0
      ensures resized ==> played == []
      ensures !resized ==> preBuff == old(preBuff) && nextFrameToWrite == old(nextFrameToWrite)
      ensures !resized ==> framesInBuffer == old(framesInBuffer) && start == old(start) && played == old(played)
      ensures !resized ==> ruled == old(ruled)
    {
      this.maxSamples := maxSamples;
      if state == NotLoaded {
        return false;
      }
      var size := Min(maxSamples, SampleAt(wav.total, wav.channels));
      if |preBuff.slots| != size {
        preBuff, framesInBuffer := Fifo(seq(size, _ => 0), 0, 0), 0;
        ResetPrebuff();
        return true;
      }
      return false;
    }

    /** A file that opens is played from its start. */
    method Load(file: Wav, ok: bool) returns (loaded: bool)
      requires Valid() && file.Ok()
      modifies this
      ensures Valid() && loaded == ok && state == if ok then Loaded else NotLoaded
      ensures loaded ==> ruled && wav == file && readCursor == nextFrameToWrite == framesInBuffer == 0
      ensures loaded ==> preBuff.w == preBuff.r == 0 && start == 0 && played == []
    {
      ResetPrebuff();
      state := NotLoaded;
      if ok {
        wav, readCursor, state := file, 0, Loaded;
        ResetPrebuff();
        var _ := Resize(maxSamples);
      }
      return ok;
    }

    // ----- Reading the file into the buffer -----

    /** The WAV reader gives `n` frames, unless the file ends or the medium fails after `limit` of them. */
    method ReadPcmFrames(n: nat, limit: nat) returns (k: nat)
      requires Shape() && state != NotLoaded && n <= BlockFrames()
      modifies `readCursor, readBuff
      ensures k == Min(Min(n, limit), wav.total - old(readCursor)) && readCursor == old(readCursor) + k
      ensures SampleAt(k, wav.channels) <= readBuff.Length
      ensures SampleAt(old(readCursor), wav.channels) + SampleAt(k, wav.channels) <= |wav.samples|
      ensures forall i :: 0 <= i < SampleAt(k, wav.channels) ==>
        readBuff[i] == wav.samples[SampleAt(old(readCursor), wav.channels) + i]
    {
      k := Min(Min(n, limit), wav.total - readCursor);
      BlockFits(wav.blockAlign, wav.channels, k);
      SampleAtGrows(readCursor, readCursor + k, wav.channels);
      SampleAtGrows(readCursor + k, wav.total, wav.channels);
      hide SampleAt;
      var from := SampleAt(readCursor, wav.channels);
      for i := 0 to SampleAt(k, wav.channels)
        invariant readCursor == old(readCursor)
        invariant forall j :: 0 <= j < i ==> readBuff[j] == wav.samples[from + j]
      {
        readBuff[i] := wav.samples[from + i];
      }
      readCursor := readCursor + k;
    }

    /** The samples at `first` in the read buffer are the file's from `end` on. */
    ghost predicate Carries(first: nat, end: nat, n: nat)
      reads `wav, readBuff
    {
      && first + n <= readBuff.Length && end + n <= |wav.samples|
      && forall i {:trigger readBuff[i]} :: first <= i < first + n ==> readBuff[i] == wav.samples[end + (i - first)]
    }

    /** One frame's samples, one at a time; each finds room. */
    method PutFrame(first: nat, ghost end: nat)
      requires preBuff.Ok() && first + wav.channels <= readBuff.Length
      requires 1 <= wav.channels <= |preBuff.slots| - (preBuff.w - preBuff.r)
      requires ruled ==> Tail(preBuff, wav.samples, end, known) && Carries(first, end, wav.channels)
      modifies `preBuff, `known
      ensures preBuff.Ok() && |preBuff.slots| == old(|preBuff.slots|)
      ensures preBuff.w == old(preBuff.w) + wav.channels && preBuff.r == old(preBuff.r)
      ensures known == Min(old(known) + wav.channels, |preBuff.slots|)
      ensures ruled ==> Tail(preBuff, wav.samples, end + wav.channels, known)
    {
      hide Tail;
      ghost var already := known;
      assert ruled ==> known <= |preBuff.slots| by {
        TailBounds(preBuff, wav.samples, end, known);
      }
      for i := 0 to wav.channels
        invariant preBuff.Ok() && |preBuff.slots| == old(|preBuff.slots|)
        invariant preBuff.w == old(preBuff.w) + i && preBuff.r == old(preBuff.r)
        invariant i > 0 ==> known == Min(already + i, |preBuff.slots|)
        invariant i == 0 ==> known == already
        invariant ruled ==> Tail(preBuff, wav.samples, end + i, known)
      {
        if ruled {
          assert readBuff[first + i] == wav.samples[end + i];
          PutKeepsTail(preBuff, wav.samples, end + i, known);
        }
        preBuff := preBuff.Put(readBuff[first + i]);
        known := Min(known + 1, |preBuff.slots|);
      }
    }

    /** Put one frame, then count it. */
    method PushFrame(first: nat)
      requires Shape() && state != NotLoaded && first + wav.channels <= readBuff.Length
      requires 1 <= wav.channels <= |preBuff.slots| - (preBuff.w - preBuff.r)
      requires ruled ==>
        Window(nextFrameToWrite) && Carries(first, SampleAt(nextFrameToWrite, wav.channels), wav.channels)
      modifies `preBuff, `nextFrameToWrite, `framesInBuffer, `known
      ensures Shape() && |preBuff.slots| == old(|preBuff.slots|)
      ensures preBuff.w == old(preBuff.w) + wav.channels && preBuff.r == old(preBuff.r)
      ensures nextFrameToWrite == old(nextFrameToWrite) + 1
      ensures framesInBuffer == Min(old(framesInBuffer) + 1, BufferFrames())
      ensures ruled ==> Window(nextFrameToWrite)
    {
      hide Tail, SampleAt, Carries;
      ghost var end := SampleAt(nextFrameToWrite, wav.channels);
      PutFrame(first, end);
      NextSampleAt(nextFrameToWrite, wav.channels);
      nextFrameToWrite := nextFrameToWrite + 1;
      NextSampleAt(framesInBuffer, wav.channels);
      WindowRoom(|preBuff.slots|, wav.channels);
      if framesInBuffer < BufferFrames() {
        SampleAtGrows(framesInBuffer + 1, BufferFrames(), wav.channels);
        framesInBuffer := framesInBuffer + 1;
      }
    }

    /** Put the frames that were read. */
    method PushFrames(k: nat)
      requires Shape() && state != NotLoaded && 1 <= wav.channels
      requires SampleAt(k, wav.channels) <= readBuff.Length
      requires SampleAt(k, wav.channels) <= |preBuff.slots| - (preBuff.w - preBuff.r)
      requires ruled ==> Window(nextFrameToWrite)
                         && Carries(0, SampleAt(nextFrameToWrite, wav.channels), SampleAt(k, wav.channels))
      modifies `preBuff, `nextFrameToWrite, `framesInBuffer, `known
      ensures Shape() && |preBuff.slots| == old(|preBuff.slots|)
      ensures preBuff.w == old(preBuff.w) + SampleAt(k, wav.channels) && preBuff.r == old(preBuff.r)
      ensures nextFrameToWrite == old(nextFrameToWrite) + k
      ensures framesInBuffer == Min(old(framesInBuffer) + k, BufferFrames())
      ensures ruled ==> Window(nextFrameToWrite)
    {
      ghost var from := nextFrameToWrite;
      var first := 0;
      for m := 0 to k
        invariant Shape() && |preBuff.slots| == old(|preBuff.slots|)
        invariant first == SampleAt(m, wav.channels)
        invariant preBuff.w == old(preBuff.w) + first && preBuff.r == old(preBuff.r)
        invariant nextFrameToWrite == from + m
        invariant framesInBuffer == Min(old(framesInBuffer) + m, BufferFrames())
        invariant ruled ==> Window(nextFrameToWrite)
      {
        hide Window, SampleAt;
        NextSampleAt(m, wav.channels);
        SampleAtGrows(m + 1, k, wav.channels);
        SampleAtGrows(from, from + m, wav.channels);
        PushFrame(first);
        first := first + wav.channels;
      }
    }

    /** The frames just read go into the buffer, which then ends at the cursor again. */
    method PushBlock(k: nat)
      requires Shape() && (state == Loaded || state == LoadedEof) && 1 <= wav.channels && k <= Room()
      requires SampleAt(k, wav.channels) <= readBuff.Length
      requires ruled ==> Window(nextFrameToWrite) && readCursor == nextFrameToWrite + k
                         && Carries(0, SampleAt(nextFrameToWrite, wav.channels), SampleAt(k, wav.channels))
                         && start + |played| + preBuff.Filled() == SampleAt(nextFrameToWrite, wav.channels)
                         && start + |played| <= |wav.samples| && played == wav.samples[start..start + |played|]
      modifies `preBuff, `nextFrameToWrite, `framesInBuffer, `known
      ensures Valid() && |preBuff.slots| == old(|preBuff.slots|) && preBuff.r == old(preBuff.r)
      ensures nextFrameToWrite == old(nextFrameToWrite) + k
      ensures preBuff.w == old(preBuff.w) + SampleAt(k, wav.channels)
      ensures Room() == old(Room()) - k
      ensures framesInBuffer == Min(old(framesInBuffer) + k, BufferFrames())
    {
      hide SampleAt, Window;
      WholeFrames(preBuff.Free(), wav.channels);
      SampleAtGrows(k, Room(), wav.channels);
      RoomShrinks(preBuff.Free(), wav.channels, k);
      SampleAtGrows(nextFrameToWrite, nextFrameToWrite + k, wav.channels);
      PushFrames(k);
      if ruled {
        SampleAtGrows(nextFrameToWrite, wav.total, wav.channels);
      }
    }

    /** One turn of the reading loop: a block that is cut short is an error unless the file has ended. */
    method ReadBlock(n: nat, limit: nat) returns (k: nat)
      requires Valid() && state == Loaded && 1 <= wav.channels && (ruled ==> Synced())
      requires 1 <= n <= BlockFrames()
      requires n <= Room()
      modifies `preBuff, `nextFrameToWrite, `framesInBuffer, `known, `readCursor, `state, readBuff
      ensures Valid() && |preBuff.slots| == old(|preBuff.slots|) && preBuff.r == old(preBuff.r)
      ensures k == Min(Min(n, limit), wav.total - old(readCursor)) && readCursor == old(readCursor) + k
      ensures state == if readCursor == wav.total then LoadedEof else if k < n then FileError else Loaded
      ensures nextFrameToWrite == old(nextFrameToWrite) + (if state.FileError? then 0 else k)
      ensures preBuff.w == old(preBuff.w) + SampleAt(nextFrameToWrite - old(nextFrameToWrite), wav.channels)
      ensures ruled && !state.FileError? ==> Synced()
      ensures Room() == old(Room()) - (nextFrameToWrite - old(nextFrameToWrite))
      ensures framesInBuffer == Min(old(framesInBuffer) + (nextFrameToWrite - old(nextFrameToWrite)), BufferFrames())
    {
      k := ReadPcmFrames(n, limit);
      if readCursor == wav.total {
        state := LoadedEof;
      } else if k < n {
        state := FileError;
        return;
      }
      hide SampleAt, Window, Placed;
      PushBlock(k);
    }

    /** `read_frames_from_file`: blocks are read until the request is met, the buffer is full, the file ends or the
        medium fails (after `limits` says), and then the state tells which.  Nothing already in the buffer is lost, and
        every sample read is put. */
    method ReadFramesFromFile(numFrames: int, limits: nat -> nat)
      requires Valid()
      modifies `preBuff, `nextFrameToWrite, `framesInBuffer, `known, `readCursor, `state, `ruled, readBuff
      ensures Valid() && |preBuff.slots| == old(|preBuff.slots|) && preBuff.r == old(preBuff.r)
      ensures old(Synced()) || old(state) != Loaded ==> ruled == old(ruled)
      ensures old(state) == Loaded && wav.channels > 0 && ruled && state != FileError ==> Synced()
      ensures old(state) == Loaded ==> state != NotLoaded
      ensures nextFrameToWrite >= old(nextFrameToWrite)
      ensures preBuff.w == old(preBuff.w) + SampleAt(nextFrameToWrite - old(nextFrameToWrite), wav.channels)
      ensures old(state) != Loaded || wav.channels == 0 ==>
        && state == old(state) && preBuff == old(preBuff) && readCursor == old(readCursor)
        && nextFrameToWrite == old(nextFrameToWrite) && framesInBuffer == old(framesInBuffer)
      ensures old(state) == Loaded && wav.channels > 0 ==>
        var want, left := Want(numFrames, old(Room())), wav.total - old(readCursor);
        var added := nextFrameToWrite - old(nextFrameToWrite);
        && ReadEnds(want, left, BlockFrames(), limits, added, state == FileError)
        && (state != FileError ==> readCursor == old(readCursor) + added)
        && (state != FileError ==> state == if want > 0 && added == left then LoadedEof else Loaded)
        && framesInBuffer == Min(old(framesInBuffer) + added, BufferFrames())
    {
      hide ReadEnds, Midway, BlockRead, Window, Placed, SampleAt, Room, BlockFrames, Tail;
      if state != Loaded || wav.channels == 0 {
        NothingMore(nextFrameToWrite, wav.channels);
        return;
      }
      ghost var room, left, block := Room(), wav.total - readCursor, BlockFrames();
      ghost var from, cursor := nextFrameToWrite, readCursor;
      NothingMore(from, wav.channels);
      MidwayBegins(numFrames, room, left, block, limits);
      ruled := ruled && Synced();
      var remaining, turn: nat := numFrames, 0;
      while remaining > 0 && state == Loaded
        invariant Valid() && state != NotLoaded
        invariant |preBuff.slots| == old(|preBuff.slots|) && preBuff.r == old(preBuff.r)
        invariant ruled && state != FileError ==> Synced()
        invariant old(Synced()) ==> ruled == old(ruled)
        invariant nextFrameToWrite >= from && Room() == room - (nextFrameToWrite - from)
        invariant preBuff.w == old(preBuff.w) + SampleAt(nextFrameToWrite - from, wav.channels)
        invariant framesInBuffer == Min(old(framesInBuffer) + (nextFrameToWrite - from), BufferFrames())
        invariant state != FileError ==> readCursor == cursor + (nextFrameToWrite - from)
        invariant Midway(numFrames, room, left, block, limits, remaining, turn, nextFrameToWrite - from, state)
        decreases remaining
      {
        ghost var added: nat, asked := nextFrameToWrite - from, remaining;
        remaining := ReadSome(remaining, limits(turn), room, left, added);
        MidwayTurn(numFrames, room, left, block, limits, asked, turn, added, remaining, nextFrameToWrite - from, state);
        SampleAtGrows(added, nextFrameToWrite - from, wav.channels);
        turn := turn + 1;
      }
      MidwayEnds(numFrames, room, left, block, limits, remaining, turn, nextFrameToWrite - from, state);
    }

    lemma NothingMore(from: nat, channels: nat)
      ensures SampleAt(from - from, channels) == 0
    {
    }

    /** The loop's body: at most one block, at most what the buffer has room for; then the reading ends. */
    method ReadSome(remaining: nat, limit: nat, ghost room: nat, ghost inFile: nat, ghost added: nat)
      returns (left: nat)
      requires preBuff.Ok() && wav.channels > 0 && Room() == room - added && wav.total - readCursor == inFile - added
      requires Valid() && state == Loaded && wav.channels > 0 && (ruled ==> Synced()) && remaining > 0
      modifies `preBuff, `nextFrameToWrite, `framesInBuffer, `known, `readCursor, `state, readBuff
      ensures Valid() && state != NotLoaded && |preBuff.slots| == old(|preBuff.slots|) && preBuff.r == old(preBuff.r)
      ensures ruled && state != FileError ==> Synced()
      ensures nextFrameToWrite >= old(nextFrameToWrite) && left < remaining
      ensures preBuff.w == old(preBuff.w) + SampleAt(nextFrameToWrite - old(nextFrameToWrite), wav.channels)
      ensures BlockRead(room, inFile, BlockFrames(), limit, remaining, added,
                        left, added + nextFrameToWrite - old(nextFrameToWrite), state)
      ensures nextFrameToWrite == old(nextFrameToWrite) + if state == FileError then 0 else readCursor - old(readCursor)
      ensures Room() == old(Room()) - (nextFrameToWrite - old(nextFrameToWrite))
      ensures framesInBuffer == Min(old(framesInBuffer) + (nextFrameToWrite - old(nextFrameToWrite)), BufferFrames())
    {
      hide Window, Placed, Room, BlockFrames;
      var n := Min(BlockFrames(), remaining);
      left := remaining;
      var free := Room();
      if free == 0 {
        return 0;
      }
      if free < n {
        n, left := free, free;
      }
      var k := ReadBlock(n, limit);
      left := if state == Loaded then left - k else 0;
    }

    // ----- Playing and positioning -----

    /** `pop_sample`: the next sample of the file, as a fraction of full scale, or 0 if nothing is buffered. */
    method PopSample() returns (v: real)
      requires Valid()
      modifies `preBuff, `nextSampleToRead, `played
      ensures Valid() && preBuff.slots == old(preBuff.slots) && preBuff.w == old(preBuff.w)
      ensures old(preBuff.Filled()) == 0 ==> v == 0.0 && preBuff == old(preBuff) && played == old(played)
      ensures old(preBuff.Filled()) > 0 ==> |played| == |old(played)| + 1 && old(played) <= played
      ensures old(preBuff.Filled()) > 0 ==> v == played[|old(played)|] as real / 32768.0
      ensures old(preBuff.Filled()) > 0 ==> nextSampleToRead == Wrap32(old(nextSampleToRead) + 1)
      ensures old(preBuff.Filled()) > 0 && state != NotLoaded && ruled ==>
        start + |old(played)| < |wav.samples| && played == old(played) + [wav.samples[start + |old(played)|]]
    {
      hide Tail, SampleAt;
      if preBuff.Filled() == 0 {
        return 0.0;
      }
      if state != NotLoaded && ruled {
        FrontIsTail(preBuff, wav.samples, SampleAt(nextFrameToWrite, wav.channels), known);
      }
      var p := preBuff.Front();
      preBuff := preBuff.(r := preBuff.r + 1);
      nextSampleToRead := Wrap32(nextSampleToRead + 1);
      played := played + [p];
      v := -(p as real / -32768.0);
      if state != NotLoaded && ruled {
        TailOf(old(preBuff), preBuff, wav.samples, SampleAt(nextFrameToWrite, wav.channels), known);
      }
    }

    /** `reset_playback_to_frame`: a frame in the buffer is rewound to, any other empties the buffer. */
    method ResetPlaybackToFrame(f: nat)
      requires Valid() && !(IsFrameInBuffer(f) && f >= nextFrameToWrite)
      modifies `preBuff, `nextFrameToWrite, `nextSampleToRead, `framesInBuffer, `known, `start, `played, `ruled
      ensures Valid() && nextSampleToRead == Wrap32(SampleAt(f, wav.channels)) && played == []
      ensures old(IsFrameInBuffer(f)) ==>
        && start == SampleAt(f, wav.channels) && ruled == old(ruled)
        && nextFrameToWrite == old(nextFrameToWrite) && framesInBuffer == old(framesInBuffer)
        && preBuff == old(preBuff).(r := old(preBuff.w) - SampleAt(old(nextFrameToWrite) - f, wav.channels))
      ensures !old(IsFrameInBuffer(f)) ==>
        ruled && preBuff == Fifo(old(preBuff.slots), 0, 0) && nextFrameToWrite == framesInBuffer == 0
    {
      hide Tail, SampleAt;
      if IsFrameInBuffer(f) {
        SampleAtGrows(nextFrameToWrite - f, framesInBuffer, wav.channels);
        SampleAtGrows(f, nextFrameToWrite, wav.channels);
        WindowRoom(|preBuff.slots|, wav.channels);
        SampleAtGrows(framesInBuffer, BufferFrames(), wav.channels);
        ghost var was := preBuff;
        preBuff := preBuff.(r := preBuff.w - SampleAt(nextFrameToWrite - f, wav.channels));
        start, played := SampleAt(f, wav.channels), [];
        if ruled {
          TailOf(was, preBuff, wav.samples, SampleAt(nextFrameToWrite, wav.channels), known);
        }
      } else {
        ResetPrebuff();
      }
      nextSampleToRead := Wrap32(SampleAt(f, wav.channels));
    }

    /** An empty buffer may as well end anywhere in the file. */
    lemma EmptyWindow(f: nat)
      requires framesInBuffer == 0 && preBuff.Ok() && known == 0 && preBuff.w == preBuff.r
      requires f <= wav.total && wav.Ok()
      ensures Window(f) && SampleAt(f, wav.channels) <= |wav.samples|
    {
      SampleAtGrows(f, wav.total, wav.channels);
    }

    lemma NothingWaits()
      requires Window(nextFrameToWrite) && framesInBuffer == 0
      ensures known == 0 && preBuff.w == preBuff.r
    {
    }

    /** `seek_frame_in_file`: unless the frame is in the buffer, the file is next read from it.  That breaks the rule
        if frames are buffered, except where the cursor already was. */
    method SeekFrameInFile(f: nat)
      requires Valid() && state != NotLoaded
      modifies `readCursor, `nextFrameToWrite, `state, `start, `played, `ruled
      ensures Valid()
      ensures old(IsFrameInBuffer(f)) ==>
        nextFrameToWrite == old(nextFrameToWrite) && readCursor == old(readCursor) && state == old(state)
        && ruled == old(ruled) && start == old(start) && played == old(played)
      ensures !old(IsFrameInBuffer(f)) ==>
        nextFrameToWrite == f && readCursor == Min(f, wav.total)
        && state == (if old(state).LoadedEof? then Loaded else old(state))
        && ruled == (old(ruled) && f <= wav.total
                     && (framesInBuffer == 0 || f == old(nextFrameToWrite) == old(readCursor)))
      ensures !old(IsFrameInBuffer(f)) && framesInBuffer == 0 ==> start == SampleAt(f, wav.channels) && played == []
    {
      hide SampleAt, Window;
      if ruled && framesInBuffer == 0 {
        NothingWaits();
      }
      if !IsFrameInBuffer(f) {
        ruled := ruled && f <= wav.total && (framesInBuffer == 0 || f == nextFrameToWrite == readCursor);
        readCursor := Min(f, wav.total);
        nextFrameToWrite := f;
        if state == LoadedEof {
          state := Loaded;
        }
        if framesInBuffer == 0 {
          start, played := SampleAt(f, wav.channels), [];
          if ruled {
            EmptyWindow(f);
          }
        }
      }
    }

    /** Loaded, the rule kept, and no seek outstanding. */
    ghost predicate Steady()
      reads this
    {
      Valid() && state != NotLoaded && ruled && (state == Loaded ==> Synced())
    }

    /** Between a reset to `f` and its seek: either the frame is buffered and playback goes on from it, or the buffer is
        empty and nothing has been played since. */
    ghost predicate Awaiting(f: nat)
      reads this
    {
      Valid() && state != NotLoaded && ruled && f <= wav.total
      && if IsFrameInBuffer(f) then Steady() && start == SampleAt(f, wav.channels)
         else framesInBuffer == 0 && played == []
    }

    /** Playback goes on from sample `from`, with nothing or one seek asked for. */
    ghost predicate Placeable(asked: Asked, from: nat)
      reads this
    {
      match asked
      case Nothing => Steady() && start == from
      case Frame(f) => Awaiting(f) && from == SampleAt(f, wav.channels)
    }

    function SizesNow(): Sizes
      reads `preBuff, `wav
    {
      Sizes(|preBuff.slots|, wav.channels, wav.total)
    }

    function FlowNow(): Flow
      requires preBuff.Ok()
      reads `nextFrameToWrite, `readCursor, `framesInBuffer, `preBuff, `state
    {
      Flow(nextFrameToWrite, readCursor, framesInBuffer, preBuff.Filled(), state)
    }

    method ReadCall(frames: int, limits: nat -> nat)
      requires Steady()
      modifies `preBuff, `nextFrameToWrite, `framesInBuffer, `known, `readCursor, `state, `ruled, readBuff
      ensures Steady() && SizesNow() == old(SizesNow())
      ensures WholeBlocks(limits, BlockFrames()) ==> FlowNow() == FlowAfter(SizesNow(), old(FlowNow()), Read(frames))
    {
      hide Faithful, ReadEnds, BlockFrames, SampleAt, Window, Placed;
      ghost var room := if wav.channels > 0 then Room() else 0;
      ghost var was := nextFrameToWrite;
      ghost var left := wav.total - readCursor;
      NothingMore(was, wav.channels);
      ReadFramesFromFile(frames, limits);
      if WholeBlocks(limits, BlockFrames()) && old(state) == Loaded && wav.channels > 0 {
        WholeBlocksSuffice(Want(frames, room), left, BlockFrames(), limits, nextFrameToWrite - was, state == FileError);
      }
    }

    method PopCall(ghost asked: Asked, ghost from: nat)
      requires Placeable(asked, from)
      modifies `preBuff, `nextSampleToRead, `played
      ensures Placeable(asked, from) && old(played) <= played && SizesNow() == old(SizesNow())
      ensures FlowNow() == FlowAfter(SizesNow(), old(FlowNow()), Pop)
    {
      var _ := PopSample();
    }

    /** While the rule is kept, the window never wraps. */
    lemma HitIsInBuffer(f: nat)
      requires Valid() && state != NotLoaded && ruled
      ensures FlowNow().Hit(f) <==> IsFrameInBuffer(f)
      ensures IsFrameInBuffer(f) ==> f < nextFrameToWrite
    {
      hide SampleAt;
    }

    method ResetCall(f: nat)
      requires Valid() && state != NotLoaded && ruled && f <= wav.total
      modifies `preBuff, `nextFrameToWrite, `nextSampleToRead, `framesInBuffer, `known, `start, `played, `ruled
      ensures Awaiting(f) && SizesNow() == old(SizesNow())
      ensures FlowNow() == FlowAfter(SizesNow(), old(FlowNow()), Reset(f))
    {
      hide SampleAt;
      HitIsInBuffer(f);
      ResetPlaybackToFrame(f);
    }

    method SeekCall(f: nat)
      requires Awaiting(f)
      modifies `readCursor, `nextFrameToWrite, `state, `start, `played, `ruled
      ensures Steady() && start == SampleAt(f, wav.channels)
      ensures FlowNow() == FlowAfter(SizesNow(), old(FlowNow()), Seek(f))
    {
      HitIsInBuffer(f);
      SeekFrameInFile(f);
    }

    method Serve(call: Call, limits: nat -> nat, ghost calls: seq<Call>, ghost from: nat)
      requires Orderly(calls + [call], wav.total)
      requires Placeable(AskedAfter(calls), PlaysFrom(calls, from, wav.channels))
      modifies `preBuff, `nextFrameToWrite, `nextSampleToRead, `framesInBuffer, `known, `readCursor, `state, `start,
               `played, `ruled, readBuff
      ensures Placeable(AskedAfter(calls + [call]), PlaysFrom(calls + [call], from, wav.channels))
      ensures call.Read? || call.Pop? ==> old(played) <= played
      ensures SizesNow() == old(SizesNow())
      ensures old(preBuff.Ok()) && preBuff.Ok() && 1 <= wav.blockAlign <= READ_BLOCK_BYTES
      ensures WholeBlocks(limits, BlockFrames()) ==> FlowNow() == FlowAfter(SizesNow(), old(FlowNow()), call)
    {
      hide Valid, SampleAt, Orderly, FlowAfter, WholeBlocks, BlockFrames;
      OrderlyLast(calls, call, wav.total);
      PlaceableIsValid(AskedAfter(calls), PlaysFrom(calls, from, wav.channels));
      match call {
        case Read(frames) => ReadCall(frames, limits);
        case Pop => PopCall(AskedAfter(calls), PlaysFrom(calls, from, wav.channels));
        case Reset(f) => ResetCall(f);
        case Seek(f) => SeekCall(f);
      }
      PlaceableIsValid(AskedAfter(calls + [call]), PlaysFrom(calls + [call], from, wav.channels));
    }

    lemma PlaceableIsValid(asked: Asked, from: nat)
      requires Placeable(asked, from)
      ensures Valid() && state != NotLoaded && ruled && preBuff.Ok() && 1 <= wav.blockAlign <= READ_BLOCK_BYTES
    {
    }

    lemma PlaceableIsPlayed(asked: Asked, from: nat)
      requires Placeable(asked, from)
      ensures from + |played| <= |wav.samples| && played == wav.samples[from..from + |played|]
      ensures asked.Nothing? ==>
        preBuff.r <= preBuff.w && from + |played| + (preBuff.w - preBuff.r) == SampleAt(nextFrameToWrite, wav.channels)
    {
      if asked.Frame? {
        SampleAtGrows(asked.frame, wav.total, wav.channels);
      }
    }

    /** Any interleaving of whole reads, pops, resets and seeks, each reset with its seek before the next read, plays
        the file on from where playback was last positioned, whether that was in the buffer or not: what the pops
        returned since then is a contiguous piece of the file from there.  What has been read but not played is still
        waiting. */
    method Play(calls: seq<Call>, limits: nat -> nat -> nat)
      requires Steady() && Orderly(calls, wav.total)
      modifies `preBuff, `nextFrameToWrite, `nextSampleToRead, `framesInBuffer, `known, `readCursor, `state, `start,
               `played, `ruled, readBuff
      ensures var from := PlaysFrom(calls, old(start), wav.channels);
              from + |played| <= |wav.samples| && played == wav.samples[from..from + |played|]
      ensures AskedAfter(calls).Nothing? ==>
        && Steady() && start == PlaysFrom(calls, old(start), wav.channels)
        && start + |played| + (preBuff.w - preBuff.r) == SampleAt(nextFrameToWrite, wav.channels)
      ensures (forall c :: c in calls ==> c.Read? || c.Pop?) ==> old(played) <= played
      ensures old(preBuff.Ok()) && preBuff.Ok() && 1 <= wav.blockAlign <= READ_BLOCK_BYTES
      ensures SizesNow() == old(SizesNow())
      ensures (forall k :: 0 <= k < |calls| ==> WholeBlocks(limits(k), BlockFrames())) ==>
        FlowNow() == FlowAfterAll(SizesNow(), old(FlowNow()), calls)
      ensures state == FileError ==>
        old(state) == FileError || exists k, t :: 0 <= k < |calls| && limits(k)(t) < BlockFrames()
    {
      hide Placeable, AskedAfter, PlaysFrom, Orderly, FlowAfterAll, FlowAfter, FlowNow, SizesNow, BlockFrames, Steady,
           WholeBlocks;
      ghost var z, from := SizesNow(), start;
      SteadyIsPlaceable();
      ghost var fl := FlowNow();
      OrderlyPrefix(calls, 0, wav.total);
      NoCallsYet(calls, z, fl, from);
      for k := 0 to |calls|
        invariant Orderly(calls[..k], wav.total) && SizesNow() == z
        invariant preBuff.Ok() && 1 <= wav.blockAlign <= READ_BLOCK_BYTES
        invariant Placeable(AskedAfter(calls[..k]), PlaysFrom(calls[..k], from, wav.channels))
        invariant (forall c :: c in calls[..k] ==> c.Read? || c.Pop?) ==> old(played) <= played
        invariant (forall j :: 0 <= j < k ==> WholeBlocks(limits(j), BlockFrames())) ==>
          FlowNow() == FlowAfterAll(z, fl, calls[..k])
      {
        assert calls[..k + 1] == calls[..k] + [calls[k]];
        OrderlyPrefix(calls, k + 1, wav.total);
        Serve(calls[k], limits(k), calls[..k], from);
        FlowStep(z, fl, calls, k);
      }
      assert calls[..|calls|] == calls;
      PlaceableIsPlayed(AskedAfter(calls), PlaysFrom(calls, from, wav.channels));
      PlaceableIsSteady(AskedAfter(calls), PlaysFrom(calls, from, wav.channels));
      FailsOnlyIfShort(calls, limits, z, fl, BlockFrames());
    }

    lemma SteadyIsPlaceable()
      requires Steady()
      ensures preBuff.Ok() && 1 <= wav.blockAlign <= READ_BLOCK_BYTES && FlowNow().state == state
      ensures Placeable(Nothing, start)
    {
    }

    lemma PlaceableIsSteady(asked: Asked, from: nat)
      requires Placeable(asked, from) && preBuff.Ok()
      ensures asked.Nothing? ==> Steady() && start == from
      ensures FlowNow().state == state
    {
    }

    lemma NoCallsYet(calls: seq<Call>, z: Sizes, fl: Flow, from: nat)
      ensures calls[..0] == [] && AskedAfter(calls[..0]) == Nothing && FlowAfterAll(z, fl, calls[..0]) == fl
      ensures PlaysFrom(calls[..0], from, wav.channels) == from
    {
    }

    /** A file just loaded, read and played frame by frame from a medium that gives whole blocks, is played whole. */
    method PlayWholeFile(limits: nat -> nat -> nat)
      requires Steady() && preBuff.Ok() && FlowNow() == Flow(0, 0, 0, 0, Loaded)
      requires 1 <= wav.channels <= |preBuff.slots| && 1 <= wav.blockAlign <= READ_BLOCK_BYTES
      requires forall k :: WholeBlocks(limits(k), BlockFrames())
      modifies `preBuff, `nextFrameToWrite, `nextSampleToRead, `framesInBuffer, `known, `readCursor, `state, `start,
               `played, `ruled, readBuff
      ensures played == wav.samples && state == if wav.total > 0 then LoadedEof else Loaded
    {
      hide Steady, Orderly, AskedAfter, PlaysFrom, FlowAfterAll, Rounds, WholeBlocks, BlockFrames;
      AtTheStart();
      ghost var z := SizesNow();
      var calls := Rounds(wav.total, wav.channels);
      RoundsArePlain(wav.total, wav.channels);
      PlainIsOrderly(calls, wav.total, start, wav.channels);
      RoundsPlay(z, wav.total);
      Play(calls, limits);
      AllPlayed();
    }

    lemma AtTheStart()
      requires Steady() && preBuff.Ok() && FlowNow() == Flow(0, 0, 0, 0, Loaded)
      ensures start == 0
    {
    }

    lemma AllPlayed()
      requires Steady() && preBuff.Ok() && start == 0 && FlowNow().filled == 0 && FlowNow().next == wav.total
      ensures |played| == |wav.samples|
    {
    }

    /** While the rule is kept, the frames reported as buffered are exactly the last ones counted, and each of their
        samples is where a rewind to the frame looks for it. */
    lemma BufferedFramesAreTheFiles(f: nat)
      requires Valid() && state != NotLoaded && ruled
      ensures IsFrameInBuffer(f) <==> nextFrameToWrite - framesInBuffer <= f < nextFrameToWrite
      ensures IsFrameInBuffer(f) ==>
        var at := preBuff.w - SampleAt(nextFrameToWrite - f, wav.channels);
        && 0 <= at && SampleAt(f + 1, wav.channels) <= |wav.samples| && (wav.channels > 0 ==> |preBuff.slots| > 0)
        && forall a {:trigger a % |preBuff.slots|} :: at <= a < at + wav.channels ==>
             preBuff.slots[a % |preBuff.slots|] == wav.samples[SampleAt(f, wav.channels) + (a - at)]
    {
      if IsFrameInBuffer(f) {
        var end := SampleAt(nextFrameToWrite, wav.channels);
        SampleAtGrows(nextFrameToWrite - f, framesInBuffer, wav.channels);
        SampleAtGrows(f, nextFrameToWrite, wav.channels);
        SampleAtGrows(f + 1, wav.total, wav.channels);
        NextSampleAt(f, wav.channels);
        NextSampleAt(nextFrameToWrite - f - 1, wav.channels);
        hide SampleAt;
        var at := preBuff.w - SampleAt(nextFrameToWrite - f, wav.channels);
        forall a | at <= a < at + wav.channels
          ensures preBuff.slots[a % |preBuff.slots|] == wav.samples[SampleAt(f, wav.channels) + (a - at)]
        {
          assert preBuff.slots[a % |preBuff.slots|] == wav.samples[end - (preBuff.w - a)];
        }
      }
    }
  }

  lemma {:induction false} OrderlyPrefix(calls: seq<Call>, k: nat, total: nat)
    requires Orderly(calls, total) && k <= |calls|
    ensures Orderly(calls[..k], total)
    decreases |calls|
  {
    if k == |calls| {
      assert calls[..k] == calls;
    } else {
      assert calls[..|calls| - 1][..k] == calls[..k];
      OrderlyPrefix(calls[..|calls| - 1], k, total);
    }
  }

  lemma {:induction false} OrderlyLast(calls: seq<Call>, call: Call, total: nat)
    requires Orderly(calls + [call], total)
    ensures (calls + [call])[..|calls|] == calls
    ensures match call
            case Read(_) => AskedAfter(calls).Nothing?
            case Pop => true
            case Reset(f) => f <= total
            case Seek(f) => AskedAfter(calls) == Frame(f)
  {
    assert (calls + [call])[..|calls|] == calls;
  }

  lemma TailOf(f: Fifo, g: Fifo, file: seq<int>, end: nat, known: nat)
    requires Tail(f, file, end, known) && g.slots == f.slots && g.w == f.w
    ensures Tail(g, file, end, known)
  {
  }

  lemma RoomShrinks(free: nat, channels: nat, k: nat)
    requires channels > 0 && SampleAt(k, channels) <= free
    ensures (free - SampleAt(k, channels)) / channels == free / channels - k
  {
    var q, m := free / channels, free % channels;
    assert free - SampleAt(k, channels) == channels * (q - k) + m;
    Multiple(channels, q - k);
    Quotient(free - SampleAt(k, channels), channels, q - k, m);
  }

  lemma Quotient(x: nat, d: nat, q: int, m: nat)
    requires x == d * q + m && m < d
    ensures x / d == q
  {
    var q', m' := x / d, x % d;
    assert x == d * q' + m';
    Multiple(d, q - q');
    Multiple(d, q' - q);
    assert d * (q - q') == m' - m;
  }

  lemma TailBounds(f: Fifo, file: seq<int>, end: nat, known: nat)
    ensures Tail(f, file, end, known) ==> known <= |f.slots| && known <= end <= |file|
  {
  }

  lemma WindowRoom(slots: nat, channels: nat)
    requires channels <= 2
    ensures SampleAt(slots / (if channels >= 2 then 2 else 1), channels) <= slots
    ensures 1 <= channels <= slots ==> 1 <= slots / (if channels >= 2 then 2 else 1)
  {
  }
}
