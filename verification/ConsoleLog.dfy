/** What the console ring's writers and reader do to each other, step by step, for any schedule of the writers. */
module ConsoleLog {
  import opened Bytes

  const SIZE: nat := 0x4_0000
  const NEWLINE: byte := 10
  const OVERRUN: seq<byte> := [10, 60, 99, 111, 110, 115, 111, 108, 101, 32, 111, 118, 101, 114, 114, 117, 110, 62, 10]

  // ----- Positions -----

  /** Positions are counted modulo 2^32. */
  function Distance32(later: nat, earlier: nat): u32 {
    Wrap32(Wrap32(later) - Wrap32(earlier))
  }

  /** Their difference is the true one while that is below 2^32. */
  lemma PositionDifference(later: nat, earlier: nat)
    requires earlier <= later
    ensures Distance32(later, earlier) <= later - earlier
    ensures later - earlier < TWO32 ==> Distance32(later, earlier) == later - earlier
  {
    var d := (later - earlier) % TWO32;
    var q := later / TWO32 - earlier / TWO32 - (later - earlier) / TWO32;
    assert Wrap32(later) - Wrap32(earlier) == d - TWO32 * q;
  }

  /** The last position before `n` that shares a ring cell with position `p`. */
  function Latest(n: nat, p: nat): (q: nat)
    requires p < n
    ensures p <= q < n <= q + SIZE
    ensures q == p <==> n <= p + SIZE
    decreases n - p
  {
    if n <= p + SIZE then p else Latest(n, p + SIZE)
  }

  // ----- Writers -----

  /** What a writer can do between two of the reader's steps: copy without publishing, publish all that is copied, or
      try to copy and do so only if there is space. */
  datatype WriterStep = Copy(data: seq<byte>) | Publish | WaitAndCopy(data: seq<byte>)

  /** Everything ever copied in, how much of it is published, and the read position that the writer sees. */
  datatype Writer = Writer(log: seq<byte>, published: nat, seen: nat) {
    predicate Ok() {
      published <= |log|
    }
  }

  /** The test that a waiting writer spins on. */
  predicate HasSpace(w: Writer, len: nat) {
    Wrap32(Distance32(|w.log|, w.seen) + len) <= SIZE
  }

  function AfterStep(w: Writer, s: WriterStep): (r: Writer)
    requires w.Ok()
    ensures r.Ok() && w.log <= r.log && w.published <= r.published && r.seen == w.seen
  {
    match s
    case Copy(data) => w.(log := w.log + data)
    case Publish => w.(published := |w.log|)
    case WaitAndCopy(data) => if HasSpace(w, |data|) then w.(log := w.log + data) else w
  }

  function After(w: Writer, steps: seq<WriterStep>): (r: Writer)
    requires w.Ok()
    ensures r.Ok() && w.log <= r.log && w.published <= r.published && r.seen == w.seen
    decreases |steps|
  {
    if steps == [] then w else AfterStep(After(w, steps[..|steps| - 1]), steps[|steps| - 1])
  }

  /** A schedule: what the writer does just before the reader's `p`-th load. */
  type Schedule = nat -> seq<WriterStep>

  /** The writer at that load. */
  function At(w: Writer, env: Schedule, p: nat): (r: Writer)
    requires w.Ok()
    ensures r.Ok() && |w.log| <= |r.log| && w.published <= r.published && r.seen == w.seen
    decreases p
  {
    After(if p == 0 then w else At(w, env, p - 1), env(p))
  }

  lemma {:induction false} AtGrows(w: Writer, env: Schedule, p: nat, q: nat)
    requires w.Ok() && p <= q
    ensures At(w, env, p).log <= At(w, env, q).log && At(w, env, p).published <= At(w, env, q).published
    decreases q
  {
    if p < q {
      AtGrows(w, env, p, q - 1);
    }
  }

  // ----- Line boundaries -----

  /** How many bytes there are up to the last newline, inclusive. */
  function LastLine(s: seq<byte>): (n: nat)
    ensures n <= |s|
    decreases |s|
  {
    if s == [] then 0 else if s[|s| - 1] == NEWLINE then |s| else LastLine(s[..|s| - 1])
  }

  /** Whole lines if there is one, else everything. */
  function Trimmed(s: seq<byte>): (n: nat)
    ensures n <= |s| && (s != [] ==> 1 <= n)
  {
    if LastLine(s) > 0 then LastLine(s) else |s|
  }

  lemma {:induction false} TrimmedAtNewline(s: seq<byte>)
    requires s != []
    ensures Trimmed(s) < |s| ==> s[Trimmed(s) - 1] == NEWLINE
    ensures forall k :: Trimmed(s) <= k < |s| ==> s[k] != NEWLINE
    ensures s[Trimmed(s) - 1] != NEWLINE ==> forall k :: 0 <= k < |s| ==> s[k] != NEWLINE
    decreases |s|
  {
    var init := s[..|s| - 1];
    if s[|s| - 1] != NEWLINE && init != [] {
      TrimmedAtNewline(init);
      assert forall k :: 0 <= k < |init| ==> s[k] == init[k];
    }
  }

  // ----- One read -----

  /** What a read found: nothing pending, a backlog that was lapped, a chunk that was overwritten while it was
      copied, or a chunk. */
  datatype Kind = Idle | Lapped | Torn | Chunk

  /** What a read gives, where the reader then is, and how many loads it took. */
  datatype Outcome = Outcome(kind: Kind, data: seq<byte>, next: nat, loads: nat)

  /** Byte `k` of a copy that starts at `at`: the last one written to its cell when it is loaded. */
  function LoadedByte(w: Writer, env: Schedule, at: nat, k: nat): byte
    requires w.Ok() && at + k < |At(w, env, 0).log|
  {
    AtGrows(w, env, 0, k + 1);
    var log := At(w, env, k + 1).log;
    log[Latest(|log|, at + k)]
  }

  function LoadedBytes(w: Writer, env: Schedule, at: nat, n: nat): (data: seq<byte>)
    requires w.Ok() && at + n <= |At(w, env, 0).log|
    ensures |data| == n && forall k :: 0 <= k < n ==> data[k] == LoadedByte(w, env, at, k)
    decreases n
  {
    if n == 0 then [] else LoadedBytes(w, env, at, n - 1) + [LoadedByte(w, env, at, n - 1)]
  }

  /** How much of `avail` pending bytes one read copies: as much as fits, in one piece of the ring. */
  function Piece(avail: nat, size: nat, at: nat): (n: nat)
    ensures n <= avail && n <= size && at % 0x4_0000 + n <= SIZE
    ensures n == avail || n == size || at % 0x4_0000 + n == SIZE
    ensures avail > 0 && size > 0 ==> n > 0
  {
    Min(Min(avail, size), SIZE - at % 0x4_0000)
  }

  /** How much is pending at the first look. */
  function Avail(w: Writer, at: nat, env: Schedule): (n: nat)
    requires w.Ok() && at <= w.published
    ensures n <= At(w, env, 0).published - at
  {
    PositionDifference(At(w, env, 0).published, at);
    Distance32(At(w, env, 0).published, at)
  }

  /** `read_from`, exactly: the write position at the first load, the bytes at the next ones, then the write position
      again. */
  function ReadOutcome(w: Writer, at: nat, env: Schedule, size: nat): (o: Outcome)
    requires w.Ok() && at <= w.published && 1 <= size
    ensures at <= o.next && 1 <= o.loads && |o.data| <= size
    ensures o.next <= At(w, env, o.loads - 1).published
    ensures o.data == [] <==> o.kind.Idle? || o.kind.Torn?
  {
    var avail := Avail(w, at, env);
    if avail == 0 then Outcome(Idle, [], at, 1)
    else if avail > SIZE then Outcome(Lapped, OVERRUN[..Min(|OVERRUN|, size)], At(w, env, 0).published, 1)
    else CopyOutcome(w, at, env, Piece(avail, size, at))
  }

  /** The second half: `n` bytes are copied and looked after. */
  function CopyOutcome(w: Writer, at: nat, env: Schedule, n: nat): (o: Outcome)
    requires w.Ok() && 1 <= n && at + n <= At(w, env, 0).published
    ensures at <= o.next && 1 <= o.loads && |o.data| <= n
    ensures o.next <= At(w, env, o.loads - 1).published
    ensures o.data == [] <==> o.kind.Torn?
    ensures o.kind.Torn? || o.kind.Chunk?
  {
    if Distance32(At(w, env, n + 1).published, at) > SIZE then TornOutcome(w, at, env, n)
    else ChunkOutcome(w, at, env, n)
  }

  function TornOutcome(w: Writer, at: nat, env: Schedule, n: nat): (o: Outcome)
    requires w.Ok() && at + n <= At(w, env, 0).published
    ensures o.loads == n + 3 && at <= o.next == At(w, env, o.loads - 1).published && o.data == [] && o.kind.Torn?
  {
    AtGrows(w, env, 0, n + 2);
    Outcome(Torn, [], At(w, env, n + 2).published, n + 3)
  }

  function ChunkOutcome(w: Writer, at: nat, env: Schedule, n: nat): (o: Outcome)
    requires w.Ok() && 1 <= n && at + n <= At(w, env, 0).published
    ensures o.loads == n + 2 && at <= o.next <= At(w, env, o.loads - 1).published && o.kind.Chunk?
    ensures 1 <= |o.data| <= n
  {
    AtGrows(w, env, 0, n + 1);
    var data := LoadedBytes(w, env, at, n);
    Outcome(Chunk, data[..Trimmed(data)], at + Trimmed(data), n + 2)
  }

  /** The four cases of a read; in the last two, `n` bytes are copied. */
  ghost predicate Cases(w: Writer, at: nat, env: Schedule, size: nat, o: Outcome, n: nat)
    requires w.Ok() && at <= w.published
  {
    match o.kind
    case Idle => Avail(w, at, env) == 0 && o == Outcome(Idle, [], at, 1)
    case Lapped => Avail(w, at, env) > SIZE && o.next == At(w, env, 0).published && o.loads == 1
    case Torn =>
      && Copies(w, at, env, size, n) && Distance32(At(w, env, n + 1).published, at) > SIZE
      && o == Outcome(Torn, [], At(w, env, n + 2).published, n + 3)
    case Chunk =>
      && Copies(w, at, env, size, n) && Distance32(At(w, env, n + 1).published, at) <= SIZE
      && var data := LoadedBytes(w, env, at, n);
         o == Outcome(Chunk, data[..Trimmed(data)], at + Trimmed(data), n + 2)
  }

  predicate Copies(w: Writer, at: nat, env: Schedule, size: nat, n: nat)
    requires w.Ok() && at <= w.published
  {
    1 <= n && 0 < Avail(w, at, env) <= SIZE && n == Piece(Avail(w, at, env), size, at)
    && at + n <= At(w, env, 0).published
  }

  lemma {:induction false} ReadCases(w: Writer, at: nat, env: Schedule, size: nat, o: Outcome) returns (n: nat)
    requires w.Ok() && at <= w.published && 1 <= size && o == ReadOutcome(w, at, env, size)
    ensures Cases(w, at, env, size, o, n)
  {
    hide At, LoadedBytes, Trimmed, Distance32;
    n := Piece(Avail(w, at, env), size, at);
  }

  // ----- When a chunk is what was logged -----

  /** Position `at + k` was written over before byte `k` was loaded. */
  predicate Overwritten(w: Writer, env: Schedule, at: nat, k: nat)
    requires w.Ok()
  {
    |At(w, env, k + 1).log| > at + k + SIZE
  }

  /** A loaded byte is always one that was logged: the right one unless its position was overwritten, in which case it
      is the one logged last to the same cell. */
  lemma {:induction false} LoadedByteIs(w: Writer, env: Schedule, at: nat, k: nat, log: seq<byte>)
    requires w.Ok() && at + k < |At(w, env, 0).log| <= |At(w, env, k + 1).log| && At(w, env, k + 1).log <= log
    ensures var q := Latest(|At(w, env, k + 1).log|, at + k);
            && LoadedByte(w, env, at, k) == log[q]
            && (q == at + k <==> !Overwritten(w, env, at, k))
  {
    hide At;
  }

  /** And the byte logged last to its cell by then is another one. */
  predicate Corrupted(w: Writer, env: Schedule, at: nat, k: nat, log: seq<byte>)
    requires w.Ok() && at + k < |log|
  {
    Overwritten(w, env, at, k) &&
    var q := Latest(|At(w, env, k + 1).log|, at + k);
    q < |log| && log[q] != log[at + k]
  }

  /** The first `m` of `n` bytes copied equal the log exactly if none of them is corrupted. */
  lemma {:induction false} CopyIsLogExactly(w: Writer, at: nat, env: Schedule, n: nat, m: nat, data: seq<byte>,
                                            log: seq<byte>)
    requires w.Ok() && m <= n && at + n <= |At(w, env, 0).log| && At(w, env, n + 1).log <= log && at + n <= |log|
    requires data == LoadedBytes(w, env, at, n)
    ensures data[..m] == log[at..at + m] <==> forall k :: 0 <= k < m ==> !Corrupted(w, env, at, k, log)
  {
    hide At, LoadedBytes, Latest, LoadedByte;
    forall k | 0 <= k < m
      ensures Corrupted(w, env, at, k, log) <==> data[k] != log[at + k]
    {
      AtGrows(w, env, 0, k + 1);
      AtGrows(w, env, k + 1, n + 1);
      LoadedByteIs(w, env, at, k, log);
    }
    forall k | 0 <= k < m
      ensures data[..m][k] == data[k] && log[at..at + m][k] == log[at + k]
    {
    }
  }

  /** A chunk equals the log at its position exactly if, for every byte, either the position was not overwritten before
      it was loaded, or the byte logged last to its cell by then happens to be the same. */
  lemma {:induction false} ChunkIsLogExactly(w: Writer, at: nat, env: Schedule, size: nat, o: Outcome, log: seq<byte>)
    requires w.Ok() && at <= w.published && 1 <= size && o == ReadOutcome(w, at, env, size) && o.kind.Chunk?
    requires At(w, env, o.loads - 1).log <= log
    ensures 1 <= |o.data| && o.next == at + |o.data| && o.next <= |log|
    ensures o.data == log[at..o.next] <==> forall k :: 0 <= k < |o.data| ==> !Corrupted(w, env, at, k, log)
  {
    hide At, LoadedBytes, ReadOutcome, Corrupted, LastLine, Avail, Distance32;
    var n := ReadCases(w, at, env, size, o);
    var data := LoadedBytes(w, env, at, n);
    AtGrows(w, env, 0, n + 1);
    CopyIsLogExactly(w, at, env, n, |o.data|, data, log);
  }

  /** If no overwriting copy is still unpublished at the second look, a chunk that it lets through is right. */
  lemma {:induction false} PublishedOverwriteIsSeen(w: Writer, at: nat, env: Schedule, size: nat, o: Outcome,
                                                    look: Writer)
    requires w.Ok() && at <= w.published && 1 <= size && o == ReadOutcome(w, at, env, size) && o.kind.Chunk?
    requires look == At(w, env, o.loads - 1)
    requires look.published - at < TWO32 && (|look.log| > at + SIZE ==> look.published > at + SIZE)
    ensures 1 <= |o.data| && o.next == at + |o.data| && o.next <= |look.log| && o.data == look.log[at..o.next]
  {
    hide At, LoadedBytes, ReadOutcome, LastLine, Avail, Distance32;
    var n := ReadCases(w, at, env, size, o);
    PositionDifference(look.published, at);
    ChunkIsLogExactly(w, at, env, size, o, look.log);
    forall k | 0 <= k < |o.data|
      ensures !Overwritten(w, env, at, k)
    {
      AtGrows(w, env, k + 1, n + 1);
    }
  }

  lemma {:induction false} LoadsGrow(w: Writer, at: nat, env: Schedule, size: nat, o: Outcome, n: nat)
    requires w.Ok() && at <= w.published && 1 <= size && Cases(w, at, env, size, o, n)
    ensures o.loads >= 1 && |At(w, env, 0).log| <= |At(w, env, o.loads - 1).log|
    ensures At(w, env, 0).published <= At(w, env, o.loads - 1).published
    ensures o.kind.Torn? ==> At(w, env, n + 1).published <= At(w, env, n + 2).published
  {
    hide At, LoadedBytes, Avail, Distance32, Trimmed;
    AtGrows(w, env, 0, o.loads - 1);
    AtGrows(w, env, n + 1, n + 2);
  }

  /** A read of a writer whose state at the last load is `end`, less than 2^32 bytes ahead, that has no unpublished copy
      beyond the reader's region: the next bytes of the log, or nothing because nothing is there, or more than the ring
      dropped whole. */
  ghost predicate Delivered(o: Outcome, at: nat, end: Writer) {
    match o.kind
    case Idle => o.next == at
    case Chunk => 1 <= |o.data| && o.next == at + |o.data| && o.next <= |end.log| && o.data == end.log[at..o.next]
    case _ => end.published > at + SIZE && at + SIZE < o.next <= end.published
  }

  lemma {:induction false} Delivery(w: Writer, at: nat, env: Schedule, size: nat, o: Outcome, end: Writer)
    requires w.Ok() && at <= w.published && 1 <= size && o == ReadOutcome(w, at, env, size)
    requires end == At(w, env, o.loads - 1)
    requires end.published - at < TWO32 && (|end.log| > at + SIZE ==> end.published > at + SIZE)
    ensures Delivered(o, at, end) && (o.kind.Idle? <==> At(w, env, 0).published == at)
    ensures o.kind.Lapped? ==> o.next == At(w, env, 0).published && o.loads == 1
    ensures o.kind.Torn? ==> o.next == end.published
  {
    hide At, ReadOutcome, Distance32, Avail;
    FirstLook(w, at, env, size, o);
    if o.kind.Chunk? {
      PublishedOverwriteIsSeen(w, at, env, size, o, end);
    } else if o.kind.Torn? {
      SecondLook(w, at, env, size, o);
    }
  }

  lemma {:induction false} FirstLook(w: Writer, at: nat, env: Schedule, size: nat, o: Outcome)
    requires w.Ok() && at <= w.published && 1 <= size && o == ReadOutcome(w, at, env, size)
    requires At(w, env, o.loads - 1).published - at < TWO32
    ensures o.kind.Idle? <==> At(w, env, 0).published == at
    ensures o.kind.Idle? ==> o.next == at
    ensures o.kind.Lapped? ==> at + SIZE < o.next == At(w, env, 0).published && o.loads == 1
  {
    hide At, LoadedBytes, ReadOutcome, Trimmed, Piece, Distance32;
    var n := ReadCases(w, at, env, size, o);
    LoadsGrow(w, at, env, size, o, n);
    PositionDifference(At(w, env, 0).published, at);
  }

  lemma {:induction false} SecondLook(w: Writer, at: nat, env: Schedule, size: nat, o: Outcome)
    requires w.Ok() && at <= w.published && 1 <= size && o == ReadOutcome(w, at, env, size) && o.kind.Torn?
    ensures at + SIZE < o.next == At(w, env, o.loads - 1).published
  {
    hide At, LoadedBytes, ReadOutcome, Trimmed, Piece, Distance32, Avail;
    var n := ReadCases(w, at, env, size, o);
    LoadsGrow(w, at, env, size, o, n);
    AtGrows(w, env, 0, n + 1);
    PositionDifference(At(w, env, n + 1).published, at);
  }

  /** Lapped at the first look: the reader is told, as far as there is room, and goes on at what was published then. */
  lemma {:induction false} LappedIsTold(w: Writer, at: nat, env: Schedule, size: nat, o: Outcome)
    requires w.Ok() && at <= w.published && 1 <= size && o == ReadOutcome(w, at, env, size)
    requires at + SIZE < At(w, env, 0).published < at + TWO32
    ensures o.kind.Lapped? && o.next == At(w, env, 0).published && o.loads == 1
    ensures var text := "\n<console overrun>\n";
            |o.data| == Min(|text|, size) && forall k :: 0 <= k < |o.data| ==> o.data[k] == text[k] as int
  {
    hide At, CopyOutcome;
    PositionDifference(At(w, env, 0).published, at);
  }

  /** Overwritten by the second look: nothing is given, and the reader goes on at what is published after it. */
  lemma {:induction false} TornIsDropped(w: Writer, at: nat, env: Schedule, size: nat, o: Outcome, n: nat)
    requires w.Ok() && at <= w.published && 1 <= size && o == ReadOutcome(w, at, env, size)
    requires at < At(w, env, 0).published <= at + SIZE && n == Piece(At(w, env, 0).published - at, size, at)
    requires at + SIZE < At(w, env, n + 1).published < at + TWO32
    ensures o == Outcome(Torn, [], At(w, env, n + 2).published, n + 3)
  {
    hide At, LoadedBytes, Trimmed, Piece;
    PositionDifference(At(w, env, 0).published, at);
    PositionDifference(At(w, env, n + 1).published, at);
  }

  // ----- Writers that publish at once -----

  /** Every copy is followed at once by its publication. */
  predicate Prompt(steps: seq<WriterStep>)
    decreases |steps|
  {
    steps == [] || (|steps| >= 2 && steps[|steps| - 1].Publish? && Prompt(steps[..|steps| - 2]))
  }

  lemma {:induction false} PromptPublishes(w: Writer, steps: seq<WriterStep>)
    requires w.Ok() && w.published == |w.log| && Prompt(steps)
    ensures After(w, steps).published == |After(w, steps).log|
    decreases |steps|
  {
  }

  lemma {:induction false} PromptAt(w: Writer, env: Schedule, p: nat)
    requires w.Ok() && w.published == |w.log| && forall q :: Prompt(env(q))
    ensures At(w, env, p).published == |At(w, env, p).log|
    decreases p
  {
    if p > 0 {
      PromptAt(w, env, p - 1);
    }
    PromptPublishes(if p == 0 then w else At(w, env, p - 1), env(p));
  }

  /** With such writers, less than 2^32 bytes ahead, every log byte delivered is the one logged at its position; a
      lapped or overwritten backlog is dropped whole. */
  lemma {:induction false} PromptDelivery(w: Writer, at: nat, env: Schedule, size: nat, o: Outcome)
    requires w.Ok() && w.published == |w.log| && at <= w.published && 1 <= size && forall q :: Prompt(env(q))
    requires o == ReadOutcome(w, at, env, size) && |At(w, env, o.loads - 1).log| - at < TWO32
    ensures Delivered(o, at, At(w, env, o.loads - 1))
    ensures o.kind.Idle? <==> |At(w, env, 0).log| == at
  {
    hide At, ReadOutcome;
    PromptAt(w, env, 0);
    PromptAt(w, env, o.loads - 1);
    Delivery(w, at, env, size, o, At(w, env, o.loads - 1));
  }

  // ----- Writers that stay within the ring -----

  /** However it writes: if its log, unpublished copies included, never ends more than the ring ahead of the reader,
      then a read gives nothing just if nothing was published at the first look, and else the next bytes of the log. */
  lemma {:induction false} InRingDelivery(w: Writer, at: nat, env: Schedule, size: nat, o: Outcome)
    requires w.Ok() && at <= w.published && 1 <= size && o == ReadOutcome(w, at, env, size)
    requires |At(w, env, o.loads - 1).log| <= at + SIZE
    ensures o.kind.Idle? || o.kind.Chunk?
    ensures o.kind.Idle? <==> At(w, env, 0).published == at
    ensures Delivered(o, at, At(w, env, o.loads - 1))
  {
    hide At, ReadOutcome;
    Delivery(w, at, env, size, o, At(w, env, o.loads - 1));
  }

  /** The chunk is all that was published, fits and lies in one piece of the ring, cut at a line. */
  lemma {:induction false} InRingChunk(w: Writer, at: nat, env: Schedule, size: nat, o: Outcome, n: nat)
    requires w.Ok() && at <= w.published && at < At(w, env, 0).published && 1 <= size
    requires o == ReadOutcome(w, at, env, size) && |At(w, env, o.loads - 1).log| <= at + SIZE
    requires n == Piece(At(w, env, 0).published - at, size, at)
    ensures o.loads == n + 2 && at + n <= |At(w, env, n + 1).log|
    ensures o.next == at + Trimmed(At(w, env, n + 1).log[at..at + n])
  {
    hide At, LoadedBytes, ReadOutcome, Trimmed;
    InRingDelivery(w, at, env, size, o);
    AtGrows(w, env, 0, o.loads - 1);
    PositionDifference(At(w, env, 0).published, at);
    var m := ReadCases(w, at, env, size, o);
    AtGrows(w, env, 0, n + 1);
    CopyUnharmed(w, at, env, n, At(w, env, n + 1).log);
  }

  lemma {:induction false} CopyUnharmed(w: Writer, at: nat, env: Schedule, n: nat, log: seq<byte>)
    requires w.Ok() && at + n <= |At(w, env, 0).log| && log == At(w, env, n + 1).log && at + n <= |log| <= at + SIZE
    ensures LoadedBytes(w, env, at, n) == log[at..at + n]
  {
    hide At, LoadedBytes;
    forall k | 0 <= k < n
      ensures !Overwritten(w, env, at, k)
    {
      AtGrows(w, env, k + 1, n + 1);
    }
    CopyIsLogExactly(w, at, env, n, n, LoadedBytes(w, env, at, n), log);
    assert LoadedBytes(w, env, at, n)[..n] == LoadedBytes(w, env, at, n);
  }

  // ----- Writers that wait for space -----

  /** The writer publishes, or copies at most a quarter of the ring after waiting. */
  predicate Waits(steps: seq<WriterStep>) {
    forall k :: 0 <= k < |steps| ==> steps[k].Publish? || (steps[k].WaitAndCopy? && |steps[k].data| <= SIZE / 4)
  }

  /** The log ends within the ring of the position that the writer sees. */
  predicate Tight(w: Writer) {
    w.seen <= |w.log| <= w.seen + SIZE
  }

  lemma SpaceIsThere(w: Writer, len: nat)
    requires Tight(w) && len <= SIZE / 4 && HasSpace(w, len)
    ensures |w.log| + len <= w.seen + SIZE
  {
    PositionDifference(|w.log|, w.seen);
  }

  /** The test never lets such a writer out of the ring. */
  lemma {:induction false} WaitingStaysTight(w: Writer, steps: seq<WriterStep>)
    requires w.Ok() && Tight(w) && Waits(steps)
    ensures Tight(After(w, steps))
    decreases |steps|
  {
    if steps != [] {
      var init, last := steps[..|steps| - 1], steps[|steps| - 1];
      WaitingStaysTight(w, init);
      if last.WaitAndCopy? && HasSpace(After(w, init), |last.data|) {
        SpaceIsThere(After(w, init), |last.data|);
      }
    }
  }

  lemma {:induction false} WaitingAt(w: Writer, env: Schedule, p: nat)
    requires w.Ok() && Tight(w) && forall q :: Waits(env(q))
    ensures Tight(At(w, env, p))
    decreases p
  {
    if p > 0 {
      WaitingAt(w, env, p - 1);
    }
    WaitingStaysTight(if p == 0 then w else At(w, env, p - 1), env(p));
  }

  // ----- A wrong byte -----

  /** A full ring of ones has been published, and nothing read. */
  function FullRing(): (w: Writer)
    ensures w.Ok() && |w.log| == w.published == SIZE && w.log[0] == 1
  {
    Writer(seq(SIZE, _ => 1), SIZE, 0)
  }

  /** Just before byte 0 is loaded, the writer copies one more byte, and does not publish it. */
  function LateCopy(): Schedule {
    p => if p == 1 then [Copy([2])] else []
  }

  // Numbers that would be literals are parameters here: functions of literals are unfolded without end.

  lemma {:induction false} LateCopyRuns(w: Writer, env: Schedule, one: nat, two: nat)
    requires w == FullRing() && env == LateCopy() && one == 1 && two == 2
    ensures At(w, env, 0) == w
    ensures At(w, env, one) == At(w, env, two) == w.(log := w.log + [2])
  {
    assert env(1)[..0] == [];
  }

  lemma {:induction false} LateByteIsLoaded(w: Writer, env: Schedule, one: nat)
    requires w == FullRing() && env == LateCopy() && one == 1
    requires At(w, env, 0) == w && At(w, env, one) == w.(log := w.log + [2])
    ensures LoadedBytes(w, env, 0, one) == [2]
  {
    hide At;
    assert Latest(SIZE + one, 0) == SIZE by {
      assert Latest(SIZE + one, SIZE) == SIZE;
    }
    assert LoadedByte(w, env, 0, 0) == 2;
    assert LoadedBytes(w, env, 0, 0) == [];
  }

  lemma OneByteLine(s: seq<byte>)
    requires |s| == 1
    ensures Trimmed(s) == 1
  {
  }

  /** The read delivers 2 where 1 was logged: the second look at the write position finds nothing wrong. */
  lemma {:induction false} UnpublishedCopyIsDelivered()
    ensures ReadOutcome(FullRing(), 0, LateCopy(), 1) == Outcome(Chunk, [2], 1, 3)
    ensures FullRing().log[0] == 1
  {
    hide At, LoadedBytes, Trimmed, FullRing, LateCopy, Distance32;
    var w, env := FullRing(), LateCopy();
    LateCopyRuns(w, env, 1, 2);
    LateByteIsLoaded(w, env, 1);
    PositionDifference(w.published, 0);
    OneByteLine([2]);
    assert Avail(w, 0, env) == SIZE && Piece(SIZE, 1, 0) == 1;
    assert [2 as byte][..1] == [2];
  }

  // ----- A buffer as its reader gets through it -----

  /** Where the reader is, where its unbroken run began, and what that run has delivered. */
  datatype Slot = Slot(w: Writer, at: nat, from: nat, delivered: seq<byte>) {
    predicate Ok() {
      w.Ok() && from <= at <= w.published
    }

    predicate Pending() {
      at < w.published
    }
  }

  /** A read: a chunk carries the run on, a dropped backlog starts a new one, and either is shown to the writer. */
  function ReadSlot(s: Slot, env: Schedule, size: nat): (t: Slot)
    requires s.Ok() && 1 <= size
    ensures t.Ok()
  {
    var o := ReadOutcome(s.w, s.at, env, size);
    var w := At(s.w, env, o.loads - 1);
    match o.kind
    case Idle => s.(w := w)
    case Chunk => Slot(w.(seen := o.next), o.next, s.from, s.delivered + o.data)
    case _ => Slot(w.(seen := o.next), o.next, o.next, [])
  }

  /** Everything since the run began has been delivered as it was logged. */
  ghost predicate Faithful(s: Slot) {
    s.Ok() && s.delivered == s.w.log[s.from..s.at]
  }

  lemma RunGrows(before: seq<byte>, log: seq<byte>, from: nat, at: nat, next: nat)
    requires before <= log && from <= at <= |before| && at <= next <= |log|
    ensures log[from..next] == before[from..at] + log[at..next]
  {
  }

  lemma {:induction false} DeliveredIsFaithful(s: Slot, env: Schedule, size: nat, o: Outcome)
    requires Faithful(s) && 1 <= size && o == ReadOutcome(s.w, s.at, env, size)
    requires Delivered(o, s.at, At(s.w, env, o.loads - 1))
    ensures Faithful(ReadSlot(s, env, size))
  {
    hide ReadOutcome, At;
    AtGrows(s.w, env, 0, o.loads - 1);
    AtPrefix(s.w, env, o.loads - 1);
    RunGrows(s.w.log, At(s.w, env, o.loads - 1).log, s.from, s.at, o.next);
    if o.kind.Idle? {
      assert s.delivered + At(s.w, env, o.loads - 1).log[s.at..s.at] == s.delivered;
    }
  }

  lemma {:induction false} AtPrefix(w: Writer, env: Schedule, p: nat)
    requires w.Ok()
    ensures w.log <= At(w, env, p).log
    decreases p
  {
    if p > 0 {
      AtPrefix(w, env, p - 1);
    }
  }

  ghost predicate AllPublished(s: Slot) {
    Faithful(s) && s.w.published == |s.w.log|
  }

  /** With writers that publish at once the run stays faithful, whatever was dropped before it. */
  lemma {:induction false} PromptKeeps(s: Slot, env: Schedule, size: nat)
    requires AllPublished(s) && 1 <= size && forall q :: Prompt(env(q))
    requires |ReadSlot(s, env, size).w.log| - s.at < TWO32
    ensures AllPublished(ReadSlot(s, env, size))
  {
    var o := ReadOutcome(s.w, s.at, env, size);
    hide ReadOutcome, At;
    PromptDelivery(s.w, s.at, env, size, o);
    PromptAt(s.w, env, o.loads - 1);
    DeliveredIsFaithful(s, env, size, o);
  }

  /** A writer that stays within the ring never breaks the run, and a pending buffer gives something. */
  lemma {:induction false} InRingKeeps(s: Slot, env: Schedule, size: nat)
    requires Faithful(s) && 1 <= size && |ReadSlot(s, env, size).w.log| <= s.at + SIZE
    ensures Faithful(ReadSlot(s, env, size)) && ReadSlot(s, env, size).from == s.from
    ensures ReadSlot(s, env, size).delivered == s.delivered + ReadOutcome(s.w, s.at, env, size).data
    ensures s.Pending() ==> ReadOutcome(s.w, s.at, env, size).data != []
  {
    var o := ReadOutcome(s.w, s.at, env, size);
    InRingSlot(s, env, size, o);
    hide ReadOutcome, At, ReadSlot, Faithful;
    DeliveredIsFaithful(s, env, size, o);
  }

  lemma {:induction false} InRingSlot(s: Slot, env: Schedule, size: nat, o: Outcome)
    requires s.Ok() && 1 <= size && o == ReadOutcome(s.w, s.at, env, size)
    requires |ReadSlot(s, env, size).w.log| <= s.at + SIZE
    ensures Delivered(o, s.at, At(s.w, env, o.loads - 1))
    ensures var t := ReadSlot(s, env, size);
            t.from == s.from && t.delivered == s.delivered + o.data && (s.Pending() ==> o.data != [])
  {
    hide ReadOutcome, At, Piece;
    InRingDelivery(s.w, s.at, env, size, o);
    assert s.delivered + [] == s.delivered;
  }

  /** The writer last saw a read position at or before the reader's, and stays within the ring of what it saw. */
  ghost predicate Backpressured(s: Slot) {
    s.Ok() && Tight(s.w) && s.w.seen <= s.at
  }

  /** A waiting writer stays within the ring. */
  lemma {:induction false} WaitingInRing(s: Slot, env: Schedule, size: nat)
    requires Backpressured(s) && 1 <= size && forall q :: Waits(env(q))
    ensures Backpressured(ReadSlot(s, env, size)) && |ReadSlot(s, env, size).w.log| <= s.at + SIZE
  {
    hide ReadOutcome, At, Waits;
    WaitingAt(s.w, env, ReadOutcome(s.w, s.at, env, size).loads - 1);
  }

  /** A reader that gives up its backlog. */
  function Resynced(s: Slot): (t: Slot)
    requires s.Ok()
    ensures t.Ok()
  {
    Slot(s.w.(seen := s.w.published), s.w.published, s.w.published, [])
  }

  /** After that nothing is pending, and what follows is faithful whatever came before. */
  lemma ResyncedIsFaithful(s: Slot)
    requires s.Ok()
    ensures Faithful(Resynced(s)) && !Resynced(s).Pending() && Shown(Resynced(s))
    ensures |s.w.log| - s.w.published <= SIZE ==> Backpressured(Resynced(s))
  {
  }

  // ----- What the writer is shown -----

  /** The writer sees where the reader is. */
  predicate Shown(s: Slot) {
    s.w.seen == s.at
  }

  /** Whatever a read moves past, it shows. */
  lemma {:induction false} ReadShows(s: Slot, env: Schedule, size: nat)
    requires s.Ok() && 1 <= size
    ensures Shown(s) || ReadSlot(s, env, size).at != s.at ==> Shown(ReadSlot(s, env, size))
  {
    hide ReadOutcome, At;
  }

  /** So a writer's test tells exactly whether what it wants to write fits beside what has not been read. */
  lemma SpaceIsWhatWasRead(s: Slot, len: nat)
    requires s.Ok() && Shown(s) && |s.w.log| - s.at + len < TWO32
    ensures HasSpace(s.w, len) <==> |s.w.log| + len <= s.at + SIZE
  {
    PositionDifference(|s.w.log|, s.at);
  }

  /** And a writer whose log has been read gets past its test. */
  lemma DrainedWriterWrites(s: Slot, data: seq<byte>)
    requires s.Ok() && Shown(s) && s.at == |s.w.log| && |data| <= SIZE
    ensures AfterStep(s.w, WaitAndCopy(data)).log == s.w.log + data
  {
    SpaceIsWhatWasRead(s, |data|);
  }

  // ----- The round robin -----

  const NUM_BUFFERS: nat := 3

  /** One call: how much payload each buffer's chunk may have, and what each buffer's writer does when it is asked. */
  datatype Call = Call(rooms: seq<int>, envs: nat -> Schedule)

  datatype Desk = Desk(slots: seq<Slot>, next: nat) {
    ghost predicate Ok() {
      |slots| == NUM_BUFFERS && next < NUM_BUFFERS && forall i :: 0 <= i < NUM_BUFFERS ==> slots[i].Ok()
    }
  }

  /** What a call gives: the buffer served, if any, and its payload. */
  datatype Given = Given(desk: Desk, served: nat, payload: seq<byte>)

  /** `next_chunk` from its `scan`-th question on: ask the buffers in turn until one gives something; stop if a buffer's
      chunk would not fit at all. */
  function Scan(d: Desk, call: Call, scan: nat): (g: Given)
    requires d.Ok() && |call.rooms| == NUM_BUFFERS && scan <= NUM_BUFFERS
    ensures g.desk.Ok() && g.served < NUM_BUFFERS
    decreases NUM_BUFFERS - scan
  {
    if scan == NUM_BUFFERS then Given(d, 0, [])
    else
      var i, next := d.next, (d.next + 1) % 3;
      if call.rooms[i] <= 0 then Given(Desk(d.slots, next), 0, [])
      else
        var o := ReadOutcome(d.slots[i].w, d.slots[i].at, call.envs(i), call.rooms[i]);
        var desk := Desk(d.slots[i := ReadSlot(d.slots[i], call.envs(i), call.rooms[i])], next);
        if o.data != [] then Given(desk, i, o.data) else Scan(desk, call, scan + 1)
  }

  lemma ScanStops(d: Desk, call: Call, scan: nat)
    requires d.Ok() && |call.rooms| == NUM_BUFFERS && scan <= NUM_BUFFERS
    ensures scan == NUM_BUFFERS ==> Scan(d, call, scan) == Given(d, 0, [])
    ensures scan < NUM_BUFFERS && call.rooms[d.next] <= 0 ==>
      Scan(d, call, scan) == Given(Desk(d.slots, (d.next + 1) % 3), 0, [])
  {
  }

  lemma ScanAsks(d: Desk, call: Call, scan: nat, desk: Desk, payload: seq<byte>)
    requires d.Ok() && |call.rooms| == NUM_BUFFERS && scan < NUM_BUFFERS && call.rooms[d.next] > 0
    requires payload == ReadOutcome(d.slots[d.next].w, d.slots[d.next].at, call.envs(d.next), call.rooms[d.next]).data
    requires desk == Desk(d.slots[d.next := ReadSlot(d.slots[d.next], call.envs(d.next), call.rooms[d.next])],
                          (d.next + 1) % 3)
    ensures desk.Ok()
    ensures Scan(d, call, scan) == if payload != [] then Given(desk, d.next, payload) else Scan(desk, call, scan + 1)
  {
    hide ReadOutcome, ReadSlot;
  }

  function NextChunk(d: Desk, call: Call): (g: Given)
    requires d.Ok() && |call.rooms| == NUM_BUFFERS
    ensures g.desk.Ok() && g.served < NUM_BUFFERS
  {
    Scan(d, call, 0)
  }

  ghost predicate Calls(calls: seq<Call>) {
    forall k :: 0 <= k < |calls| ==> |calls[k].rooms| == NUM_BUFFERS
  }

  /** Calls with the same rooms. */
  function CallsOf(rooms: seq<int>, envs: seq<nat -> Schedule>): (calls: seq<Call>)
    requires |rooms| == NUM_BUFFERS
    ensures |calls| == |envs| && Calls(calls) && forall k :: 0 <= k < |envs| ==> calls[k] == Call(rooms, envs[k])
  {
    seq(|envs|, k requires 0 <= k < |envs| => Call(rooms, envs[k]))
  }

  lemma CallsOfStep(rooms: seq<int>, envs: seq<nat -> Schedule>, k: nat)
    requires |rooms| == NUM_BUFFERS && k < |envs|
    ensures CallsOf(rooms, envs[..k + 1]) == CallsOf(rooms, envs[..k]) + [Call(rooms, envs[k])]
  {
  }

  /** The desk after some calls. */
  function Drain(d: Desk, calls: seq<Call>): (r: Desk)
    requires d.Ok() && Calls(calls)
    ensures r.Ok()
    decreases |calls|
  {
    if calls == [] then d else NextChunk(Drain(d, calls[..|calls| - 1]), calls[|calls| - 1]).desk
  }

  lemma DrainStep(d: Desk, calls: seq<Call>, call: Call)
    requires d.Ok() && Calls(calls) && |call.rooms| == NUM_BUFFERS
    ensures Calls(calls + [call]) && Drain(d, calls + [call]) == NextChunk(Drain(d, calls), call).desk
  {
    hide NextChunk;
    assert (calls + [call])[..|calls|] == calls;
  }

  /** Every buffer's chunk may have some payload. */
  ghost predicate Roomy(call: Call) {
    |call.rooms| == NUM_BUFFERS && forall i :: 0 <= i < NUM_BUFFERS ==> 1 <= call.rooms[i]
  }

  /** How many buffers are asked before `j`. */
  function Distance(first: nat, j: nat): nat
    requires first < NUM_BUFFERS && j < NUM_BUFFERS
  {
    (j + NUM_BUFFERS - first) % 3
  }

  /** What a scan that leaves buffer `j` in slot `t` and gives `g` does for it: its run goes on by exactly its payload,
      and if it has something it is served or comes nearer. */
  ghost predicate Carried(d: Desk, g: Given, j: nat)
    requires d.Ok() && g.desk.Ok() && j < NUM_BUFFERS
  {
    var s, t := d.slots[j], g.desk.slots[j];
    && Faithful(t) && t.from == s.from && t.delivered == s.delivered + (if g.served == j then g.payload else [])
    && (s.Pending() ==> g.payload != [] && (g.served != j ==> t == s && Distance(g.desk.next, j) < Distance(d.next, j)))
  }

  lemma {:induction false} ScanKeeps(d: Desk, call: Call, scan: nat, j: nat)
    requires d.Ok() && Roomy(call) && j < NUM_BUFFERS && Faithful(d.slots[j])
    requires scan + Distance(d.next, j) < NUM_BUFFERS
    requires |Scan(d, call, scan).desk.slots[j].w.log| <= d.slots[j].at + SIZE
    ensures Carried(d, Scan(d, call, scan), j)
    decreases NUM_BUFFERS - scan
  {
    hide Scan, ReadOutcome, ReadSlot, Faithful;
    var i := d.next;
    var payload := ReadOutcome(d.slots[i].w, d.slots[i].at, call.envs(i), call.rooms[i]).data;
    var desk := Desk(d.slots[i := ReadSlot(d.slots[i], call.envs(i), call.rooms[i])], (i + 1) % 3);
    ScanAsks(d, call, scan, desk, payload);
    if i == j {
      ScanPassed(desk, call, scan + 1, j);
      InRingKeeps(d.slots[j], call.envs(j), call.rooms[j]);
    } else if payload == [] {
      ScanKeeps(desk, call, scan + 1, j);
    } else {
      assert d.slots[j].delivered + [] == d.slots[j].delivered;
    }
  }

  /** Once asked, a buffer is not asked again in the same scan. */
  lemma {:induction false} ScanPassed(d: Desk, call: Call, scan: nat, j: nat)
    requires d.Ok() && |call.rooms| == NUM_BUFFERS && j < NUM_BUFFERS && scan <= NUM_BUFFERS
    requires NUM_BUFFERS <= scan + Distance(d.next, j)
    ensures Scan(d, call, scan).desk.slots[j] == d.slots[j]
    ensures Scan(d, call, scan).payload != [] ==> Scan(d, call, scan).served != j
    decreases NUM_BUFFERS - scan
  {
    hide ReadOutcome, ReadSlot;
    if scan < NUM_BUFFERS && call.rooms[d.next] > 0 {
      var i := d.next;
      ScanPassed(Desk(d.slots[i := ReadSlot(d.slots[i], call.envs(i), call.rooms[i])], (i + 1) % 3), call, scan + 1, j);
    }
  }

  /** The payloads that buffer `j` gave over some calls. */
  function Payloads(d: Desk, calls: seq<Call>, j: nat): seq<byte>
    requires d.Ok() && Calls(calls)
    decreases |calls|
  {
    if calls == [] then []
    else
      var init := calls[..|calls| - 1];
      var g := NextChunk(Drain(d, init), calls[|calls| - 1]);
      Payloads(d, init, j) + if g.served == j then g.payload else []
  }

  lemma {:induction false} CallKeeps(d: Desk, call: Call, j: nat)
    requires d.Ok() && Roomy(call) && j < NUM_BUFFERS && Faithful(d.slots[j])
    requires |NextChunk(d, call).desk.slots[j].w.log| <= d.slots[j].at + SIZE
    ensures Carried(d, NextChunk(d, call), j)
  {
    ScanKeeps(d, call, 0, j);
  }

  /** In every call the log of buffer `j`, unpublished copies included, ends within the ring of where its reader was. */
  ghost predicate InRing(d: Desk, calls: seq<Call>, j: nat)
    requires d.Ok() && Calls(calls) && j < NUM_BUFFERS
    decreases |calls|
  {
    calls == [] ||
    var init := calls[..|calls| - 1];
    && InRing(d, init, j)
    && |Drain(d, calls).slots[j].w.log| <= Drain(d, init).slots[j].at + SIZE
  }

  /** Over any run in which the writer, however it writes, stays within the ring, and for any chunk sizes, what buffer
      `j` gives concatenates to exactly the piece of its log from where it started to where its reader is. */
  lemma {:induction false} PayloadsAreTheLog(d: Desk, calls: seq<Call>, j: nat)
    requires d.Ok() && j < NUM_BUFFERS && Calls(calls) && forall k :: 0 <= k < |calls| ==> Roomy(calls[k])
    requires Faithful(d.slots[j]) && d.slots[j].from == d.slots[j].at && InRing(d, calls, j)
    ensures var t := Drain(d, calls).slots[j];
            && Faithful(t) && t.from == d.slots[j].at && t.delivered == Payloads(d, calls, j)
            && Payloads(d, calls, j) == t.w.log[d.slots[j].at..t.at]
    decreases |calls|
  {
    if calls != [] {
      var init := calls[..|calls| - 1];
      PayloadsAreTheLog(d, init, j);
      hide NextChunk, Roomy;
      CallKeeps(Drain(d, init), calls[|calls| - 1], j);
    }
  }

  /** Of any three calls, one serves a buffer that has something pending and whose writer stays within the ring: at most
      two chunks from others come first. */
  lemma {:induction false} ServedWithinThree(d: Desk, a: Call, b: Call, c: Call, j: nat)
    requires d.Ok() && Roomy(a) && Roomy(b) && Roomy(c) && j < NUM_BUFFERS
    requires Faithful(d.slots[j]) && d.slots[j].Pending() && InRing(d, [a] + [b] + [c], j)
    ensures var g := NextChunk(d, a);
            var h := NextChunk(g.desk, b);
            var i := NextChunk(h.desk, c);
            || (g.served == j && g.payload != [])
            || (h.served == j && h.payload != [])
            || (i.served == j && i.payload != [])
  {
    hide NextChunk, Roomy, Faithful;
    RoomyHasRooms(a);
    RoomyHasRooms(b);
    RoomyHasRooms(c);
    InRingLast(d, [], a, j);
    InRingLast(d, [] + [a], b, j);
    InRingLast(d, [] + [a] + [b], c, j);
    assert [] + [a] == [a];
    var g := NextChunk(d, a);
    CallKeeps(d, a, j);
    if g.served != j {
      var h := NextChunk(g.desk, b);
      CallKeeps(g.desk, b, j);
      if h.served != j {
        CallKeeps(h.desk, c, j);
      }
    }
  }

  lemma {:induction false} InRingLast(d: Desk, calls: seq<Call>, call: Call, j: nat)
    requires d.Ok() && Calls(calls) && |call.rooms| == NUM_BUFFERS && j < NUM_BUFFERS
    requires Calls(calls + [call]) && InRing(d, calls + [call], j)
    ensures InRing(d, calls, j) && Drain(d, calls + [call]) == NextChunk(Drain(d, calls), call).desk
    ensures |Drain(d, calls + [call]).slots[j].w.log| <= Drain(d, calls).slots[j].at + SIZE
  {
    hide NextChunk;
    assert (calls + [call])[..|calls|] == calls;
  }

  lemma RoomyHasRooms(call: Call)
    requires Roomy(call)
    ensures |call.rooms| == NUM_BUFFERS
  {
  }

  // ----- Waiting writers stay within the ring -----

  /** Buffer `j`'s writer waits for space in this call. */
  ghost predicate WaitsIn(call: Call, j: nat) {
    forall q :: Waits(call.envs(j)(q))
  }

  lemma {:induction false} ScanWaits(d: Desk, call: Call, scan: nat, j: nat)
    requires d.Ok() && |call.rooms| == NUM_BUFFERS && j < NUM_BUFFERS && WaitsIn(call, j) && Backpressured(d.slots[j])
    requires scan + Distance(d.next, j) < NUM_BUFFERS
    ensures var t := Scan(d, call, scan).desk.slots[j]; Backpressured(t) && |t.w.log| <= d.slots[j].at + SIZE
    decreases NUM_BUFFERS - scan
  {
    hide Scan, ReadOutcome, ReadSlot, Waits;
    var i := d.next;
    ScanStops(d, call, scan);
    if call.rooms[i] > 0 {
      var payload := ReadOutcome(d.slots[i].w, d.slots[i].at, call.envs(i), call.rooms[i]).data;
      var desk := Desk(d.slots[i := ReadSlot(d.slots[i], call.envs(i), call.rooms[i])], (i + 1) % 3);
      ScanAsks(d, call, scan, desk, payload);
      if i == j {
        ScanPassed(desk, call, scan + 1, j);
        WaitingInRing(d.slots[j], call.envs(j), call.rooms[j]);
      } else if payload == [] {
        ScanWaits(desk, call, scan + 1, j);
      }
    }
  }

  /** So what holds of runs within the ring holds of all runs with a waiting writer. */
  lemma {:induction false} WaitingRunInRing(d: Desk, calls: seq<Call>, j: nat)
    requires d.Ok() && j < NUM_BUFFERS && Calls(calls) && Backpressured(d.slots[j])
    requires forall k :: 0 <= k < |calls| ==> WaitsIn(calls[k], j)
    ensures InRing(d, calls, j) && Backpressured(Drain(d, calls).slots[j])
    decreases |calls|
  {
    hide Scan, Backpressured, WaitsIn;
    if calls != [] {
      var init, last := calls[..|calls| - 1], calls[|calls| - 1];
      WaitingRunInRing(d, init, j);
      ScanWaits(Drain(d, init), last, 0, j);
    }
  }

  // ----- Writers are always shown where the reader is -----

  ghost predicate AllShown(d: Desk) {
    forall j :: 0 <= j < |d.slots| ==> Shown(d.slots[j])
  }

  lemma {:induction false} ScanShows(d: Desk, call: Call, scan: nat)
    requires d.Ok() && |call.rooms| == NUM_BUFFERS && scan <= NUM_BUFFERS && AllShown(d)
    ensures AllShown(Scan(d, call, scan).desk)
    decreases NUM_BUFFERS - scan
  {
    hide ReadOutcome, ReadSlot, Shown;
    if scan < NUM_BUFFERS && call.rooms[d.next] > 0 {
      var i := d.next;
      ReadShows(d.slots[i], call.envs(i), call.rooms[i]);
      ScanShows(Desk(d.slots[i := ReadSlot(d.slots[i], call.envs(i), call.rooms[i])], (i + 1) % 3), call, scan + 1);
    }
  }

  /** Over any run of calls, whatever the writers do. */
  lemma {:induction false} DrainShows(d: Desk, calls: seq<Call>)
    requires d.Ok() && Calls(calls) && AllShown(d)
    ensures AllShown(Drain(d, calls))
    decreases |calls|
  {
    hide Scan, AllShown;
    if calls != [] {
      var init := calls[..|calls| - 1];
      DrainShows(d, init);
      ScanShows(Drain(d, init), calls[|calls| - 1], 0);
    }
  }

  // ----- Runs of writers that publish at once -----

  /** Buffer `j`'s writer publishes at once in this call. */
  ghost predicate PromptIn(call: Call, j: nat) {
    |call.rooms| == NUM_BUFFERS && j < NUM_BUFFERS && forall q :: Prompt(call.envs(j)(q))
  }

  lemma {:induction false} ScanPrompt(d: Desk, call: Call, scan: nat, j: nat)
    requires d.Ok() && PromptIn(call, j) && AllPublished(d.slots[j]) && scan + Distance(d.next, j) < NUM_BUFFERS
    requires |Scan(d, call, scan).desk.slots[j].w.log| - d.slots[j].at < TWO32
    ensures AllPublished(Scan(d, call, scan).desk.slots[j])
    decreases NUM_BUFFERS - scan
  {
    hide Scan, ReadOutcome, ReadSlot, Prompt, AllPublished;
    var i := d.next;
    ScanStops(d, call, scan);
    if call.rooms[i] > 0 {
      var payload := ReadOutcome(d.slots[i].w, d.slots[i].at, call.envs(i), call.rooms[i]).data;
      var desk := Desk(d.slots[i := ReadSlot(d.slots[i], call.envs(i), call.rooms[i])], (i + 1) % 3);
      ScanAsks(d, call, scan, desk, payload);
      if i == j {
        ScanPassed(desk, call, scan + 1, j);
        PromptKeeps(d.slots[j], call.envs(j), call.rooms[j]);
      } else if payload == [] {
        ScanPrompt(desk, call, scan + 1, j);
      }
    }
  }

  lemma {:induction false} CallPrompt(d: Desk, call: Call, j: nat)
    requires d.Ok() && PromptIn(call, j) && AllPublished(d.slots[j])
    requires |NextChunk(d, call).desk.slots[j].w.log| - d.slots[j].at < TWO32
    ensures AllPublished(NextChunk(d, call).desk.slots[j])
  {
    hide Scan, AllPublished, Prompt;
    ScanPrompt(d, call, 0, j);
  }

  /** In no call does the writer of buffer `j` get 2^32 bytes ahead of its reader. */
  ghost predicate NeverFarBehind(d: Desk, calls: seq<Call>, j: nat)
    requires d.Ok() && Calls(calls) && j < NUM_BUFFERS
    decreases |calls|
  {
    calls == [] ||
    var init := calls[..|calls| - 1];
    && NeverFarBehind(d, init, j)
    && |Drain(d, calls).slots[j].w.log| - Drain(d, init).slots[j].at < TWO32
  }

  /** Over any run in which the writer publishes at once and is never 2^32 bytes ahead, what has been delivered since
      the last drop is exactly the log up to the reader. */
  lemma {:induction false} PromptRunIsTheLog(d: Desk, calls: seq<Call>, j: nat)
    requires d.Ok() && j < NUM_BUFFERS && Calls(calls) && AllPublished(d.slots[j]) && NeverFarBehind(d, calls, j)
    requires forall k :: 0 <= k < |calls| ==> PromptIn(calls[k], j)
    ensures var t := Drain(d, calls).slots[j];
            AllPublished(t) && t.delivered == t.w.log[t.from..t.at]
    decreases |calls|
  {
    hide NextChunk, PromptIn;
    PublishedIsFaithful(Drain(d, calls).slots[j]);
    hide AllPublished;
    if calls != [] {
      var init, last := calls[..|calls| - 1], calls[|calls| - 1];
      PromptRunIsTheLog(d, init, j);
      CallPrompt(Drain(d, init), last, j);
    }
  }

  lemma PublishedIsFaithful(s: Slot)
    ensures AllPublished(s) ==> s.Ok() && s.delivered == s.w.log[s.from..s.at]
  {
  }
}
