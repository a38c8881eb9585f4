/** The compressor's output is settled by what is proved of it: there is one block that a source can be packed into. */
module Lz4Unique {
  import opened Bytes
  import opened Lz4Format
  import opened Lz4Pack
  import opened Lz4Search

  // ----- A block for a source describes the source -----

  lemma {:induction false} CopyRepeats(out: seq<byte>, offset: nat, n: nat)
    requires 1 <= offset <= |out|
    ensures var r := CopyMatch(out, offset, n);
            out <= r && forall k :: |out| <= k < |r| ==> r[k] == r[k - offset]
    decreases n
  {
    if n > 0 {
      CopyRepeats(out + [out[|out| - offset]], offset, n - 1);
      var r := CopyMatch(out, offset, n);
      assert out + [out[|out| - offset]] <= r && r[|out|] == out[|out| - offset];
    }
  }

  lemma ExpandedOne(before: seq<byte>, s: Sequence, src: seq<byte>)
    requires LegalOne(s, |before|, |src|) && ExpandOne(before, s) <= src
    requires var end := |before| + Produced(s); end + LASTLITERALS == |src| || src[end] != src[end - s.offset]
    ensures DescribesOne(s, |before|, src) && before == src[..|before|]
  {
    var lits, all, start := before + s.literals, ExpandOne(before, s), |before| + |s.literals|;
    CopyRepeats(lits, s.offset, s.matchLen);
    assert all == src[..|all|] && lits == src[..start];
    assert s.literals == src[|before|..start] && before == src[..|before|];
    forall k | start <= k < start + s.matchLen
      ensures src[k] == src[k - s.offset]
    {
      assert all[k] == all[k - s.offset];
    }
  }

  /** Sequences that are legal, longest and expand to a prefix of the source describe it. */
  lemma {:induction false} ExpandedDescribes(ss: seq<Sequence>, src: seq<byte>)
    requires Legal(ss, |src|) && Longest(ss, src) && AllExpandable(ss) && Expand(ss) <= src
    ensures Describes(ss, src)
    decreases ss
  {
    if ss != [] {
      hide DescribesOne, LegalOne, ExpandOne;
      ExpandedOne(Expand(Init(ss)), Last(ss), src);
      ExpandedDescribes(Init(ss), src);
    }
  }

  lemma BlockDescribes(b: Block, src: seq<byte>)
    requires IsBlockOf(b, src)
    ensures Describes(b.sequences, src) && EndOf(b.sequences) <= |src| && b.tail == src[EndOf(b.sequences)..]
  {
    ExpandedDescribes(b.sequences, src);
  }

  lemma {:induction false} DescribesAt(ss: seq<Sequence>, src: seq<byte>, k: nat)
    requires Describes(ss, src) && k < |ss|
    ensures DescribesOne(ss[k], EndOf(ss[..k]), src) && EndOf(ss[..k + 1]) == EndOf(ss[..k]) + Produced(ss[k])
    decreases |ss|
  {
    assert Init(ss[..k + 1]) == ss[..k];
    if k < |ss| - 1 {
      DescribesAt(Init(ss), src, k);
      assert Init(ss)[..k] == ss[..k];
    }
  }

  // ----- The order of matches and of positions looked at -----

  lemma {:induction false} EndsGrow(ss: seq<Sequence>, src: seq<byte>, j: nat, k: nat)
    requires Describes(ss, src) && j <= k <= |ss|
    ensures EndOf(ss[..j]) <= EndOf(ss[..k])
    decreases k
  {
    if j < k {
      EndsGrow(ss, src, j, k - 1);
      DescribesAt(ss, src, k - 1);
    }
  }

  lemma StartWithin(ss: seq<Sequence>, src: seq<byte>, k: nat)
    requires Describes(ss, src) && k < |ss|
    ensures EndOf(ss[..k]) <= Start(ss, k) < EndOf(ss[..k + 1]) && Start(ss, k) + MFLIMIT < |src|
  {
    DescribesAt(ss, src, k);
  }

  lemma StartsOrdered(ss: seq<Sequence>, src: seq<byte>, j: nat, k: nat)
    requires Describes(ss, src) && j < |ss| && k <= |ss|
    ensures j < k ==> Start(ss, j) < EndOf(ss[..k])
    ensures k <= j ==> EndOf(ss[..k]) <= Start(ss, j)
    ensures k < j ==> Start(ss, k) < Start(ss, j)
  {
    hide Describes, Start, EndOf;
    StartWithin(ss, src, j);
    if j < k {
      EndsGrow(ss, src, j + 1, k);
    } else {
      EndsGrow(ss, src, k, j);
      if k < j {
        StartWithin(ss, src, k);
        EndsGrow(ss, src, k + 1, j);
      }
    }
  }

  lemma LooksNext(ss: seq<Sequence>, k: nat)
    requires k < |ss|
    ensures LooksOf(ss[..k + 1]) == LooksOf(ss[..k]) + Looks(EndOf(ss[..k]), 0, Start(ss, k) + 1)
  {
    assert Init(ss[..k + 1]) == ss[..k] && Last(ss[..k + 1]) == ss[k];
  }

  /** What is looked at before the `k`-th match ends lies before its end. */
  lemma {:induction false} LooksBefore(ss: seq<Sequence>, src: seq<byte>, k: nat)
    requires Describes(ss, src) && k <= |ss|
    ensures Before(LooksOf(ss[..k]), EndOf(ss[..k]))
    decreases k
  {
    if k > 0 {
      LooksBefore(ss, src, k - 1);
      LooksNext(ss, k - 1);
      StartWithin(ss, src, k - 1);
    }
  }

  lemma {:induction false} LooksPrefix(from: nat, misses: nat, e: int, f: int)
    requires e <= f
    ensures Looks(from, misses, e) <= Looks(from, misses, f)
    decreases f - from
  {
    if from < e {
      LooksPrefix(from + 1 + misses / 64, misses + 1, e, f);
    }
  }

  /** `p` is one of the positions looked at from `from` on. */
  predicate Visits(from: nat, p: nat) {
    Looks(from, 0, p + 1) == Looks(from, 0, p) + [p]
  }

  lemma {:induction false} LooksLast(from: nat, misses: nat, p: nat)
    requires p in Looks(from, misses, p + 1)
    ensures Looks(from, misses, p + 1) == Looks(from, misses, p) + [p]
    decreases p + 1 - from
  {
    var next := from + 1 + misses / 64;
    assert Looks(from, misses, p + 1) == [from] + Looks(next, misses + 1, p + 1);
    if from == p {
      assert Looks(next, misses + 1, p + 1) == [];
    } else {
      LooksLast(next, misses + 1, p);
    }
  }

  lemma Grown(a: seq<nat>, b: seq<nat>, c: seq<nat>, end: nat)
    requires a <= b && (forall x :: |a| <= x < |b| ==> b[x] >= end) && forall x :: 0 <= x < |c| ==> c[x] >= end
    ensures a <= b + c && forall x :: |a| <= x < |b + c| ==> (b + c)[x] >= end
  {
  }

  /** Later stretches only add later positions. */
  lemma {:induction false} LaterLooks(ss: seq<Sequence>, src: seq<byte>, k: nat, m: nat)
    requires Describes(ss, src) && k <= m <= |ss|
    ensures LooksOf(ss[..k]) <= LooksOf(ss[..m])
    ensures forall x :: |LooksOf(ss[..k])| <= x < |LooksOf(ss[..m])| ==> LooksOf(ss[..m])[x] >= EndOf(ss[..k])
    decreases m
  {
    if k < m {
      hide Describes, Start, EndOf, LooksOf;
      LaterLooks(ss, src, k, m - 1);
      LooksNext(ss, m - 1);
      EndsGrow(ss, src, k, m - 1);
      Grown(LooksOf(ss[..k]), LooksOf(ss[..m - 1]), Looks(EndOf(ss[..m - 1]), 0, Start(ss, m - 1) + 1), EndOf(ss[..k]));
    }
  }

  lemma NotBefore(before: seq<nat>, all: seq<nat>, x: nat, end: nat)
    requires before <= all && Before(before, end) && x < |all| && end <= all[x]
    ensures |before| <= x
  {
  }

  lemma StartIsVisited(ss: seq<Sequence>, src: seq<byte>, k: nat)
    requires Describes(ss, src) && Found(ss, src) && k < |ss|
    ensures Visits(EndOf(ss[..k]), Start(ss, k))
  {
    hide Describes, Start, EndOf, LooksOf, DecidedAll, Looks;
    var p, all := Start(ss, k), LooksOf(ss);
    assert ss[..|ss|] == ss;
    StartWithin(ss, src, k);
    LooksBefore(ss, src, k);
    LooksNext(ss, k);
    LaterLooks(ss, src, k + 1, |ss|);
    var x :| 0 <= x < |all| && all[x] == p;
    var before := LooksOf(ss[..k]);
    assert before + Looks(EndOf(ss[..k]), 0, p + 1) <= all;
    NotBefore(before, all, x, EndOf(ss[..k]));
    assert p == Looks(EndOf(ss[..k]), 0, p + 1)[x - |before|];
    LooksLast(EndOf(ss[..k]), 0, p);
  }

  /** How far the search from the end of the `k`-th match goes. */
  function SearchEnd(ss: seq<Sequence>, n: nat, k: nat): int
    requires k <= |ss|
  {
    if k < |ss| then Start(ss, k) + 1 else n - MFLIMIT
  }

  lemma {:induction false} LooksOnward(ss: seq<Sequence>, src: seq<byte>, k: nat)
    requires Describes(ss, src) && k <= |ss|
    ensures LooksOf(ss[..k]) + Looks(EndOf(ss[..k]), 0, SearchEnd(ss, |src|, k)) <= AllLooks(ss, |src|)
  {
    hide Describes, Start, EndOf, LooksOf, Looks;
    assert ss[..|ss|] == ss;
    if k < |ss| {
      LooksNext(ss, k);
      LaterLooks(ss, src, k + 1, |ss|);
    }
  }

  /** What is decided at a position that the search from the end of the `k`-th match visits. */
  lemma DecidedAt(ss: seq<Sequence>, src: seq<byte>, k: nat, p: nat)
    requires Describes(ss, src) && Found(ss, src) && k <= |ss|
    requires p < SearchEnd(ss, |src|, k) && Visits(EndOf(ss[..k]), p)
    ensures Decided(ss, src, LooksOf(ss[..k]) + Looks(EndOf(ss[..k]), 0, p), p)
  {
    hide Describes, Start, EndOf, LooksOf, Looks, Decided, SearchEnd;
    var at := EndOf(ss[..k]);
    var looked, all := LooksOf(ss[..k]) + Looks(at, 0, p), AllLooks(ss, |src|);
    LooksOnward(ss, src, k);
    LooksPrefix(at, 0, p + 1, SearchEnd(ss, |src|, k));
    assert looked + [p] <= all;
    assert all[..|looked|] == looked && all[|looked|] == p;
  }

  // ----- One block -----

  /** After the same sequences, the one that matches first decides for both. */
  lemma SameStart(ss: seq<Sequence>, tt: seq<Sequence>, src: seq<byte>, k: nat)
    requires Describes(ss, src) && Found(ss, src) && Describes(tt, src) && Found(tt, src)
    requires k < |ss| && k <= |tt| && ss[..k] == tt[..k] && (k < |tt| ==> Start(ss, k) <= Start(tt, k))
    ensures k < |tt| && Start(tt, k) == Start(ss, k) && tt[k].offset == ss[k].offset
  {
    hide Describes, Found, EndOf, LooksOf, Looks, Usable, Visits;
    var p, at := Start(ss, k), EndOf(ss[..k]);
    var looked := LooksOf(ss[..k]) + Looks(at, 0, p);
    StartIsVisited(ss, src, k);
    StartWithin(ss, src, k);
    DecidedAt(ss, src, k, p);
    DecidedAt(tt, src, k, p);
    assert IsStart(ss, p);
    assert IsStart(tt, p);
    var j :| 0 <= j < |tt| && Start(tt, j) == p;
    StartsOrdered(tt, src, j, k);
    SameOffset(src, looked, p, ss[k].offset, tt[j].offset);
  }

  lemma SameOffset(src: seq<byte>, looked: seq<nat>, p: nat, o: nat, o': nat)
    requires InReach(looked, src) && p + 4 <= |src| && o <= p && o' <= p
    requires Usable(looked, src, p, p - o) && Usable(looked, src, p, p - o')
    ensures o == o'
  {
    LatestIsUnique(looked, src, p, p - o, p - o');
  }

  lemma MatchedAt(s: Sequence, at: nat, src: seq<byte>, k: nat)
    requires DescribesOne(s, at, src) && at + |s.literals| <= k
    ensures k < at + Produced(s) ==> src[k] == src[k - s.offset]
  {
  }

  lemma SameLength(s: Sequence, t: Sequence, at: nat, src: seq<byte>)
    requires DescribesOne(s, at, src) && DescribesOne(t, at, src)
    requires |s.literals| == |t.literals| && s.offset == t.offset
    ensures s.matchLen <= t.matchLen
  {
    MatchedAt(s, at, src, at + Produced(t));
  }

  lemma SameNext(ss: seq<Sequence>, tt: seq<Sequence>, src: seq<byte>, k: nat)
    requires Describes(ss, src) && Found(ss, src) && Describes(tt, src) && Found(tt, src)
    requires k < |ss| && k <= |tt| && ss[..k] == tt[..k]
    ensures k < |tt| && tt[k] == ss[k]
  {
    hide Describes, Found, Start;
    if k < |tt| && Start(tt, k) < Start(ss, k) {
      SameStart(tt, ss, src, k);
    } else {
      SameStart(ss, tt, src, k);
    }
    StartIs(ss, k);
    StartIs(tt, k);
    DescribesAt(ss, src, k);
    DescribesAt(tt, src, k);
    SameLength(ss[k], tt[k], EndOf(ss[..k]), src);
    SameLength(tt[k], ss[k], EndOf(ss[..k]), src);
  }

  lemma StartIs(ss: seq<Sequence>, k: nat)
    requires k < |ss|
    ensures Start(ss, k) == EndOf(ss[..k]) + |ss[k].literals|
  {
  }

  lemma {:induction false} SameSequences(ss: seq<Sequence>, tt: seq<Sequence>, src: seq<byte>, k: nat)
    requires Describes(ss, src) && Found(ss, src) && Describes(tt, src) && Found(tt, src)
    requires k <= |ss| && k <= |tt| && ss[..k] == tt[..k]
    ensures ss == tt
    decreases |ss| - k
  {
    hide Describes, Found;
    if k < |ss| {
      SameNext(ss, tt, src, k);
      assert ss[..k + 1] == ss[..k] + [ss[k]] && tt[..k + 1] == tt[..k] + [tt[k]];
      SameSequences(ss, tt, src, k + 1);
    } else if k < |tt| {
      SameNext(tt, ss, src, k);
    } else {
      assert ss == ss[..k] && tt == tt[..k];
    }
  }

  /** Two blocks for one source, both with the sequences that the search finds, are the same. */
  lemma OnlyBlock(b: Block, c: Block, src: seq<byte>)
    requires IsBlockOf(b, src) && Found(b.sequences, src) && IsBlockOf(c, src) && Found(c.sequences, src)
    ensures b == c
  {
    hide IsBlockOf, Found, Describes;
    BlockDescribes(b, src);
    BlockDescribes(c, src);
    SameSequences(b.sequences, c.sequences, src, 0);
  }

  // ----- What that comes to on equal bytes -----

  ghost predicate AllEqual(src: seq<byte>) {
    forall k :: 0 <= k < |src| ==> src[k] == src[0]
  }

  lemma EqualWords(src: seq<byte>, p: nat, q: nat)
    requires AllEqual(src) && p + 4 <= |src| && q + 4 <= |src|
    ensures src[p..p + 4] == src[q..q + 4] && HashAt(src, p) == HashAt(src, q)
  {
    hide Hash;
    assert src[p..p + 4] == [src[0], src[0], src[0], src[0]] == src[q..q + 4];
  }

  /** The first two positions are 0, where no match can begin, and 1. */
  lemma FirstLooks(end: int)
    requires end >= 2
    ensures Looks(0, 0, 0) == [] && Looks(0, 0, 1) == [0] && Looks(0, 0, 2) == [0, 1]
    ensures Visits(0, 0) && Visits(0, 1)
  {
    assert Looks(1, 1, 1) == [] && Looks(1, 1, 2) == [1] + Looks(2, 2, 2);
  }

  /** At the second of equal bytes there is a match with the first. */
  lemma EqualMatchesAtOne(src: seq<byte>, ss: seq<Sequence>)
    requires |src| >= 14 && AllEqual(src) && Describes(ss, src) && Found(ss, src)
    ensures ss != [] && Start(ss, 0) == 1 && ss[0].offset == 1
  {
    hide Describes, Found, Looks, HashAt, Usable;
    FirstLooks(2);
    assert ss[..0] == [] && LooksOf([]) == [] && EndOf([]) == 0;
    if ss != [] {
      NotAtZero(src, ss);
      StartIsVisited(ss, src, 0);
    }
    DecidedAt(ss, src, 0, 1);
    assert LooksOf([]) + Looks(0, 0, 1) == [0];
    UsableAtOne(src);
    assert IsStart(ss, 1);
    var j :| 0 <= j < |ss| && Start(ss, j) == 1;
    StartsOrdered(ss, src, j, 0);
  }

  lemma UsableAtOne(src: seq<byte>)
    requires |src| >= 14 && AllEqual(src)
    ensures InReach([0], src) && Usable([0], src, 1, 0) && forall q :: Usable([0], src, 1, q) ==> q == 0
  {
    hide HashAt;
    EqualWords(src, 0, 1);
  }

  lemma NotAtZero(src: seq<byte>, ss: seq<Sequence>)
    requires |src| >= 14 && Describes(ss, src) && Found(ss, src) && ss != []
    ensures Start(ss, 0) >= 1
  {
    hide Describes, Found, Looks, HashAt, Latest;
    FirstLooks(2);
    assert ss[..0] == [] && LooksOf([]) == [] && EndOf([]) == 0;
    DecidedAt(ss, src, 0, 0);
    assert LooksOf([]) + Looks(0, 0, 0) == [];
    NothingUsable(src);
  }

  lemma NothingUsable(src: seq<byte>)
    requires |src| >= 4
    ensures forall q :: !Usable([], src, 0, q)
  {
  }

  /** So 14 equal bytes or more pack into one literal, one match of offset 1, and the five closing literals. */
  lemma EqualBytes(b: Block, src: seq<byte>)
    requires |src| >= 14 && AllEqual(src) && IsBlockOf(b, src) && Found(b.sequences, src)
    ensures b == Block([Sequence([src[0]], 1, |src| - 6)], src[|src| - 5..])
  {
    hide IsBlockOf, Found, Describes, Start;
    var ss := b.sequences;
    BlockDescribes(b, src);
    EqualMatchesAtOne(src, ss);
    StartIs(ss, 0);
    DescribesAt(ss, src, 0);
    assert ss[..0] == [] && EndOf([]) == 0;
    MatchToTheEnd(ss[0], src);
    if |ss| > 1 {
      StartWithin(ss, src, 1);
    }
    assert ss == [ss[0]] && ss[..1] == ss;
  }

  lemma MatchToTheEnd(s: Sequence, src: seq<byte>)
    requires AllEqual(src) && DescribesOne(s, 0, src) && |s.literals| == 1 && s.offset == 1
    ensures s == Sequence([src[0]], 1, |src| - 6)
  {
    assert s.literals == [src[0]];
  }
}
