/** Where the packer's compressor looks for matches, and what it then does, said of the finished sequences alone. */
module Lz4Search {
  import opened Bytes
  import opened Lz4Format

  const HASH_SIZE := 0x1_0000

  function WordAt(src: seq<byte>, i: nat): (v: u32)
    requires i + 4 <= |src|
  {
    FromLe32(src[i..i + 4])
  }

  function Hash(v: nat): (h: nat)
    requires v < TWO32
    ensures h < HASH_SIZE
  {
    Wrap32(v * 2654435761) / 0x1_0000
  }

  function HashAt(src: seq<byte>, i: nat): (h: nat)
    requires i + 4 <= |src|
    ensures h < HASH_SIZE
  {
    Hash(WordAt(src, i))
  }

  // ----- The positions looked at -----

  /** From `from` on and before `end`, after so many misses in a row: the steps grow by one every 64 misses. */
  function Looks(from: nat, misses: nat, end: int): (looked: seq<nat>)
    ensures forall k :: 0 <= k < |looked| ==> from <= looked[k] < end
    ensures from < end ==> |looked| > 0 && looked[0] == from
    decreases end - from
  {
    if from >= end then [] else [from] + Looks(from + 1 + misses / 64, misses + 1, end)
  }

  /** Where the next match begins if `s` comes after output of `at` bytes. */
  function StartAfter(at: nat, s: Sequence): nat {
    at + |s.literals|
  }

  /** Where the `j`-th match begins. */
  function Start(ss: seq<Sequence>, j: nat): nat
    requires j < |ss|
  {
    StartAfter(EndOf(ss[..j]), ss[j])
  }

  /** All positions up to the start of the last match: each search goes on at the end of the match before. */
  function LooksOf(ss: seq<Sequence>): seq<nat> {
    if ss == [] then []
    else LooksOf(Init(ss)) + Looks(EndOf(Init(ss)), 0, StartAfter(EndOf(Init(ss)), Last(ss)) + 1)
  }

  /** And those after the last match, up to the last position at which a match may begin in `n` bytes. */
  function AllLooks(ss: seq<Sequence>, n: nat): seq<nat> {
    LooksOf(ss) + Looks(EndOf(ss), 0, n - MFLIMIT)
  }

  // ----- What is decided at a position -----

  /** Words can be read at all of these. */
  ghost predicate InReach(looked: seq<nat>, src: seq<byte>) {
    forall k :: 0 <= k < |looked| ==> looked[k] + 4 <= |src|
  }

  /** `q` is the latest of `looked` with the hash of position `p`. */
  ghost predicate Latest(looked: seq<nat>, src: seq<byte>, p: nat, q: nat)
    requires InReach(looked, src) && p + 4 <= |src|
  {
    && q in looked && HashAt(src, q) == HashAt(src, p)
    && forall r :: r in looked && HashAt(src, r) == HashAt(src, p) ==> r <= q
  }

  /** That one lies near enough and has the same four bytes. */
  ghost predicate Usable(looked: seq<nat>, src: seq<byte>, p: nat, q: nat)
    requires InReach(looked, src) && p + 4 <= |src|
  {
    Latest(looked, src, p, q) && q < p <= q + 0xFFFF && src[q..q + 4] == src[p..p + 4]
  }

  ghost predicate IsStart(ss: seq<Sequence>, p: nat) {
    exists j :: 0 <= j < |ss| && Start(ss, j) == p
  }

  /** A match begins at `p` exactly if there is a usable position among those looked at before, and copies from it. */
  ghost predicate Decided(ss: seq<Sequence>, src: seq<byte>, looked: seq<nat>, p: nat) {
    && InReach(looked, src) && p + 4 <= |src|
    && (IsStart(ss, p) <==> exists q :: Usable(looked, src, p, q))
    && forall j {:trigger Start(ss, j)} :: 0 <= j < |ss| && Start(ss, j) == p ==>
         ss[j].offset <= p && Usable(looked, src, p, p - ss[j].offset)
  }

  ghost predicate DecidedAll(ss: seq<Sequence>, src: seq<byte>, looked: seq<nat>) {
    forall k :: 0 <= k < |looked| ==> Decided(ss, src, looked[..k], looked[k])
  }

  /** The sequences are what the search finds in `src`: every match begins where it looks, and at every position looked
      at it is decided so. */
  ghost predicate Found(ss: seq<Sequence>, src: seq<byte>) {
    && DecidedAll(ss, src, AllLooks(ss, |src|))
    && forall j :: 0 <= j < |ss| ==> Start(ss, j) in LooksOf(ss)
  }

  // ----- What the compressor's loop keeps -----

  predicate Before(looked: seq<nat>, end: int) {
    forall k :: 0 <= k < |looked| ==> looked[k] < end
  }

  /** With `since` looked at from `anchor` on, `i` comes next, after `misses` misses. */
  ghost predicate Reached(anchor: nat, since: seq<nat>, i: nat, misses: nat) {
    forall end: int {:trigger Looks(anchor, 0, end)} :: Before(since, end) ==>
      Looks(anchor, 0, end) == since + Looks(i, misses, end)
  }

  lemma ReachedNothing(anchor: nat)
    ensures Reached(anchor, [], anchor, 0)
  {
  }

  lemma ReachedMiss(anchor: nat, since: seq<nat>, i: nat, misses: nat)
    requires Reached(anchor, since, i, misses)
    ensures Reached(anchor, since + [i], i + 1 + misses / 64, misses + 1)
  {
    forall end: int | Before(since + [i], end)
      ensures Looks(anchor, 0, end) == since + [i] + Looks(i + 1 + misses / 64, misses + 1, end)
    {
      assert (since + [i])[|since|] == i;
      assert Before(since, end) by {
        forall k | 0 <= k < |since|
          ensures since[k] < end
        {
          assert (since + [i])[k] == since[k];
        }
      }
      assert Looks(anchor, 0, end) == since + Looks(i, misses, end);
      assert since + ([i] + Looks(i + 1 + misses / 64, misses + 1, end))
          == since + [i] + Looks(i + 1 + misses / 64, misses + 1, end);
    }
  }

  lemma ReachedHit(anchor: nat, since: seq<nat>, i: nat, misses: nat)
    requires Reached(anchor, since, i, misses) && Before(since, i)
    ensures Looks(anchor, 0, i + 1) == since + [i]
  {
    assert Before(since, i + 1) && Looks(i, misses, i + 1) == [i];
  }

  /** The search so far: everything looked at lies before `i` and is decided. */
  ghost predicate Searching(ss: seq<Sequence>, src: seq<byte>, since: seq<nat>, i: nat, misses: nat) {
    && Reached(EndOf(ss), since, i, misses)
    && Before(LooksOf(ss) + since, i) && Before(LooksOf(ss) + since, |src| - MFLIMIT)
    && DecidedAll(ss, src, LooksOf(ss) + since)
    && forall j :: 0 <= j < |ss| ==> Start(ss, j) in LooksOf(ss)
  }

  lemma SearchBegins(src: seq<byte>)
    ensures Searching([], src, [], 0, 0)
  {
    ReachedNothing(0);
  }

  lemma LatestIsUnique(looked: seq<nat>, src: seq<byte>, p: nat, q: nat, r: nat)
    requires InReach(looked, src) && p + 4 <= |src| && Latest(looked, src, p, q) && Latest(looked, src, p, r)
    ensures q == r
  {
  }

  lemma DecidedAppend(ss: seq<Sequence>, src: seq<byte>, looked: seq<nat>, p: nat)
    requires DecidedAll(ss, src, looked) && Decided(ss, src, looked, p)
    ensures DecidedAll(ss, src, looked + [p])
  {
    var all := looked + [p];
    forall k | 0 <= k < |all|
      ensures Decided(ss, src, all[..k], all[k])
    {
      if k < |looked| {
        assert all[..k] == looked[..k];
      } else {
        assert all[..k] == looked;
      }
    }
  }

  lemma SearchIsBefore(ss: seq<Sequence>, src: seq<byte>, since: seq<nat>, i: nat, misses: nat)
    requires Searching(ss, src, since, i, misses)
    ensures forall j :: 0 <= j < |ss| ==> Start(ss, j) < i
    ensures Before(since, i) && Before(since, |src| - MFLIMIT)
  {
    hide Reached, DecidedAll, Start, LooksOf;
    forall k | 0 <= k < |since|
      ensures since[k] < i && since[k] < |src| - MFLIMIT
    {
      assert (LooksOf(ss) + since)[|LooksOf(ss)| + k] == since[k];
    }
    forall j | 0 <= j < |ss|
      ensures Start(ss, j) < i
    {
      assert Start(ss, j) in LooksOf(ss) + since;
    }
  }

  /** No usable position: no match begins at `i`, and the search goes on. */
  lemma SearchMisses(ss: seq<Sequence>, src: seq<byte>, since: seq<nat>, i: nat, misses: nat)
    requires Searching(ss, src, since, i, misses) && i + MFLIMIT < |src|
    requires InReach(LooksOf(ss) + since, src) && forall q :: !Usable(LooksOf(ss) + since, src, i, q)
    ensures Searching(ss, src, since + [i], i + 1 + misses / 64, misses + 1)
    ensures LooksOf(ss) + (since + [i]) == LooksOf(ss) + since + [i]
  {
    hide Usable, Reached, LooksOf;
    var looked := LooksOf(ss) + since;
    SearchIsBefore(ss, src, since, i, misses);
    assert !IsStart(ss, i) && Decided(ss, src, looked, i);
    DecidedAppend(ss, src, looked, i);
    assert looked + [i] == LooksOf(ss) + (since + [i]);
    ReachedMiss(EndOf(ss), since, i, misses);
  }

  lemma StartKept(ss: seq<Sequence>, s: Sequence, j: nat)
    requires j <= |ss|
    ensures Start(ss + [s], j) == if j < |ss| then Start(ss, j) else StartAfter(EndOf(ss), s)
  {
    if j < |ss| {
      assert (ss + [s])[..j] == ss[..j];
    } else {
      assert (ss + [s])[..j] == ss && ss[..|ss|] == ss;
    }
  }

  /** A later match changes nothing at earlier positions. */
  lemma DecidedKept(ss: seq<Sequence>, src: seq<byte>, looked: seq<nat>, p: nat, s: Sequence)
    requires Decided(ss, src, looked, p) && p < StartAfter(EndOf(ss), s)
    ensures Decided(ss + [s], src, looked, p)
  {
    hide Usable, Start;
    forall j | 0 <= j <= |ss|
      ensures Start(ss + [s], j) == if j < |ss| then Start(ss, j) else StartAfter(EndOf(ss), s)
    {
      StartKept(ss, s, j);
    }
    if IsStart(ss, p) {
      var j :| 0 <= j < |ss| && Start(ss, j) == p;
      assert Start(ss + [s], j) == p;
    }
  }

  lemma DecidedAllKept(ss: seq<Sequence>, src: seq<byte>, looked: seq<nat>, s: Sequence)
    requires DecidedAll(ss, src, looked) && Before(looked, StartAfter(EndOf(ss), s))
    ensures DecidedAll(ss + [s], src, looked)
  {
    hide Decided;
    forall k | 0 <= k < |looked|
      ensures Decided(ss + [s], src, looked[..k], looked[k])
    {
      DecidedKept(ss, src, looked[..k], looked[k], s);
    }
  }

  lemma DecidedNow(ss: seq<Sequence>, src: seq<byte>, looked: seq<nat>, p: nat, s: Sequence)
    requires InReach(looked, src) && p + 4 <= |src| && p == StartAfter(EndOf(ss), s)
    requires forall j :: 0 <= j < |ss| ==> Start(ss, j) < p
    requires s.offset <= p && Usable(looked, src, p, p - s.offset)
    ensures Decided(ss + [s], src, looked, p)
  {
    hide Usable, Start, InReach, EndOf;
    var more := ss + [s];
    forall j | 0 <= j < |more| && Start(more, j) == p
      ensures more[j] == s
    {
      StartKept(ss, s, j);
    }
    StartKept(ss, s, |ss|);
    assert Start(more, |ss|) == p;
    assert IsStart(more, p) && Usable(looked, src, p, p - s.offset);
  }

  /** A usable position: a match begins at `i`, and the search goes on at its end. */
  lemma SearchHits(ss: seq<Sequence>, src: seq<byte>, since: seq<nat>, i: nat, misses: nat, s: Sequence, m: nat)
    requires Searching(ss, src, since, i, misses) && i + MFLIMIT < |src| && i < m
    requires InReach(LooksOf(ss) + since, src) && StartAfter(EndOf(ss), s) == i && EndOf(ss + [s]) == m
    requires s.offset <= i && Usable(LooksOf(ss) + since, src, i, i - s.offset)
    ensures Searching(ss + [s], src, [], m, 0)
    ensures LooksOf(ss + [s]) + [] == LooksOf(ss) + since + [i]
  {
    hide Usable, Reached, Start, Decided, DecidedAll, Looks, Latest;
    var looked, more := LooksOf(ss) + since, ss + [s];
    SearchIsBefore(ss, src, since, i, misses);
    ReachedHit(EndOf(ss), since, i, misses);
    assert Init(more) == ss && Last(more) == s;
    assert LooksOf(more) == LooksOf(ss) + (since + [i]) == looked + [i];
    DecidedAllKept(ss, src, looked, s);
    DecidedNow(ss, src, looked, i, s);
    DecidedAppend(more, src, looked, i);
    assert LooksOf(more) + [] == LooksOf(more);
    ReachedNothing(m);
    StartsFound(ss, s, looked, i);
  }

  lemma StartsFound(ss: seq<Sequence>, s: Sequence, looked: seq<nat>, i: nat)
    requires forall j :: 0 <= j < |ss| ==> Start(ss, j) in LooksOf(ss)
    requires LooksOf(ss) <= looked && StartAfter(EndOf(ss), s) == i && LooksOf(ss + [s]) == looked + [i]
    ensures forall j :: 0 <= j <= |ss| ==> Start(ss + [s], j) in LooksOf(ss + [s])
  {
    hide LooksOf, Start;
    forall j | 0 <= j <= |ss|
      ensures Start(ss + [s], j) in looked + [i]
    {
      StartKept(ss, s, j);
      if j < |ss| {
        var k :| 0 <= k < |LooksOf(ss)| && LooksOf(ss)[k] == Start(ss, j);
        assert (looked + [i])[k] == Start(ss, j);
      } else {
        assert (looked + [i])[|looked|] == i;
      }
    }
  }

  lemma SearchEnds(ss: seq<Sequence>, src: seq<byte>, since: seq<nat>, i: nat, misses: nat)
    requires Searching(ss, src, since, i, misses) && i + MFLIMIT >= |src|
    ensures Found(ss, src)
  {
    hide Start, DecidedAll, LooksOf;
    var end := |src| - MFLIMIT;
    SearchIsBefore(ss, src, since, i, misses);
    assert Looks(EndOf(ss), 0, end) == since + Looks(i, misses, end) == since;
  }

  // ----- The table of latest positions -----

  /** For each hash, the latest position with it, or a negative number. */
  ghost predicate TableHolds(table: seq<int>, looked: seq<nat>, src: seq<byte>) {
    && |table| == HASH_SIZE && InReach(looked, src)
    && forall h :: 0 <= h < HASH_SIZE ==>
         if table[h] < 0 then forall p :: p in looked ==> HashAt(src, p) != h
         else table[h] in looked && HashAt(src, table[h]) == h
              && forall p :: p in looked && HashAt(src, p) == h ==> p <= table[h]
  }

  lemma NothingNoted(src: seq<byte>, table: seq<int>)
    requires |table| == HASH_SIZE && forall h :: 0 <= h < HASH_SIZE ==> table[h] == -1
    ensures TableHolds(table, LooksOf([]) + [], src)
  {
  }

  lemma TableNotes(table: seq<int>, looked: seq<nat>, src: seq<byte>, i: nat)
    requires TableHolds(table, looked, src) && i + 4 <= |src| && Before(looked, i)
    ensures TableHolds(table[HashAt(src, i) := i], looked + [i], src)
  {
    hide HashAt;
  }

  lemma TableFinds(table: seq<int>, looked: seq<nat>, src: seq<byte>, i: nat)
    requires TableHolds(table, looked, src) && i + 4 <= |src| && Before(looked, i)
    ensures var ref := table[HashAt(src, i)];
            && ref < i && (0 <= ref ==> ref + 4 <= |src|)
            && (0 <= ref && i - ref <= 0xFFFF && src[ref..ref + 4] == src[i..i + 4] ==> Usable(looked, src, i, ref))
            && (!(0 <= ref && i - ref <= 0xFFFF && src[ref..ref + 4] == src[i..i + 4]) ==>
                  forall q :: !Usable(looked, src, i, q))
  {
    hide HashAt;
  }
}
