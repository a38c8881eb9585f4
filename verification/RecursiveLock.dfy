/**
 The cross-core lock.  Every load, store and compare-and-swap of a lock operation is one step, and the steps of
 any number of processes interleave in any order.
 */
module RecursiveLock {
  import opened Bytes

  const NO_OWNER := -1

  datatype Op = AcquireRecursive | TryRecursive | Acquire | Try | Release | ReleaseRecursive

  /** What a process will do to the lock next.  `spin` is set in the acquiring loops. */
  datatype Pc =
    | Idle(ok: bool)
    | RecursiveCas(spin: bool)
    | LoadOwner(spin: bool)
    | LoadCount
    | StoreCountUp(loaded: u32)
    | PlainCas(spin: bool)
    | StoreOwner
    | ReleaseLoadOwner
    | RecursiveLoadCount
    | RecursiveLoadOwner
    | IsLastHold
    | LoadCountDown
    | StoreCountDown(loaded: u32)
    | ClearOwner(all: bool)
    | StoreZero(all: bool)

  /** Who has the lock, and how deep: from a successful compare-and-swap to the final count store. */
  datatype Hold = Free | Held(who: nat, depth: nat) {
    function Depth(p: nat): nat {
      if Held? && who == p then depth else 0
    }
  }

  /** The two shared words and each process's place, with two history variables: the hold, and for each process
      its successful acquires minus its releases (a plain release gives back every hold at once). */
  datatype State = State(owner: int, count: u32, pcs: seq<Pc>, hold: Hold, balance: seq<int>)

  function Start(op: Op): Pc {
    match op
    case AcquireRecursive => RecursiveCas(true)
    case TryRecursive => RecursiveCas(false)
    case Acquire => PlainCas(true)
    case Try => PlainCas(false)
    case Release => ReleaseLoadOwner
    case ReleaseRecursive => RecursiveLoadCount
  }

  function Moved(s: State, p: nat, pc: Pc): State
    requires p < |s.pcs|
  {
    s.(pcs := s.pcs[p := pc])
  }

  /** A successful compare-and-swap of the count from 0 to 1. */
  function Taken(s: State, p: nat): State
    requires p < |s.pcs| && p < |s.balance|
  {
    Moved(s, p, StoreOwner).(count := 1, hold := Held(p, 1), balance := s.balance[p := s.balance[p] + 1])
  }

  /** One step of process `p`; an idle process begins `op`. */
  function Next(s: State, p: nat, op: Op): State
    requires p < |s.pcs| && p < |s.balance|
  {
    match s.pcs[p]
    case Idle(_) => Moved(s, p, Start(op))
    case RecursiveCas(spin) => if s.count == 0 then Taken(s, p) else Moved(s, p, LoadOwner(spin))
    case LoadOwner(spin) =>
      Moved(s, p, if s.owner == p then LoadCount else if spin then RecursiveCas(true) else Idle(false))
    case LoadCount => Moved(s, p, StoreCountUp(s.count))
    case StoreCountUp(v) =>
      Moved(s, p, Idle(true)).(count := Wrap32(v + 1), hold := Held(p, s.hold.Depth(p) + 1),
                               balance := s.balance[p := s.balance[p] + 1])
    case PlainCas(spin) =>
      if s.count == 0 then Taken(s, p) else Moved(s, p, if spin then PlainCas(true) else Idle(false))
    case StoreOwner => Moved(s, p, Idle(true)).(owner := p)
    case ReleaseLoadOwner => Moved(s, p, if s.owner == p then ClearOwner(true) else Idle(false))
    case RecursiveLoadCount => Moved(s, p, if s.count == 0 then Idle(false) else RecursiveLoadOwner)
    case RecursiveLoadOwner => Moved(s, p, if s.owner == p then IsLastHold else Idle(false))
    case IsLastHold => Moved(s, p, if s.count == 1 then ClearOwner(false) else LoadCountDown)
    case LoadCountDown => Moved(s, p, StoreCountDown(s.count))
    case StoreCountDown(v) =>
      var depth := s.hold.Depth(p);
      Moved(s, p, Idle(true)).(count := Wrap32(v - 1), hold := Held(p, if depth > 0 then depth - 1 else 0),
                               balance := s.balance[p := s.balance[p] - 1])
    case ClearOwner(all) => Moved(s, p, StoreZero(all)).(owner := NO_OWNER)
    case StoreZero(all) =>
      Moved(s, p, Idle(true)).(count := 0, hold := Free, balance := s.balance[p := if all then 0 else s.balance[p] - 1])
  }

  // ----- What every step keeps -----

  /** What is known when process `q` is where it is: past its checks it has the lock, and what it loaded is current. */
  ghost predicate PcHolds(s: State, q: nat)
    requires q < |s.pcs|
  {
    var depth := s.hold.Depth(q);
    match s.pcs[q]
    case StoreOwner => depth == 1 && s.owner == NO_OWNER
    case LoadCount => depth >= 1 && s.owner == q
    case StoreCountUp(v) => depth >= 1 && s.owner == q && v == s.count
    case IsLastHold => depth >= 1 && s.owner == q
    case LoadCountDown => depth > 1 && s.owner == q
    case StoreCountDown(v) => depth > 1 && s.owner == q && v == s.count
    case ClearOwner(all) => depth >= 1 && s.owner == q && (!all ==> depth == 1)
    case StoreZero(all) => depth >= 1 && s.owner == NO_OWNER && (!all ==> depth == 1)
    case _ => depth >= 1 ==> s.owner == q
  }

  ghost predicate Invariant(s: State) {
    && |s.pcs| == |s.balance|
    && (s.hold.Held? ==> s.hold.who < |s.pcs| && s.hold.depth >= 1 && s.count == s.hold.depth)
    && (s.hold.Free? ==> s.count == 0 && s.owner == NO_OWNER)
    && (s.owner != NO_OWNER ==> s.hold.Held? && s.owner == s.hold.who)
    && (forall q :: 0 <= q < |s.pcs| ==> PcHolds(s, q))
    && (forall q :: 0 <= q < |s.pcs| ==> s.balance[q] == s.hold.Depth(q))
  }

  function Initial(n: nat): State {
    State(NO_OWNER, 0, seq(n, _ => Idle(false)), Free, seq(n, _ => 0))
  }

  lemma InitialHolds(n: nat)
    ensures Invariant(Initial(n))
  {
  }

  /** The step is about to nest the lock more deeply than its count can tell. */
  predicate WouldWrap(s: State, p: nat)
    requires p < |s.pcs|
  {
    s.pcs[p].StoreCountUp? && s.pcs[p].loaded == 0xFFFF_FFFF
  }

  lemma OthersKept(s: State, t: State, p: nat, op: Op, q: nat)
    requires Invariant(s) && p < |s.pcs| && t == Next(s, p, op) && q < |s.pcs| && q != p
    ensures PcHolds(t, q) && t.balance[q] == t.hold.Depth(q)
  {
    assert PcHolds(s, p) && PcHolds(s, q);
  }

  lemma SelfKept(s: State, t: State, p: nat, op: Op)
    requires Invariant(s) && p < |s.pcs| && t == Next(s, p, op) && !WouldWrap(s, p)
    ensures PcHolds(t, p) && t.balance[p] == t.hold.Depth(p)
  {
    assert PcHolds(s, p);
  }

  /** Every step keeps the invariant, unless it nests to 2^32; then it breaks it. */
  lemma StepKeeps(s: State, p: nat, op: Op)
    requires Invariant(s) && p < |s.pcs|
    ensures Invariant(Next(s, p, op)) <==> !WouldWrap(s, p)
  {
    var t := Next(s, p, op);
    assert PcHolds(s, p);
    if !WouldWrap(s, p) {
      SelfKept(s, t, p, op);
      forall q | 0 <= q < |s.pcs|
        ensures PcHolds(t, q) && t.balance[q] == t.hold.Depth(q)
      {
        if q != p {
          OthersKept(s, t, p, op, q);
        }
      }
    }
  }

  // ----- Runs -----

  /** A process that takes a step, and what it begins if it is idle. */
  datatype Turn = Turn(p: nat, op: Op)

  ghost predicate Schedule(turns: seq<Turn>, n: nat) {
    forall k :: 0 <= k < |turns| ==> turns[k].p < n
  }

  function Run(s: State, turns: seq<Turn>): (t: State)
    requires |s.pcs| == |s.balance| && Schedule(turns, |s.pcs|)
    ensures |t.pcs| == |t.balance| == |s.pcs|
    decreases |turns|
  {
    if turns == [] then s else
      var before := Run(s, turns[..|turns| - 1]);
      Next(before, turns[|turns| - 1].p, turns[|turns| - 1].op)
  }

  /** No step of the run nests to 2^32. */
  ghost predicate NeverWraps(s: State, turns: seq<Turn>)
    requires |s.pcs| == |s.balance| && Schedule(turns, |s.pcs|)
  {
    forall k :: 0 <= k < |turns| ==> !WouldWrap(Run(s, turns[..k]), turns[k].p)
  }

  lemma {:induction false} RunKeeps(n: nat, turns: seq<Turn>)
    requires Schedule(turns, n) && NeverWraps(Initial(n), turns)
    ensures Invariant(Run(Initial(n), turns))
    decreases |turns|
  {
    var s := Initial(n);
    InitialHolds(n);
    if turns != [] {
      var init, last := turns[..|turns| - 1], turns[|turns| - 1];
      forall k | 0 <= k < |init|
        ensures !WouldWrap(Run(s, init[..k]), init[k].p)
      {
        assert init[..k] == turns[..k];
      }
      RunKeeps(n, init);
      StepKeeps(Run(s, init), last.p, last.op);
    }
  }

  // ----- What follows -----

  /** The steps between a successful compare-and-swap and the final count store. */
  predicate Inside(s: State, p: nat)
    requires p < |s.balance|
  {
    s.balance[p] > 0
  }

  /** At most one process is inside; the owner word names it or nobody; the count is zero exactly when nobody is;
      and otherwise it is that process's acquires minus its releases. */
  lemma MutualExclusion(s: State, p: nat, q: nat)
    requires Invariant(s) && p < |s.pcs| && q < |s.pcs|
    ensures Inside(s, p) && Inside(s, q) ==> p == q
    ensures Inside(s, p) ==> s.count == s.balance[p] && (s.owner == NO_OWNER || s.owner == p)
    ensures s.count == 0 <==> forall r :: 0 <= r < |s.balance| ==> !Inside(s, r)
    ensures s.owner == q ==> Inside(s, q)
  {
    if s.hold.Held? {
      assert s.balance[s.hold.who] == s.hold.depth;
      assert Inside(s, s.hold.who);
    }
  }

  /** Nothing that another process does takes the lock away from its holder. */
  lemma HoldIsStable(s: State, p: nat, q: nat, op: Op)
    requires Invariant(s) && p < |s.pcs| && q < |s.pcs| && p != q && Inside(s, p)
    ensures Next(s, q, op).balance == s.balance && Next(s, q, op).count == s.count && Next(s, q, op).owner == s.owner
  {
    assert PcHolds(s, q);
    assert s.balance[p] == s.hold.Depth(p);
  }

  predicate Releasing(pc: Pc) {
    pc.ReleaseLoadOwner? || pc.RecursiveLoadCount? || pc.RecursiveLoadOwner? || pc.IsLastHold? || pc.LoadCountDown?
    || pc.StoreCountDown? || pc.ClearOwner? || pc.StoreZero?
  }

  /** A release by a process that does not have the lock leaves both words alone, and reports nothing released. */
  lemma StrangerReleasesNothing(s: State, p: nat, op: Op)
    requires Invariant(s) && p < |s.pcs| && Releasing(s.pcs[p]) && !Inside(s, p)
    ensures var t := Next(s, p, op);
            && t.owner == s.owner && t.count == s.count && t.balance == s.balance
            && (t.pcs[p] == Idle(false) || (Releasing(t.pcs[p]) && !Inside(t, p)))
  {
    assert PcHolds(s, p);
    assert s.balance[p] == s.hold.Depth(p);
  }

  predicate Acquiring(pc: Pc) {
    pc.RecursiveCas? || pc.LoadOwner? || pc.LoadCount? || pc.StoreCountUp? || pc.PlainCas? || pc.StoreOwner?
  }

  /** An acquire that returns success leaves the process inside, owner of record.  A recursive one that returns
      failure was made by a process that did not have the lock; a plain one, while somebody had it. */
  lemma AcquireReturns(s: State, p: nat, op: Op)
    requires Invariant(s) && p < |s.pcs| && Acquiring(s.pcs[p]) && Next(s, p, op).pcs[p].Idle?
    ensures var t := Next(s, p, op);
            && (t.pcs[p].ok ==> Inside(t, p) && t.owner == p)
            && (!t.pcs[p].ok ==> t.owner == s.owner && t.count == s.count && t.balance == s.balance)
            && (!t.pcs[p].ok && s.pcs[p].LoadOwner? ==> !Inside(s, p))
            && (!t.pcs[p].ok && s.pcs[p].PlainCas? ==> s.count != 0)
  {
    assert PcHolds(s, p);
    assert s.balance[p] == s.hold.Depth(p);
  }

  /** A hold nested 2^32 deep looks free: the very next compare-and-swap by another process succeeds too. */
  lemma WrappedHoldIsTakenAgain(s: State, p: nat, q: nat, op: Op)
    requires Invariant(s) && p < |s.pcs| && q < |s.pcs| && p != q
    requires WouldWrap(s, p) && s.pcs[q] == RecursiveCas(true)
    ensures var t := Next(Next(s, p, op), q, op); Inside(t, p) && Inside(t, q)
  {
    assert PcHolds(s, p) && PcHolds(s, q);
    assert s.balance[p] == s.hold.Depth(p) && s.balance[q] == s.hold.Depth(q);
  }

  // ----- A run that nests so deep -----

  lemma {:induction false} RunExtends(n: nat, turns: seq<Turn>, s: State, t: Turn)
    requires Schedule(turns, n) && t.p < n && Run(Initial(n), turns) == s
    ensures Schedule(turns + [t], n) && Run(Initial(n), turns + [t]) == Next(s, t.p, t.op)
  {
    assert (turns + [t])[..|turns|] == turns;
  }

  /** Process `p` takes the lock, and then again and again, `d` times in all. */
  function Nest(p: nat, d: nat): seq<Turn>
    requires d >= 1
  {
    var t := Turn(p, AcquireRecursive);
    if d == 1 then [] + [t] + [t] + [t] else Nest(p, d - 1) + [t] + [t] + [t] + [t] + [t]
  }

  /** Process `p` has the lock `d` deep and is at `pc`; nobody else has moved. */
  function Deep(n: nat, p: nat, d: u32, pc: Pc): State
    requires p < n
  {
    State(p, d, Initial(n).pcs[p := pc], Held(p, d), Initial(n).balance[p := d])
  }

  lemma DeepMoves(n: nat, p: nat, d: u32, pc: Pc, pc': Pc)
    requires p < n
    ensures Moved(Deep(n, p, d, pc), p, pc') == Deep(n, p, d, pc')
  {
    assert Initial(n).pcs[p := pc][p := pc'] == Initial(n).pcs[p := pc'];
  }

  /** Four more steps of a holder's acquire bring it to its store. */
  lemma {:induction false} ToTheStore(n: nat, p: nat, d: u32, turns: seq<Turn>)
    requires p < n && d >= 1 && Schedule(turns, n) && Run(Initial(n), turns) == Deep(n, p, d, Idle(true))
    ensures var t := Turn(p, AcquireRecursive);
            var more := turns + [t] + [t] + [t] + [t];
            Schedule(more, n) && Run(Initial(n), more) == Deep(n, p, d, StoreCountUp(d))
  {
    hide Run;
    var t := Turn(p, AcquireRecursive);
    RunExtends(n, turns, Deep(n, p, d, Idle(true)), t);
    DeepMoves(n, p, d, Idle(true), RecursiveCas(true));
    RunExtends(n, turns + [t], Deep(n, p, d, RecursiveCas(true)), t);
    DeepMoves(n, p, d, RecursiveCas(true), LoadOwner(true));
    RunExtends(n, turns + [t] + [t], Deep(n, p, d, LoadOwner(true)), t);
    DeepMoves(n, p, d, LoadOwner(true), LoadCount);
    RunExtends(n, turns + [t] + [t] + [t], Deep(n, p, d, LoadCount), t);
    DeepMoves(n, p, d, LoadCount, StoreCountUp(d));
  }

  lemma {:induction false} FirstHold(n: nat, p: nat)
    requires p < n
    ensures Schedule(Nest(p, 1), n) && Run(Initial(n), Nest(p, 1)) == Deep(n, p, 1, Idle(true))
  {
    hide Run;
    var s, t := Initial(n), Turn(p, AcquireRecursive);
    var s1 := Next(s, p, AcquireRecursive);
    var s2 := Next(s1, p, AcquireRecursive);
    assert Run(s, []) == s by {
      RunNothing(s);
    }
    RunExtends(n, [], s, t);
    RunExtends(n, [] + [t], s1, t);
    RunExtends(n, [] + [t] + [t], s2, t);
    assert Next(s2, p, AcquireRecursive).pcs == Deep(n, p, 1, Idle(true)).pcs;
  }

  lemma {:induction false} RunNothing(s: State)
    requires |s.pcs| == |s.balance|
    ensures Run(s, []) == s
  {
  }

  lemma {:induction false} Nests(n: nat, p: nat, d: nat)
    requires p < n && 1 <= d < TWO32
    ensures Schedule(Nest(p, d), n) && Run(Initial(n), Nest(p, d)) == Deep(n, p, d, Idle(true))
    decreases d
  {
    hide Run;
    if d == 1 {
      FirstHold(n, p);
    } else {
      var t := Turn(p, AcquireRecursive);
      Nests(n, p, d - 1);
      ToTheStore(n, p, d - 1, Nest(p, d - 1));
      RunExtends(n, Nest(p, d - 1) + [t] + [t] + [t] + [t], Deep(n, p, d - 1, StoreCountUp(d - 1)), t);
      DeepMoves(n, p, d - 1, StoreCountUp(d - 1), Idle(true));
      assert Initial(n).balance[p := d - 1][p := d] == Initial(n).balance[p := d];
    }
  }

  /** The holder is about to nest once more, and another process to compare. */
  function Brink(p: nat, q: nat, d: nat): seq<Turn>
    requires d >= 1
  {
    var t := Turn(p, AcquireRecursive);
    Nest(p, d) + [t] + [t] + [t] + [t] + [Turn(q, AcquireRecursive)]
  }

  /** Two processes can both get the lock: one takes it 2^32 times, then the other once. */
  lemma {:induction false} WrapIsReached(n: nat, p: nat, q: nat)
    requires p < n && q < n && p != q
    ensures var turns := Brink(p, q, TWO32 - 1) + [Turn(p, AcquireRecursive)] + [Turn(q, AcquireRecursive)];
            Schedule(turns, n) && Inside(Run(Initial(n), turns), p) && Inside(Run(Initial(n), turns), q)
  {
    hide Run, Nest;
    var t, u, d := Turn(p, AcquireRecursive), Turn(q, AcquireRecursive), TWO32 - 1;
    Nests(n, p, d);
    ToTheStore(n, p, d, Nest(p, d));
    var before := Deep(n, p, d, StoreCountUp(d));
    RunExtends(n, Nest(p, d) + [t] + [t] + [t] + [t], before, u);
    var s := Moved(before, q, RecursiveCas(true));
    RunExtends(n, Brink(p, q, d), s, t);
    RunExtends(n, Brink(p, q, d) + [t], Next(s, p, AcquireRecursive), u);
    assert Invariant(s) && WouldWrap(s, p) && s.pcs[q] == RecursiveCas(true);
    WrappedHoldIsTakenAgain(s, p, q, AcquireRecursive);
  }

  // ----- What a whole operation does when nobody comes between its steps -----

  /** `k` turns of `p` in a row, working on `op`. */
  function Solo(s: State, p: nat, op: Op, k: nat): (t: State)
    requires p < |s.pcs| == |s.balance|
    ensures |t.pcs| == |t.balance| == |s.pcs|
  {
    if k == 0 then s else Next(Solo(s, p, op, k - 1), p, op)
  }

  function Turns(p: nat, op: Op, k: nat): (turns: seq<Turn>)
    ensures |turns| == k && Schedule(turns, p + 1)
  {
    seq(k, _ => Turn(p, op))
  }

  lemma {:induction false} SoloIsRun(s: State, p: nat, op: Op, k: nat)
    requires p < |s.pcs| == |s.balance|
    ensures Run(s, Turns(p, op, k)) == Solo(s, p, op, k)
    decreases k
  {
    if k > 0 {
      assert Turns(p, op, k)[..k - 1] == Turns(p, op, k - 1);
      SoloIsRun(s, p, op, k - 1);
    }
  }

  /** An idle process of a state that the invariant holds of. */
  ghost predicate Ready(s: State, p: nat) {
    Invariant(s) && p < |s.pcs| == |s.balance| && s.pcs[p].Idle?
  }

  /** Everyone but `p` is where it was; `p` has returned `ok` and has the lock `depth` deep, or nobody has it. */
  function Ends(s: State, p: nat, ok: bool, depth: u32): State
    requires p < |s.pcs| == |s.balance|
  {
    State(if depth == 0 then NO_OWNER else p, depth, s.pcs[p := Idle(ok)],
          if depth == 0 then Free else Held(p, depth), s.balance[p := depth])
  }

  lemma MovedTwice(s: State, p: nat, a: Pc, b: Pc)
    requires p < |s.pcs|
    ensures Moved(Moved(s, p, a), p, b) == Moved(s, p, b)
  {
    assert s.pcs[p := a][p := b] == s.pcs[p := b];
  }

  lemma SoloBegins(s: State, p: nat, op: Op)
    requires p < |s.pcs| == |s.balance| && s.pcs[p].Idle?
    ensures Solo(s, p, op, 1) == Moved(s, p, Start(op))
  {
    assert Solo(s, p, op, 0) == s;
  }

  /** A turn from `pc` that only moves on. */
  lemma SoloMoves(s: State, p: nat, op: Op, k: nat, pc: Pc, pc': Pc)
    requires p < |s.pcs| == |s.balance| && Solo(s, p, op, k) == Moved(s, p, pc)
    requires Next(Moved(s, p, pc), p, op) == Moved(Moved(s, p, pc), p, pc')
    ensures Solo(s, p, op, k + 1) == Moved(s, p, pc')
  {
    MovedTwice(s, p, pc, pc');
  }

  lemma SoloNext(s: State, p: nat, op: Op, k: nat, t: State)
    requires p < |s.pcs| == |s.balance| && Solo(s, p, op, k) == t
    ensures Solo(s, p, op, k + 1) == Next(t, p, op)
  {
  }

  lemma OwnerHolds(s: State, p: nat)
    requires Ready(s, p)
    ensures s.owner == p ==> s.hold == Held(p, s.count) && s.count >= 1 && s.balance[p] == s.count
    ensures s.count == 0 ==> s.hold == Free && s.owner == NO_OWNER && s.balance[p] == 0
  {
    assert PcHolds(s, p);
  }

  /** A plain release by the owner gives the lock back whole, however deep it was nested. */
  lemma ReleaseReleases(s: State, p: nat)
    requires Ready(s, p) && s.owner == p
    ensures Run(s, Turns(p, Release, 4)) == Ends(s, p, true, 0)
  {
    hide Run, Solo, Invariant;
    SoloIsRun(s, p, Release, 4);
    OwnerHolds(s, p);
    SoloBegins(s, p, Release);
    SoloMoves(s, p, Release, 1, ReleaseLoadOwner, ClearOwner(true));
    SoloNext(s, p, Release, 2, Moved(s, p, ClearOwner(true)));
    SoloNext(s, p, Release, 3, Moved(Moved(s, p, ClearOwner(true)), p, StoreZero(true)).(owner := NO_OWNER));
    MovedTwice(s, p, ClearOwner(true), StoreZero(true));
    MovedTwice(s, p, StoreZero(true), Idle(true));
  }

  /** A recursive release by the owner comes to the test whether this is its last hold. */
  lemma ToTheLastHold(s: State, p: nat)
    requires Ready(s, p) && s.owner == p
    ensures Solo(s, p, ReleaseRecursive, 3) == Moved(s, p, IsLastHold)
  {
    hide Solo, Invariant;
    OwnerHolds(s, p);
    SoloBegins(s, p, ReleaseRecursive);
    SoloMoves(s, p, ReleaseRecursive, 1, RecursiveLoadCount, RecursiveLoadOwner);
    SoloMoves(s, p, ReleaseRecursive, 2, RecursiveLoadOwner, IsLastHold);
  }

  lemma LastHoldEnds(s: State, p: nat)
    requires Ready(s, p) && s.owner == p && s.count == 1
    ensures Solo(s, p, ReleaseRecursive, 6) == Ends(s, p, true, 0)
  {
    hide Solo, Invariant;
    OwnerHolds(s, p);
    ToTheLastHold(s, p);
    SoloMoves(s, p, ReleaseRecursive, 3, IsLastHold, ClearOwner(false));
    SoloNext(s, p, ReleaseRecursive, 4, Moved(s, p, ClearOwner(false)));
    var cleared := Moved(Moved(s, p, ClearOwner(false)), p, StoreZero(false)).(owner := NO_OWNER);
    SoloNext(s, p, ReleaseRecursive, 5, cleared);
    MovedTwice(s, p, ClearOwner(false), StoreZero(false));
    MovedTwice(s, p, StoreZero(false), Idle(true));
  }

  lemma ToTheStoreDown(s: State, p: nat)
    requires Ready(s, p) && s.owner == p && s.count > 1
    ensures Solo(s, p, ReleaseRecursive, 5) == Moved(s, p, StoreCountDown(s.count))
  {
    hide Solo, Invariant;
    ToTheLastHold(s, p);
    SoloMoves(s, p, ReleaseRecursive, 3, IsLastHold, LoadCountDown);
    SoloMoves(s, p, ReleaseRecursive, 4, LoadCountDown, StoreCountDown(s.count));
  }

  /** It gives back one hold; with the last, the lock. */
  lemma ReleaseRecursiveReleases(s: State, p: nat)
    requires Ready(s, p) && s.owner == p
    ensures Run(s, Turns(p, ReleaseRecursive, 6)) == Ends(s, p, true, s.count - 1)
  {
    hide Run, Solo, Invariant;
    SoloIsRun(s, p, ReleaseRecursive, 6);
    OwnerHolds(s, p);
    if s.count == 1 {
      LastHoldEnds(s, p);
    } else {
      ToTheStoreDown(s, p);
      SoloNext(s, p, ReleaseRecursive, 5, Moved(s, p, StoreCountDown(s.count)));
      MovedTwice(s, p, StoreCountDown(s.count), Idle(true));
    }
  }

  /** Any acquire of a free lock gets it. */
  lemma FreeIsTaken(s: State, p: nat, op: Op)
    requires Ready(s, p) && s.count == 0 && !op.Release? && !op.ReleaseRecursive?
    ensures Run(s, Turns(p, op, 3)) == Ends(s, p, true, 1)
  {
    hide Run, Solo, Invariant;
    SoloIsRun(s, p, op, 3);
    OwnerHolds(s, p);
    SoloBegins(s, p, op);
    SoloNext(s, p, op, 1, Moved(s, p, Start(op)));
    SoloNext(s, p, op, 2, Taken(Moved(s, p, Start(op)), p));
    MovedTwice(s, p, Start(op), StoreOwner);
    MovedTwice(s, p, StoreOwner, Idle(true));
  }

  lemma ToTheStoreUp(s: State, p: nat, op: Op)
    requires Ready(s, p) && s.owner == p && (op == AcquireRecursive || op == TryRecursive)
    ensures Solo(s, p, op, 4) == Moved(s, p, StoreCountUp(s.count))
  {
    hide Solo, Invariant;
    OwnerHolds(s, p);
    var spin := op == AcquireRecursive;
    SoloBegins(s, p, op);
    SoloMoves(s, p, op, 1, RecursiveCas(spin), LoadOwner(spin));
    SoloMoves(s, p, op, 2, LoadOwner(spin), LoadCount);
    SoloMoves(s, p, op, 3, LoadCount, StoreCountUp(s.count));
  }

  /** A recursive acquire by the owner nests the lock once more. */
  lemma OwnerNests(s: State, p: nat, op: Op)
    requires Ready(s, p) && s.owner == p && s.count < TWO32 - 1 && (op == AcquireRecursive || op == TryRecursive)
    ensures Run(s, Turns(p, op, 5)) == Ends(s, p, true, s.count + 1)
  {
    hide Run, Solo, Invariant;
    SoloIsRun(s, p, op, 5);
    OwnerHolds(s, p);
    ToTheStoreUp(s, p, op);
    SoloNext(s, p, op, 4, Moved(s, p, StoreCountUp(s.count)));
    MovedTwice(s, p, StoreCountUp(s.count), Idle(true));
  }

  /** A plain try fails and changes nothing while anybody has the lock, its caller included. */
  lemma TryFails(s: State, p: nat)
    requires Ready(s, p) && s.count != 0
    ensures Run(s, Turns(p, Try, 2)) == Moved(s, p, Idle(false))
  {
    hide Run, Solo, Invariant;
    SoloIsRun(s, p, Try, 2);
    SoloBegins(s, p, Try);
    SoloMoves(s, p, Try, 1, PlainCas(false), Idle(false));
  }

  /** A recursive one, while somebody else has it. */
  lemma TryRecursiveFails(s: State, p: nat)
    requires Ready(s, p) && s.count != 0 && s.owner != p
    ensures Run(s, Turns(p, TryRecursive, 3)) == Moved(s, p, Idle(false))
  {
    hide Run, Solo, Invariant;
    SoloIsRun(s, p, TryRecursive, 3);
    SoloBegins(s, p, TryRecursive);
    SoloMoves(s, p, TryRecursive, 1, RecursiveCas(false), LoadOwner(false));
    SoloMoves(s, p, TryRecursive, 2, LoadOwner(false), Idle(false));
  }

  /** Back to back: `k` recursive releases in a row. */
  function Unnest(p: nat, k: nat): seq<Turn> {
    if k == 0 then [] else Unnest(p, k - 1) + Turns(p, ReleaseRecursive, 6)
  }

  lemma {:induction false} RunConcat(s: State, a: seq<Turn>, b: seq<Turn>)
    requires |s.pcs| == |s.balance| && Schedule(a, |s.pcs|) && Schedule(b, |s.pcs|)
    ensures Schedule(a + b, |s.pcs|) && Run(s, a + b) == Run(Run(s, a), b)
    decreases |b|
  {
    if b == [] {
      assert a + b == a;
    } else {
      assert (a + b)[..|a + b| - 1] == a + b[..|b| - 1];
      RunConcat(s, a, b[..|b| - 1]);
    }
  }

  /** A holder that is idle, with nobody else having moved, is a state the invariant holds of. */
  lemma DeepIsReady(n: nat, p: nat, d: u32)
    requires p < n && d >= 1
    ensures Ready(Deep(n, p, d, Idle(true)), p)
  {
  }

  /** One more release. */
  lemma UnnestsOne(n: nat, p: nat, d: u32, e: u32, turns: seq<Turn>)
    requires p < n && d >= 1 && e >= 1 && Schedule(turns, n)
    requires Run(Deep(n, p, d, Idle(true)), turns) == Ends(Initial(n), p, true, e)
    ensures Schedule(turns + Turns(p, ReleaseRecursive, 6), n)
    ensures Run(Deep(n, p, d, Idle(true)), turns + Turns(p, ReleaseRecursive, 6)) == Ends(Initial(n), p, true, e - 1)
  {
    hide Run, Invariant;
    var before := Ends(Initial(n), p, true, e);
    assert before == Deep(n, p, e, Idle(true));
    DeepIsReady(n, p, e);
    ReleaseRecursiveReleases(before, p);
    RunConcat(Deep(n, p, d, Idle(true)), turns, Turns(p, ReleaseRecursive, 6));
    EndsTwice(Initial(n), p, e, e - 1);
  }

  lemma {:induction false} Unnests(n: nat, p: nat, d: nat, k: nat)
    requires p < n && 1 <= d < TWO32 && k <= d
    ensures Schedule(Unnest(p, k), n)
    ensures Run(Deep(n, p, d, Idle(true)), Unnest(p, k)) == Ends(Initial(n), p, true, d - k)
    decreases k
  {
    hide Run, Ends;
    if k == 0 {
      RunNothing(Deep(n, p, d, Idle(true)));
      EndsIsDeep(n, p, d);
    } else {
      hide Deep;
      Unnests(n, p, d, k - 1);
      UnnestsOne(n, p, d, d - (k - 1), Unnest(p, k - 1));
    }
  }

  lemma EndsIsDeep(n: nat, p: nat, d: u32)
    requires p < n && d >= 1
    ensures Ends(Initial(n), p, true, d) == Deep(n, p, d, Idle(true))
    ensures Deep(n, p, d, Idle(true)).owner == p && Deep(n, p, d, Idle(true)).count == d
    ensures |Deep(n, p, d, Idle(true)).pcs| == |Deep(n, p, d, Idle(true)).balance| == n
  {
  }

  lemma EndsTwice(s: State, p: nat, d: u32, e: u32)
    requires p < |s.pcs| == |s.balance|
    ensures Ends(Ends(s, p, true, d), p, true, e) == Ends(s, p, true, e)
  {
    assert s.pcs[p := Idle(true)][p := Idle(true)] == s.pcs[p := Idle(true)];
    assert s.balance[p := d][p := e] == s.balance[p := e];
  }

  /** As many releases as acquires, and everything is as it was in the beginning, but for the result last returned. */
  lemma {:induction false} NestAndUnnest(n: nat, p: nat, d: nat)
    requires p < n && 1 <= d < TWO32
    ensures Schedule(Nest(p, d) + Unnest(p, d), n)
    ensures Run(Initial(n), Nest(p, d) + Unnest(p, d)) == Initial(n).(pcs := Initial(n).pcs[p := Idle(true)])
  {
    hide Run, Nest, Unnest;
    Nests(n, p, d);
    Unnests(n, p, d, d);
    RunConcat(Initial(n), Nest(p, d), Unnest(p, d));
    assert Initial(n).balance[p := 0] == Initial(n).balance;
  }

  // ----- The steps on the lock itself -----

  class Lock {
    var procId: int
    var count: u32

    constructor ()
      ensures procId == NO_OWNER && count == 0
    {
      procId, count := NO_OWNER, 0;
    }

    method CompareExchange(expected: u32, desired: u32) returns (ok: bool)
      modifies `count
      ensures ok <==> old(count) == expected
      ensures count == if ok then desired else old(count)
    {
      ok := count == expected;
      if ok {
        count := desired;
      }
    }

    /** The next step of process `p`, which is at `pc`. */
    method Step(p: nat, pc: Pc, op: Op) returns (next: Pc)
      modifies this
      ensures forall s: State :: p < |s.pcs| && p < |s.balance| && s.pcs[p] == pc
                                 && s.owner == old(procId) && s.count == old(count) ==>
                var t := Next(s, p, op); t.owner == procId && t.count == count && t.pcs[p] == next
    {
      match pc {
        case Idle(_) => next := Start(op);
        case RecursiveCas(spin) =>
          var claimed := CompareExchange(0, 1);
          next := if claimed then StoreOwner else LoadOwner(spin);
        case LoadOwner(spin) =>
          next := if p == procId then LoadCount else if spin then RecursiveCas(true) else Idle(false);
        case LoadCount => next := StoreCountUp(count);
        case StoreCountUp(v) =>
          count := Wrap32(v + 1);
          next := Idle(true);
        case PlainCas(spin) =>
          var claimed := CompareExchange(0, 1);
          next := if claimed then StoreOwner else if spin then PlainCas(true) else Idle(false);
        case StoreOwner =>
          procId := p;
          next := Idle(true);
        case ReleaseLoadOwner => next := if p == procId then ClearOwner(true) else Idle(false);
        case RecursiveLoadCount => next := if count <= 0 then Idle(false) else RecursiveLoadOwner;
        case RecursiveLoadOwner => next := if p == procId then IsLastHold else Idle(false);
        case IsLastHold => next := if count == 1 then ClearOwner(false) else LoadCountDown;
        case LoadCountDown => next := StoreCountDown(count);
        case StoreCountDown(v) =>
          count := Wrap32(v - 1);
          next := Idle(true);
        case ClearOwner(all) =>
          procId := NO_OWNER;
          next := StoreZero(all);
        case StoreZero(_) =>
          count := 0;
          next := Idle(true);
      }
    }

    /** Any interleaving, run on the lock, goes as the state machine says. */
    method Interleave(n: nat, turns: seq<Turn>) returns (pcs: seq<Pc>)
      requires Schedule(turns, n) && procId == NO_OWNER && count == 0
      modifies this
      ensures var t := Run(Initial(n), turns); t.owner == procId && t.count == count && t.pcs == pcs
    {
      pcs := seq(n, _ => Idle(false));
      assert turns[..0] == [];
      for k := 0 to |turns|
        invariant |pcs| == n
        invariant var t := Run(Initial(n), turns[..k]); t.owner == procId && t.count == count && t.pcs == pcs
      {
        var p, op := turns[k].p, turns[k].op;
        assert turns[..k + 1][..k] == turns[..k];
        var next := Step(p, pcs[p], op);
        pcs := pcs[p := next];
      }
      assert turns[..|turns|] == turns;
    }
  }
}
