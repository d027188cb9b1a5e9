/**
 The multi-core init framework (`kernel/common/los_init.c`).  The hooks of all levels lie in one
 table, level after level; a hook is named by its index.  Levels 0 to 8 are run by core 0 alone.
 At level 9 all cores share one cursor into the table and meet at a counting barrier; this part
 is a state machine in which every access to a shared variable is a step of its own.
 */
module InitLevels {
  import opened PathCache

  const LEVEL_KMOD_TASK: nat := 9
  const LEVEL_FINISH: nat := 10

  // ----- level 9: steps of the cores -----

  /**
   Where a core stands in InitLevelCall.
   Bump, Store: the two halves of `g_initCurrentModule++`, with the hook fetched before it.
   Leave: the release of the lock before the `break`.
   */
  datatype Pc = Enter | Publish | Lock | Check | Fetch | Bump(hook: nat) | Store(hook: nat, value: nat)
              | Unlock(hook: nat) | Leave | Hook(hook: nat) | Arrive | Wait | Done

  /** `log`: the hooks handed out so far; `mark`: how many of them before core 0 set the cursor. */
  datatype State = State(level: nat, cursor: nat, lock: Option<nat>, count: nat, pcs: seq<Pc>,
                         log: seq<nat>, mark: nat, finished: multiset<nat>)

  /** The hooks of level 9 are `lo` to `hi - 1`.  `atomic`: core 0 publishes level and cursor at once. */
  datatype Config = Config(cores: nat, lo: nat, hi: nat, atomic: bool)

  predicate Sane(c: Config)
  {
    c.cores > 0 && c.lo <= c.hi
  }

  /** Level 8 has ended, with the cursor at its end (see RunLevels), and the other cores start. */
  function Start(c: Config): State
  {
    State(LEVEL_KMOD_TASK - 1, c.lo, None, 0, seq(c.cores, _ => Enter), [], 0, multiset{})
  }

  /** The next step of core `i`, or None while it spins. */
  function Act(c: Config, s: State, i: nat): Option<State>
    requires i < |s.pcs|
  {
    match s.pcs[i]
    case Enter =>
      if i != 0 then
        if s.level < LEVEL_KMOD_TASK then None else Some(s.(pcs := s.pcs[i := Lock]))
      else if c.atomic then
        Some(s.(level := LEVEL_KMOD_TASK, cursor := c.lo, mark := |s.log|, pcs := s.pcs[i := Lock]))
      else Some(s.(level := LEVEL_KMOD_TASK, pcs := s.pcs[i := Publish]))
    case Publish => Some(s.(cursor := c.lo, mark := |s.log|, pcs := s.pcs[i := Lock]))
    case Lock => if s.lock.Some? then None else Some(s.(lock := Some(i), pcs := s.pcs[i := Check]))
    case Check => Some(s.(pcs := s.pcs[i := if s.cursor >= c.hi then Leave else Fetch]))
    case Fetch => Some(s.(log := s.log + [s.cursor], pcs := s.pcs[i := Bump(s.cursor)]))
    case Bump(m) => Some(s.(pcs := s.pcs[i := Store(m, s.cursor)]))
    case Store(m, value) => Some(s.(cursor := value + 1, pcs := s.pcs[i := Unlock(m)]))
    case Unlock(m) => Some(s.(lock := None, pcs := s.pcs[i := Hook(m)]))
    case Leave => Some(s.(lock := None, pcs := s.pcs[i := Arrive]))
    case Hook(m) => Some(s.(finished := s.finished + multiset{m}, pcs := s.pcs[i := Lock]))
    case Arrive => Some(s.(count := s.count + 1, pcs := s.pcs[i := Wait]))
    case Wait => if c.cores == 0 || s.count % c.cores != 0 then None else Some(s.(pcs := s.pcs[i := Done]))
    case Done => None
  }

  function Move(c: Config, s: State, i: nat): State
  {
    if i < |s.pcs| && Act(c, s, i).Some? then Act(c, s, i).value else s
  }

  /** Any interleaving: the cores named by `schedule` move one after the other. */
  function Run(c: Config, s: State, schedule: seq<nat>): State
    decreases |schedule|
  {
    if schedule == [] then s else Run(c, Move(c, s, schedule[0]), schedule[1..])
  }

  /** What a step does besides: it moves the core `i` only, and counts where it should. */
  lemma ActMoves(c: Config, s: State, i: nat)
    requires i < |s.pcs| && Act(c, s, i).Some?
    ensures var t, p := Act(c, s, i).value, s.pcs[i];
            && |t.pcs| == |s.pcs| && t.pcs == s.pcs[i := t.pcs[i]]
            && t.count == s.count + (if p.Arrive? then 1 else 0)
            && (Arrived(t.pcs[i]) <==> Arrived(p) || p.Arrive?)
            && (t.pcs[i].Done? ==> p.Wait? && c.cores > 0 && s.count % c.cores == 0) && (p.Arrive? ==> t.pcs[i] == Wait)
  {
  }

  /** What a step does to the hooks that are handed out, in hand and finished. */
  lemma ActLogs(c: Config, s: State, i: nat)
    requires i < |s.pcs| && Act(c, s, i).Some?
    ensures var t, p := Act(c, s, i).value, s.pcs[i];
            |t.pcs| == |s.pcs| &&
            if p.Fetch? then t.log == s.log + [s.cursor] && t.finished == s.finished && t.pcs[i] == Bump(s.cursor)
            else if p.Hook? then t.log == s.log && t.finished == s.finished + multiset{p.hook} && t.pcs[i] == Lock
            else t.log == s.log && t.finished == s.finished && forall h: nat :: Held(t.pcs[i], h) == Held(p, h)
  {
  }

  // ----- the lock and the level -----

  predicate Critical(p: Pc)
  {
    p.Check? || p.Fetch? || p.Bump? || p.Store? || p.Unlock? || p.Leave?
  }

  predicate Published(s: State)
    requires |s.pcs| > 0
  {
    !s.pcs[0].Enter? && !s.pcs[0].Publish?
  }

  ghost predicate Guarded(c: Config, s: State)
  {
    && c.cores > 0 && |s.pcs| == c.cores
    && (forall i | 0 <= i < |s.pcs| :: Critical(s.pcs[i]) <==> s.lock == Some(i))
    && (s.lock.Some? ==> s.lock.value < c.cores)
    && (s.level == LEVEL_KMOD_TASK <==> !s.pcs[0].Enter?)
    && (forall i | 0 < i < |s.pcs| :: !s.pcs[i].Publish? && (!s.pcs[i].Enter? ==> s.level >= LEVEL_KMOD_TASK))
    && (s.level < LEVEL_KMOD_TASK || s.level == LEVEL_KMOD_TASK)
    && (c.atomic ==> !s.pcs[0].Publish?)
  }

  lemma GuardedStep(c: Config, s: State, i: nat)
    requires Sane(c) && Guarded(c, s) && i < |s.pcs| && Act(c, s, i).Some?
    ensures Guarded(c, Act(c, s, i).value)
  {
    hide Act, Critical;
    ActMoves(c, s, i);
    ActLocks(c, s, i);
  }

  lemma ActLocks(c: Config, s: State, i: nat)
    requires i < |s.pcs| && Act(c, s, i).Some? && (Critical(s.pcs[i]) <==> s.lock == Some(i))
    ensures var t := Act(c, s, i).value;
            && |t.pcs| == |s.pcs| && (Critical(t.pcs[i]) <==> t.lock == Some(i))
            && (forall j | j != i :: t.lock == Some(j) <==> s.lock == Some(j))
            && t.level == (if s.pcs[i].Enter? && i == 0 then LEVEL_KMOD_TASK else s.level)
            && !t.pcs[i].Enter? && (t.pcs[i].Publish? ==> i == 0 && !c.atomic)
            && (i != 0 && s.pcs[i].Enter? ==> s.level >= LEVEL_KMOD_TASK)
  {
  }

  // ----- which hooks are handed out -----

  function Range(a: nat, b: nat): (r: seq<nat>)
    requires a <= b
  {
    seq(b - a, i requires 0 <= i < b - a => a + i)
  }

  lemma RangeNext(a: nat, b: nat)
    requires a <= b
    ensures Range(a, b) + [b] == Range(a, b + 1)
  {
  }

  /** The cursor once the core inside the critical section has left it. */
  function Pending(s: State): nat
  {
    if s.lock.Some? && s.lock.value < |s.pcs| then
      match s.pcs[s.lock.value]
      case Bump(_) => s.cursor + 1
      case Store(_, value) => value + 1
      case _ => s.cursor
    else s.cursor
  }

  /** The hook at which the handing out began anew when core 0 set the cursor. */
  function Again(s: State): int
  {
    Pending(s) - (|s.log| - s.mark)
  }

  /** No other core can come before core 0 has set the cursor. */
  predicate Alone(c: Config)
  {
    c.atomic || c.cores == 1
  }

  /**
   Until core 0 sets the cursor the hooks are handed out in order, from the first on; after that
   in order again, from a hook that leaves no gap.
   */
  ghost predicate InOrder(c: Config, s: State)
    requires |s.pcs| > 0
  {
    && c.lo <= s.cursor && c.lo <= Pending(s) <= c.hi
    && (s.lock.Some? && s.lock.value < |s.pcs| ==>
          var p := s.pcs[s.lock.value];
          && (p.Fetch? ==> s.cursor < c.hi) && (p.Bump? ==> s.log != [] && c.lo < c.hi)
          && (p.Store? ==> s.log != [] && c.lo <= p.value))
    && if !Published(s) then
         && s.log == Range(c.lo, Pending(s)) && (Alone(c) ==> s.log == [])
       else
         && s.mark <= |s.log| && c.lo <= Again(s) <= c.lo + s.mark <= c.hi && (Alone(c) ==> s.mark == 0)
         && s.log == Range(c.lo, c.lo + s.mark) + Range(Again(s), Pending(s))
  }

  /** Core 0 leaves the loop only when the cursor is at the end for good. */
  ghost predicate Complete(c: Config, s: State)
    requires |s.pcs| > 0
  {
    var p := s.pcs[0];
    p.Leave? || p.Arrive? || p.Wait? || p.Done? ==> Pending(s) == c.hi
  }

  lemma FetchInOrder(c: Config, s: State, i: nat)
    requires Sane(c) && Guarded(c, s) && InOrder(c, s) && i < |s.pcs| && s.pcs[i].Fetch?
    ensures InOrder(c, Act(c, s, i).value)
  {
    if Published(s) {
      RangeNext(Again(s), Pending(s));
    } else {
      RangeNext(c.lo, Pending(s));
    }
  }

  lemma PublishInOrder(c: Config, s: State, i: nat)
    requires Sane(c) && Guarded(c, s) && InOrder(c, s) && i < |s.pcs|
    requires s.pcs[i].Publish? || (s.pcs[i].Enter? && i == 0 && c.atomic)
    ensures InOrder(c, Act(c, s, i).value)
  {
    var t := Act(c, s, i).value;
    assert i == 0 && t.lock == s.lock;
    assert Range(Pending(t), Pending(t)) == [];
  }

  /** Every other step leaves the hook that comes next as it is. */
  lemma SamePending(c: Config, s: State, i: nat)
    requires Sane(c) && Guarded(c, s) && i < |s.pcs| && Act(c, s, i).Some?
    requires !s.pcs[i].Fetch? && !s.pcs[i].Publish? && !(s.pcs[i].Enter? && i == 0 && c.atomic)
    ensures var t := Act(c, s, i).value;
            && Pending(t) == Pending(s) && t.log == s.log && t.mark == s.mark && |t.pcs| == |s.pcs|
            && (Published(t) <==> Published(s))
  {
  }

  lemma InOrderStep(c: Config, s: State, i: nat)
    requires Sane(c) && Guarded(c, s) && InOrder(c, s) && i < |s.pcs| && Act(c, s, i).Some?
    ensures InOrder(c, Act(c, s, i).value)
  {
    if s.pcs[i].Fetch? {
      FetchInOrder(c, s, i);
    } else if s.pcs[i].Publish? || (s.pcs[i].Enter? && i == 0 && c.atomic) {
      PublishInOrder(c, s, i);
    } else {
      SamePending(c, s, i);
      hide Pending;
    }
  }

  lemma CompleteStep(c: Config, s: State, i: nat)
    requires Sane(c) && Guarded(c, s) && InOrder(c, s) && Complete(c, s) && i < |s.pcs| && Act(c, s, i).Some?
    ensures Complete(c, Act(c, s, i).value)
  {
  }

  // ----- the barrier -----

  predicate Arrived(p: Pc)
  {
    p.Wait? || p.Done?
  }

  function Arrivals(pcs: seq<Pc>): set<nat>
  {
    set i: nat | i < |pcs| && Arrived(pcs[i])
  }

  /** The counter counts the cores at the barrier; nobody has passed it before all were there. */
  ghost predicate Barrier(c: Config, s: State)
  {
    s.count == |Arrivals(s.pcs)| && forall i | 0 <= i < |s.pcs| :: s.pcs[i].Done? ==> s.count == c.cores
  }

  lemma {:induction false} Below(n: nat, a: set<nat>)
    requires forall i | i in a :: i < n
    ensures |a| <= n && (|a| == n <==> forall i: nat | i < n :: i in a)
    decreases n
  {
    if n > 0 {
      Below(n - 1, a - {n - 1});
      if n - 1 in a {
        assert a == (a - {n - 1}) + {n - 1};
      } else {
        assert a == a - {n - 1};
      }
    }
  }

  lemma ArrivalsUpdate(pcs: seq<Pc>, i: nat, p: Pc)
    requires i < |pcs|
    ensures Arrivals(pcs[i := p]) == if Arrived(p) then Arrivals(pcs) + {i} else Arrivals(pcs) - {i}
  {
  }

  /** The counter, once it is not zero, is a multiple of the number of cores only when all have come. */
  lemma FullCount(count: nat, cores: nat)
    requires 0 < count <= cores
    ensures count % cores == 0 <==> count == cores
  {
    if count < cores {
      assert count % cores == count;
    } else {
      assert count % cores == 0;
    }
  }

  lemma BarrierStep(c: Config, s: State, i: nat)
    requires Sane(c) && |s.pcs| == c.cores && Barrier(c, s) && i < |s.pcs| && Act(c, s, i).Some?
    ensures Barrier(c, Act(c, s, i).value)
  {
    var t := Act(c, s, i).value;
    ActMoves(c, s, i);
    hide Act;
    ArrivalsUpdate(s.pcs, i, t.pcs[i]);
    Below(c.cores, Arrivals(s.pcs));
    Below(c.cores, Arrivals(t.pcs));
    if t.pcs[i].Done? {
      assert i in Arrivals(s.pcs);
      FullCount(s.count, c.cores);
    }
    assert s.pcs[i].Arrive? ==> i !in Arrivals(s.pcs);
    assert Arrivals(t.pcs) == if s.pcs[i].Arrive? then Arrivals(s.pcs) + {i} else Arrivals(s.pcs);
  }

  // ----- hooks in the hands of a core -----

  function Held(p: Pc, h: nat): nat
  {
    if (p.Bump? || p.Store? || p.Unlock? || p.Hook?) && p.hook == h then 1 else 0
  }

  /** How many cores have the hook `h` in hand. */
  function InHand(pcs: seq<Pc>, h: nat): nat
  {
    if pcs == [] then 0 else Held(pcs[0], h) + InHand(pcs[1..], h)
  }

  lemma {:induction false} InHandUpdate(pcs: seq<Pc>, i: nat, p: Pc, h: nat)
    requires i < |pcs|
    ensures InHand(pcs[i := p], h) + Held(pcs[i], h) == InHand(pcs, h) + Held(p, h)
  {
    if i == 0 {
      assert pcs[i := p][1..] == pcs[1..];
    } else {
      assert pcs[i := p][1..] == pcs[1..][i - 1 := p];
      InHandUpdate(pcs[1..], i - 1, p, h);
    }
  }

  lemma {:induction false} InHandNone(pcs: seq<Pc>, h: nat)
    requires forall i | 0 <= i < |pcs| :: Held(pcs[i], h) == 0
    ensures InHand(pcs, h) == 0
  {
    if pcs != [] {
      assert forall i | 0 <= i < |pcs[1..]| :: pcs[1..][i] == pcs[i + 1];
      InHandNone(pcs[1..], h);
    }
  }

  /** What was handed out has been finished or is in the hands of a core. */
  ghost predicate Accounted(s: State)
  {
    forall h: nat :: multiset(s.log)[h] == s.finished[h] + InHand(s.pcs, h)
  }

  lemma AccountedStep(c: Config, s: State, i: nat)
    requires Accounted(s) && i < |s.pcs| && Act(c, s, i).Some?
    ensures Accounted(Act(c, s, i).value)
  {
    hide Act, InHand;
    var t := Act(c, s, i).value;
    ActMoves(c, s, i);
    ActLogs(c, s, i);
    forall h: nat ensures multiset(t.log)[h] == t.finished[h] + InHand(t.pcs, h) {
      InHandUpdate(s.pcs, i, t.pcs[i], h);
    }
  }

  // ----- all runs -----

  ghost predicate Inv(c: Config, s: State)
  {
    c.cores > 0 && Guarded(c, s) && InOrder(c, s) && Complete(c, s) && Barrier(c, s) && Accounted(s)
  }

  lemma StartInv(c: Config)
    requires Sane(c)
    ensures Inv(c, Start(c))
  {
    var s := Start(c);
    assert Range(c.lo, c.lo) == [];
    assert Arrivals(s.pcs) == {};
    forall h: nat ensures InHand(s.pcs, h) == 0 {
      InHandNone(s.pcs, h);
    }
  }

  lemma MoveInv(c: Config, s: State, i: nat)
    requires Sane(c) && Inv(c, s)
    ensures Inv(c, Move(c, s, i))
  {
    hide Act, Guarded, InOrder, Complete, Barrier, Accounted;
    if i < |s.pcs| && Act(c, s, i).Some? {
      GuardedStep(c, s, i);
      InOrderStep(c, s, i);
      CompleteStep(c, s, i);
      InvSize(c, s);
      BarrierStep(c, s, i);
      AccountedStep(c, s, i);
    }
  }

  lemma InvSize(c: Config, s: State)
    requires Inv(c, s)
    ensures |s.pcs| == c.cores > 0
  {
  }

  lemma {:induction false} RunInv(c: Config, s: State, schedule: seq<nat>)
    requires Sane(c) && Inv(c, s)
    ensures Inv(c, Run(c, s, schedule))
    decreases |schedule|
  {
    if schedule != [] {
      MoveInv(c, s, schedule[0]);
      RunInv(c, Move(c, s, schedule[0]), schedule[1..]);
    }
  }

  // ----- the theorems -----

  lemma {:induction false} RangeCount(a: nat, b: nat, h: nat)
    requires a <= b
    ensures multiset(Range(a, b))[h] == if a <= h < b then 1 else 0
    decreases b
  {
    if a == b {
      assert Range(a, b) == [];
    } else {
      RangeCount(a, b - 1, h);
      RangeNext(a, b - 1);
    }
  }

  /** Core 0 has found the cursor at the end of the level. */
  predicate LoopLeft(s: State)
    requires |s.pcs| > 0
  {
    var p := s.pcs[0];
    p.Leave? || p.Arrive? || p.Wait? || p.Done?
  }

  lemma CountBoth(a: seq<nat>, b: seq<nat>, h: nat)
    ensures multiset(a + b)[h] == multiset(a)[h] + multiset(b)[h]
  {
    assert multiset(a + b) == multiset(a) + multiset(b);
  }

  lemma HandedOutInv(c: Config, s: State, h: nat)
    requires Sane(c) && Inv(c, s)
    ensures multiset(s.log)[h] <= 2 && (multiset(s.log)[h] > 0 ==> c.lo <= h < c.hi)
    ensures Alone(c) ==> multiset(s.log)[h] <= 1
    ensures LoopLeft(s) && c.lo <= h < c.hi ==> multiset(s.log)[h] >= 1
  {
    hide Range, Barrier, Accounted, Pending;
    if Published(s) {
      var first, second := Range(c.lo, c.lo + s.mark), Range(Again(s), Pending(s));
      RangeCount(c.lo, c.lo + s.mark, h);
      RangeCount(Again(s), Pending(s), h);
      CountBoth(first, second, h);
    } else {
      RangeCount(c.lo, Pending(s), h);
    }
  }

  /**
   In every interleaving a hook of the level is handed out at most twice, no other hook ever is,
   and every hook has been handed out when core 0 leaves the loop.
   */
  lemma HandedOut(c: Config, schedule: seq<nat>, h: nat)
    requires Sane(c)
    ensures var s := Run(c, Start(c), schedule);
            && |s.pcs| == c.cores && multiset(s.log)[h] <= 2 && (multiset(s.log)[h] > 0 ==> c.lo <= h < c.hi)
            && (LoopLeft(s) && c.lo <= h < c.hi ==> multiset(s.log)[h] >= 1)
  {
    StartInv(c);
    RunInv(c, Start(c), schedule);
    HandedOutInv(c, Run(c, Start(c), schedule), h);
  }

  // a turn of the loop up to the release of the lock
  function Turn(i: nat): seq<nat>
  {
    [i, i, i, i, i, i]
  }

  /** Core 0 announces the level, core 1 takes the first hook, core 0 sets the cursor and takes it too. */
  function Race(): seq<nat>
  {
    [0, 1] + Turn(1) + [0] + Turn(0)
  }

  lemma {:induction false} RunConcat(c: Config, s: State, a: seq<nat>, b: seq<nat>)
    ensures Run(c, s, a + b) == Run(c, Run(c, s, a), b)
    decreases |a|
  {
    if a == [] {
      assert a + b == b;
    } else {
      assert (a + b)[1..] == a[1..] + b;
      RunConcat(c, Move(c, s, a[0]), a[1..], b);
    }
  }

  lemma Run1(c: Config, s: State, i: nat)
    ensures Run(c, s, [i]) == Move(c, s, i)
  {
    assert [i][1..] == [];
    assert Run(c, Move(c, s, i), []) == Move(c, s, i);
  }

  /** An undisturbed turn hands out the hook under the cursor. */
  lemma TurnTakes(c: Config, s: State, i: nat)
    requires i < |s.pcs| && s.pcs[i] == Lock && s.lock == None && s.cursor < c.hi
    ensures Run(c, s, Turn(i)) == s.(cursor := s.cursor + 1, log := s.log + [s.cursor], pcs := s.pcs[i := Hook(s.cursor)])
  {
    var k := s.cursor;
    var s1 := Move(c, s, i);
    var s2 := Move(c, s1, i);
    var s3 := Move(c, s2, i);
    var s4 := Move(c, s3, i);
    var s5 := Move(c, s4, i);
    assert s1 == s.(lock := Some(i), pcs := s.pcs[i := Check]);
    assert s2.pcs == s.pcs[i := Fetch];
    assert s3.pcs == s.pcs[i := Bump(k)];
    assert s4.pcs == s.pcs[i := Store(k, k)];
    assert s5.pcs == s.pcs[i := Unlock(k)];
    assert Move(c, s5, i).pcs == s.pcs[i := Hook(k)];
    RunSix(c, s, i);
  }

  lemma RunSix(c: Config, s: State, i: nat)
    ensures var s3 := Move(c, Move(c, Move(c, s, i), i), i);
            Run(c, s, Turn(i)) == Move(c, Move(c, Move(c, s3, i), i), i)
  {
    hide Move;
    RunThree(c, s, i);
    RunThree(c, Move(c, Move(c, Move(c, s, i), i), i), i);
    assert Turn(i) == [i, i, i] + [i, i, i];
    RunConcat(c, s, [i, i, i], [i, i, i]);
  }

  lemma RunThree(c: Config, s: State, i: nat)
    ensures Run(c, s, [i, i, i]) == Move(c, Move(c, Move(c, s, i), i), i)
  {
    hide Move;
    assert [i, i, i] == [i] + ([i] + [i]);
    RunConcat(c, s, [i], [i] + [i]);
    RunConcat(c, Run(c, s, [i]), [i], [i]);
    Run1(c, s, i);
    Run1(c, Move(c, s, i), i);
    Run1(c, Move(c, Move(c, s, i), i), i);
  }

  lemma RaceTwice(c: Config)
    requires c.cores >= 2 && c.lo < c.hi && !c.atomic
    ensures Run(c, Start(c), Race()).log == [c.lo, c.lo]
  {
    var s0 := Start(c);
    var s1 := Move(c, s0, 0);
    var s2 := Move(c, s1, 1);
    assert s1 == s0.(level := LEVEL_KMOD_TASK, pcs := s0.pcs[0 := Publish]);
    assert s2 == s1.(pcs := s1.pcs[1 := Lock]);
    TurnTakes(c, s2, 1);
    var s3 := Run(c, s2, Turn(1));
    assert s3.pcs[0] == Publish && s3.lock == None && s3.log == [c.lo];
    var s4 := Move(c, s3, 0);
    assert s4 == s3.(cursor := c.lo, mark := 1, pcs := s3.pcs[0 := Lock]);
    TurnTakes(c, s4, 0);
    RunRace(c);
  }

  lemma RunRace(c: Config)
    ensures var s3 := Run(c, Move(c, Move(c, Start(c), 0), 1), Turn(1));
            Run(c, Start(c), Race()) == Run(c, Move(c, s3, 0), Turn(0))
  {
    hide Move, Start, Turn;
    var s := Start(c);
    assert Race() == [0] + ([1] + (Turn(1) + ([0] + Turn(0))));
    RunConcat(c, s, [0], [1] + (Turn(1) + ([0] + Turn(0))));
    Run1(c, s, 0);
    RunConcat(c, Move(c, s, 0), [1], Turn(1) + ([0] + Turn(0)));
    Run1(c, Move(c, s, 0), 1);
    var s2 := Move(c, Move(c, s, 0), 1);
    RunConcat(c, s2, Turn(1), [0] + Turn(0));
    RunConcat(c, Run(c, s2, Turn(1)), [0], Turn(0));
    Run1(c, Run(c, s2, Turn(1)), 0);
  }

  /**
   Exactly when it takes more than one core, a hook and two separate writes, some interleaving
   hands a hook out twice.
   */
  lemma ExactlyOnce(c: Config)
    requires Sane(c)
    ensures (forall schedule: seq<nat>, h: nat :: multiset(Run(c, Start(c), schedule).log)[h] <= 1)
       <==> c.atomic || c.cores == 1 || c.lo == c.hi
  {
    if c.atomic || c.cores == 1 || c.lo == c.hi {
      forall schedule: seq<nat>, h: nat ensures multiset(Run(c, Start(c), schedule).log)[h] <= 1 {
        StartInv(c);
        RunInv(c, Start(c), schedule);
        HandedOutInv(c, Run(c, Start(c), schedule), h);
      }
    } else {
      RaceTwice(c);
      assert multiset(Run(c, Start(c), Race()).log)[c.lo] == 2;
    }
  }

  /**
   Barrier safety: when a core returns from the level, every core is at the barrier, and every
   hook of the level has run to its end, as often as it was handed out: once or twice, and exactly
   once if core 0 publishes level and cursor in one step or is the only core.
   */
  lemma BarrierSafe(c: Config, schedule: seq<nat>, i: nat)
    requires Sane(c) && i < |Run(c, Start(c), schedule).pcs| && Run(c, Start(c), schedule).pcs[i].Done?
    ensures var s := Run(c, Start(c), schedule);
            && (forall j | 0 <= j < c.cores :: j < |s.pcs| && Arrived(s.pcs[j]))
            && (forall h: nat :: s.finished[h] == multiset(s.log)[h])
            && (forall h: nat | c.lo <= h < c.hi :: 1 <= s.finished[h] <= if Alone(c) then 1 else 2)
  {
    var s := Run(c, Start(c), schedule);
    StartInv(c);
    RunInv(c, Start(c), schedule);
    AllArrived(c, s);
    forall h: nat ensures InHand(s.pcs, h) == 0 && (c.lo <= h < c.hi ==> 1 <= multiset(s.log)[h] <= if Alone(c) then 1 else 2) {
      InHandNone(s.pcs, h);
      HandedOutInv(c, s, h);
    }
  }

  lemma AllArrived(c: Config, s: State)
    requires Sane(c) && Inv(c, s) && s.count == c.cores
    ensures forall j | 0 <= j < c.cores :: Arrived(s.pcs[j])
  {
    Below(c.cores, Arrivals(s.pcs));
    forall j | 0 <= j < c.cores ensures Arrived(s.pcs[j]) {
      assert j in Arrivals(s.pcs);
    }
  }

  /** Once all cores have arrived, every one of them is free to go, now and ever after. */
  lemma ReleaseStable(c: Config, schedule: seq<nat>, more: seq<nat>)
    requires Sane(c) && Run(c, Start(c), schedule).count == c.cores
    ensures var t := Run(c, Run(c, Start(c), schedule), more);
            t.count == c.cores && forall j: nat | j < |t.pcs| :: t.pcs[j].Done? || Act(c, t, j).Some?
  {
    StartInv(c);
    RunInv(c, Start(c), schedule);
    StaysReleased(c, Run(c, Start(c), schedule), more);
  }

  lemma {:induction false} StaysReleased(c: Config, s: State, more: seq<nat>)
    requires Sane(c) && Inv(c, s) && s.count == c.cores
    ensures var t := Run(c, s, more);
            t.count == c.cores && forall j: nat | j < |t.pcs| :: t.pcs[j].Done? || Act(c, t, j).Some?
    decreases |more|
  {
    AllArrived(c, s);
    if more == [] {
      FullCount(s.count, c.cores);
    } else {
      MoveInv(c, s, more[0]);
      StaysReleased(c, Move(c, s, more[0]), more[1..]);
    }
  }

  /** No deadlock: in every interleaving some core can move until all have returned. */
  lemma Progress(c: Config, schedule: seq<nat>)
    requires Sane(c)
    ensures var s := Run(c, Start(c), schedule);
            AllDone(s) || exists i: nat :: i < |s.pcs| && Act(c, s, i).Some?
  {
    var s := Run(c, Start(c), schedule);
    StartInv(c);
    RunInv(c, Start(c), schedule);
    CanMove(c, s);
  }

  lemma CanMove(c: Config, s: State)
    requires Sane(c) && Inv(c, s)
    ensures AllDone(s) || exists i: nat :: i < |s.pcs| && Act(c, s, i).Some?
  {
    if s.lock.Some? {
      assert Act(c, s, s.lock.value).Some?;
    } else if s.pcs[0].Enter? || s.pcs[0].Publish? {
      assert Act(c, s, 0).Some?;
    } else if i: nat :| i < |s.pcs| && !Arrived(s.pcs[i]) {
      assert Act(c, s, i).Some?;
    } else {
      Below(c.cores, Arrivals(s.pcs));
      assert s.count == c.cores;
      FullCount(s.count, c.cores);
      if i: nat :| i < |s.pcs| && s.pcs[i].Wait? {
        assert Act(c, s, i).Some?;
      }
    }
  }

  // ----- level 9 always ends -----

  /** How many moves a core has before it, at most, if it takes no further hook. */
  function Rank(p: Pc): nat
  {
    match p
    case Enter => 8
    case Publish => 7
    case Bump(_) => 10
    case Store(_, _) => 9
    case Unlock(_) => 8
    case Hook(_) => 7
    case Lock => 6
    case Check => 5
    case Fetch => 4
    case Leave => 3
    case Arrive => 2
    case Wait => 1
    case Done => 0
  }

  function Ranks(pcs: seq<Pc>): nat
  {
    if pcs == [] then 0 else Rank(pcs[0]) + Ranks(pcs[1..])
  }

  /** A bound on the moves that are left: a hook that is taken gives its core eight more at most. */
  function MovesLeft(c: Config, s: State): int
  {
    8 * (2 * (c.hi - c.lo) - |s.log|) + Ranks(s.pcs)
  }

  /** The bound for the whole level. */
  function Bound(c: Config): int
  {
    16 * (c.hi - c.lo) + 8 * c.cores
  }

  lemma {:induction false} RanksUpdate(pcs: seq<Pc>, i: nat, p: Pc)
    requires i < |pcs|
    ensures Ranks(pcs[i := p]) + Rank(pcs[i]) == Ranks(pcs) + Rank(p)
  {
    if i == 0 {
      assert pcs[i := p][1..] == pcs[1..];
    } else {
      assert pcs[i := p][1..] == pcs[1..][i - 1 := p];
      RanksUpdate(pcs[1..], i - 1, p);
    }
  }

  lemma ActRanks(c: Config, s: State, i: nat)
    requires i < |s.pcs| && Act(c, s, i).Some?
    ensures var t := Act(c, s, i).value;
            |t.pcs| == |s.pcs| && Rank(t.pcs[i]) - 8 * |t.log| < Rank(s.pcs[i]) - 8 * |s.log|
  {
  }

  /** Every move uses up at least one. */
  lemma MoveUses(c: Config, s: State, i: nat)
    requires i < |s.pcs| && Act(c, s, i).Some?
    ensures MovesLeft(c, Act(c, s, i).value) < MovesLeft(c, s)
  {
    hide Act, Ranks, Rank;
    var t := Act(c, s, i).value;
    ActMoves(c, s, i);
    ActRanks(c, s, i);
    RanksUpdate(s.pcs, i, t.pcs[i]);
  }

  lemma MovesNotNegative(c: Config, s: State)
    requires Sane(c) && Inv(c, s)
    ensures MovesLeft(c, s) >= 0
  {
    hide Act, Range, Barrier, Accounted, Complete, Ranks;
    if Published(s) {
      assert |Range(c.lo, c.lo + s.mark)| == s.mark && |Range(Again(s), Pending(s))| == Pending(s) - Again(s) by {
        RangeSize(c.lo, c.lo + s.mark);
        RangeSize(Again(s), Pending(s));
      }
    } else {
      RangeSize(c.lo, Pending(s));
    }
  }

  lemma RangeSize(a: nat, b: nat)
    requires a <= b
    ensures |Range(a, b)| == b - a
  {
  }

  lemma {:induction false} StartRanks(n: nat)
    ensures Ranks(seq(n, _ => Enter)) == 8 * n
  {
    if n > 0 {
      assert seq(n, _ => Enter)[1..] == seq(n - 1, _ => Enter);
      StartRanks(n - 1);
    }
  }

  /** How many of the moves of a schedule take place: a core that spins does not move. */
  function Moves(c: Config, s: State, schedule: seq<nat>): nat
    decreases |schedule|
  {
    if schedule == [] then 0
    else
      (if schedule[0] < |s.pcs| && Act(c, s, schedule[0]).Some? then 1 else 0)
      + Moves(c, Move(c, s, schedule[0]), schedule[1..])
  }

  lemma {:induction false} RunUses(c: Config, s: State, schedule: seq<nat>)
    ensures MovesLeft(c, Run(c, s, schedule)) + Moves(c, s, schedule) <= MovesLeft(c, s)
    decreases |schedule|
  {
    if schedule != [] {
      hide Act, MovesLeft;
      var i := schedule[0];
      if i < |s.pcs| && Act(c, s, i).Some? {
        MoveUses(c, s, i);
      }
      RunUses(c, Move(c, s, i), schedule[1..]);
    }
  }

  /** No interleaving has more than sixteen moves for each hook and eight for each core. */
  lemma MovesBounded(c: Config, schedule: seq<nat>)
    requires Sane(c)
    ensures Moves(c, Start(c), schedule) <= Bound(c)
  {
    StartInv(c);
    RunInv(c, Start(c), schedule);
    RunUses(c, Start(c), schedule);
    MovesNotNegative(c, Run(c, Start(c), schedule));
    StartRanks(c.cores);
  }

  predicate AllDone(s: State)
  {
    forall i | 0 <= i < |s.pcs| :: s.pcs[i].Done?
  }

  /** If the core `i` can move and gets a turn, the round has at least one move. */
  lemma {:induction false} RoundMoves(c: Config, s: State, round: seq<nat>, i: nat)
    requires i in round && i < |s.pcs| && Act(c, s, i).Some?
    ensures Moves(c, s, round) > 0
    decreases |round|
  {
    hide Act;
    var j := round[0];
    if !(j < |s.pcs| && Act(c, s, j).Some?) {
      assert round == [j] + round[1..] && i in round[1..];
      RoundMoves(c, s, round[1..], i);
    }
  }

  lemma {:induction false} DoneStays(c: Config, s: State, schedule: seq<nat>)
    requires AllDone(s)
    ensures Run(c, s, schedule) == s
    decreases |schedule|
  {
    if schedule != [] {
      DoneStays(c, s, schedule[1..]);
    }
  }

  /** A run in rounds: every core gets a turn in each. */
  ghost predicate Fair(c: Config, rounds: seq<seq<nat>>)
  {
    forall r, i: nat | r in rounds && i < c.cores :: i in r
  }

  function Flat(rounds: seq<seq<nat>>): seq<nat>
  {
    if rounds == [] then [] else rounds[0] + Flat(rounds[1..])
  }

  lemma {:induction false} FairEnds(c: Config, s: State, rounds: seq<seq<nat>>)
    requires Sane(c) && Inv(c, s) && Fair(c, rounds) && |rounds| > MovesLeft(c, s)
    ensures AllDone(Run(c, s, Flat(rounds)))
    decreases |rounds|
  {
    MovesNotNegative(c, s);
    if AllDone(s) {
      DoneStays(c, s, Flat(rounds));
    } else {
      InvSize(c, s);
      CanMove(c, s);
      hide Act, Inv, MovesLeft, Run;
      var i: nat :| i < |s.pcs| && Act(c, s, i).Some?;
      var first, rest := rounds[0], rounds[1..];
      assert first in rounds && forall r | r in rest :: r in rounds;
      RoundMoves(c, s, first, i);
      RunUses(c, s, first);
      RunInv(c, s, first);
      RunConcat(c, s, first, Flat(rest));
      FairEnds(c, Run(c, s, first), rest);
    }
  }

  /** With more fair rounds than the bound, every core has returned from level 9. */
  lemma LevelEnds(c: Config, rounds: seq<seq<nat>>)
    requires Sane(c) && Fair(c, rounds) && |rounds| > Bound(c)
    ensures AllDone(Run(c, Start(c), Flat(rounds)))
  {
    StartInv(c);
    StartRanks(c.cores);
    FairEnds(c, Start(c), rounds);
  }

  // ----- the earlier levels -----

  /** `starts` is g_kernInitLevelList, where each level begins in the table of hooks. */
  predicate Table(starts: seq<nat>)
  {
    |starts| == LEVEL_FINISH + 1 && forall l, m | 0 <= l <= m < |starts| :: starts[l] <= starts[m]
  }

  class InitFramework {
    const starts: seq<nat>
    var currentLevel: nat
    var currentModule: nat
    ghost var log: seq<nat>

    constructor (starts: seq<nat>)
      ensures this.starts == starts && log == []
    {
      this.starts := starts;
      currentLevel, currentModule, log := 0xffff_ffff, 0, [];
    }

    /** InitLevelCall on core 0 while it is the only core, at a level below the barrier. */
    method InitLevelCall(level: nat)
      requires Table(starts) && level < 9
      modifies this
      ensures currentLevel == level && currentModule == starts[level + 1]
      ensures starts[level] <= starts[level + 1] && log == old(log) + Range(starts[level], starts[level + 1])
      ensures |log| == |old(log)| + starts[level + 1] - starts[level]
      ensures forall k | |old(log)| <= k < |log| :: log[k] == starts[level] + k - |old(log)|
    {
      currentLevel := level;
      currentModule := starts[level];
      assert Range(starts[level], currentModule) == [];
      while currentModule < starts[level + 1]
        invariant starts[level] <= currentModule <= starts[level + 1] && currentLevel == level
        invariant log == old(log) + Range(starts[level], currentModule)
      {
        RangeNext(starts[level], currentModule);
        log := log + [currentModule];
        currentModule := currentModule + 1;
      }
    }

    /** Levels 0 to 8 hand out each of their hooks once, in order, and leave the cursor at level 9. */
    method RunLevels()
      requires Table(starts) && log == []
      modifies this
      ensures starts[0] <= starts[9] && log == Range(starts[0], starts[9])
      ensures currentModule == starts[9] && currentLevel == 8
      ensures |log| == starts[9] - starts[0] && forall k | 0 <= k < |log| :: log[k] == starts[0] + k
    {
      var level := 0;
      assert Range(starts[0], starts[0]) == [];
      while level < LEVEL_KMOD_TASK
        invariant level <= LEVEL_KMOD_TASK && starts[0] <= starts[level] && log == Range(starts[0], starts[level])
        invariant level > 0 ==> currentModule == starts[level] && currentLevel == level - 1
      {
        InitLevelCall(level);
        assert Range(starts[0], starts[level]) + Range(starts[level], starts[level + 1]) == Range(starts[0], starts[level + 1]);
        level := level + 1;
      }
    }
  }
}
