/**
 Access rights of the console (`kernel/common/console.c`): tasks take turns by a semaphore, and
 whoever but the shell holds the rights has the shell suspended.  A state machine: waiting for the
 semaphore, posting it, changing the reference count, and testing it together with what is done to
 the shell are one step each, and the tasks may be interleaved between any two steps.
 */
module ConsoleRights {
  /**
   Where a task stands.  Pend, Test, Mark: in ConsoleCtrlRightsCapture, before, at and after the
   test of the reference count.  Check to Post: in ConsoleCtrlRightsRelease.  Ready: in neither.
   */
  datatype Pc = Ready | Pend | Test | Mark | Check | Lower | Resume | Post

  /** `held`: how often the task is past a pend and not yet past the post that belongs to it. */
  datatype Task = Task(pc: Pc, held: nat)

  /** `spurious` counts the posts by tasks that had captured nothing. */
  datatype State = State(sem: nat, refCount: int, suspended: bool, tasks: seq<Task>, spurious: nat)

  /**
   `strict`: only holders release; otherwise any task may, through ioctl.  `once`: no holder
   captures again; otherwise a task that has captured through ioctl may, as it does when it reads.
   */
  datatype Config = Config(tasks: nat, shell: nat, strict: bool, once: bool)

  datatype Wish = Capture | Release

  datatype Next = Blocked | Next(state: State)

  /** The semaphore is created with a count of one. */
  function Start(c: Config): State
  {
    State(1, 0, false, seq(c.tasks, _ => Task(Ready, 0)), 0)
  }

  /** The next step of task `i`, if it can take one; a task that is ready does what it wishes. */
  function Act(c: Config, s: State, i: nat, wish: Wish): Next
    requires i < |s.tasks|
  {
    var x := s.tasks[i];
    if i == c.shell && s.suspended then Blocked else
    match x.pc
    case Ready =>
      if wish.Capture? then
        if c.once && x.held > 0 then Blocked else Next(s.(tasks := s.tasks[i := x.(pc := Pend)]))
      else if c.strict && x.held == 0 then Blocked
      else Next(s.(tasks := s.tasks[i := x.(pc := Check)]))
    case Pend =>
      if s.sem == 0 then Blocked
      else Next(s.(sem := s.sem - 1, tasks := s.tasks[i := Task(Test, x.held + 1)]))
    case Test =>
      Next(s.(suspended := s.suspended || (s.refCount == 0 && i != c.shell), tasks := s.tasks[i := x.(pc := Mark)]))
    case Mark => Next(s.(refCount := s.refCount + 1, tasks := s.tasks[i := x.(pc := Ready)]))
    case Check => Next(s.(tasks := s.tasks[i := x.(pc := if s.refCount == 0 then Post else Lower)]))
    case Lower => Next(s.(refCount := s.refCount - 1, tasks := s.tasks[i := x.(pc := Resume)]))
    case Resume =>
      Next(s.(suspended := s.suspended && !(s.refCount == 0 && i != c.shell), tasks := s.tasks[i := x.(pc := Post)]))
    case Post =>
      if x.held > 0 then Next(s.(sem := s.sem + 1, tasks := s.tasks[i := Task(Ready, x.held - 1)]))
      else Next(s.(sem := s.sem + 1, spurious := s.spurious + 1, tasks := s.tasks[i := Task(Ready, 0)]))
  }

  function Move(c: Config, s: State, i: nat, wish: Wish): State
  {
    if i < |s.tasks| && Act(c, s, i, wish).Next? then Act(c, s, i, wish).state else s
  }

  /** Any interleaving. */
  function Run(c: Config, s: State, schedule: seq<(nat, Wish)>): State
    decreases |schedule|
  {
    if schedule == [] then s else Run(c, Move(c, s, schedule[0].0, schedule[0].1), schedule[1..])
  }

  // ----- conservation -----

  function Held(tasks: seq<Task>): nat
  {
    if tasks == [] then 0 else tasks[0].held + Held(tasks[1..])
  }

  lemma {:induction false} HeldUpdate(tasks: seq<Task>, i: nat, x: Task)
    requires i < |tasks|
    ensures Held(tasks[i := x]) + tasks[i].held == Held(tasks) + x.held
  {
    if i == 0 {
      assert tasks[i := x][1..] == tasks[1..];
    } else {
      assert tasks[i := x][1..] == tasks[1..][i - 1 := x];
      HeldUpdate(tasks[1..], i - 1, x);
    }
  }

  ghost predicate Conserved(s: State)
  {
    s.sem + Held(s.tasks) == 1 + s.spurious
  }

  lemma ActMoves(c: Config, s: State, i: nat, wish: Wish)
    requires i < |s.tasks| && Act(c, s, i, wish).Next?
    ensures var t := Act(c, s, i, wish).state;
            && |t.tasks| == |s.tasks| && t.tasks == s.tasks[i := t.tasks[i]]
            && t.sem + t.tasks[i].held - t.spurious == s.sem + s.tasks[i].held - s.spurious
  {
  }

  lemma ConservedMove(c: Config, s: State, i: nat, wish: Wish)
    requires Conserved(s)
    ensures Conserved(Move(c, s, i, wish)) && |Move(c, s, i, wish).tasks| == |s.tasks|
  {
    hide Act, Held;
    if i < |s.tasks| && Act(c, s, i, wish).Next? {
      ActMoves(c, s, i, wish);
      HeldUpdate(s.tasks, i, Act(c, s, i, wish).state.tasks[i]);
    }
  }

  /** Whatever the tasks do, a spurious release adds one to what the semaphore hands out, for good. */
  lemma {:induction false} ConservedRun(c: Config, s: State, schedule: seq<(nat, Wish)>)
    requires Conserved(s)
    ensures Conserved(Run(c, s, schedule)) && |Run(c, s, schedule).tasks| == |s.tasks|
    decreases |schedule|
  {
    if schedule != [] {
      ConservedMove(c, s, schedule[0].0, schedule[0].1);
      ConservedRun(c, Move(c, s, schedule[0].0, schedule[0].1), schedule[1..]);
    }
  }

  lemma {:induction false} HeldNone(n: nat)
    ensures Held(seq(n, _ => Task(Ready, 0))) == 0
  {
    if n > 0 {
      assert seq(n, _ => Task(Ready, 0))[1..] == seq(n - 1, _ => Task(Ready, 0));
      HeldNone(n - 1);
    }
  }

  /** In every run at all: the semaphore's count and the captures held make one, plus the spurious posts. */
  lemma Conservation(c: Config, schedule: seq<(nat, Wish)>)
    ensures var s := Run(c, Start(c), schedule);
            s.sem + Held(s.tasks) == 1 + s.spurious && |s.tasks| == c.tasks
  {
    HeldNone(c.tasks);
    ConservedRun(c, Start(c), schedule);
  }

  // ----- only holders release -----

  predicate Holds(x: Task)
  {
    x.held > 0
  }

  /** The reference count is one from Mark to Lower. */
  predicate Counts(x: Task)
  {
    Holds(x) && (x.pc.Ready? || x.pc.Pend? || x.pc.Check? || x.pc.Lower?)
  }

  /** A task other than the shell has the shell suspended from Test to Resume. */
  predicate Suspends(x: Task)
  {
    Holds(x) && !x.pc.Test? && !x.pc.Post?
  }

  /** Nobody holds the rights: the semaphore is free, and no task is on its way to release. */
  ghost predicate Free(c: Config, s: State)
  {
    && |s.tasks| == c.tasks && c.strict && s.spurious == 0
    && (forall i | 0 <= i < |s.tasks| :: s.tasks[i].held == 0 && (s.tasks[i].pc.Ready? || s.tasks[i].pc.Pend?))
    && s.sem == 1 && s.refCount == 0 && !s.suspended
  }

  /** The task `w` alone is past the semaphore, and all else follows from where it stands. */
  ghost predicate HeldBy(c: Config, s: State, w: nat)
  {
    && |s.tasks| == c.tasks && c.strict && s.spurious == 0
    && (forall i | 0 <= i < |s.tasks| && i != w ::
          s.tasks[i].held == 0 && (s.tasks[i].pc.Ready? || s.tasks[i].pc.Pend?))
    && w < |s.tasks| && s.tasks[w].held == 1 && s.sem == 0 && (c.once ==> !s.tasks[w].pc.Pend?)
    && s.refCount == (if Counts(s.tasks[w]) then 1 else 0)
    && (s.suspended <==> w != c.shell && Suspends(s.tasks[w]))
  }

  ghost predicate Orderly(c: Config, s: State)
  {
    Free(c, s) || exists w: nat :: HeldBy(c, s, w)
  }

  lemma FreeStep(c: Config, s: State, i: nat, wish: Wish)
    requires Free(c, s)
    ensures Free(c, Move(c, s, i, wish)) || HeldBy(c, Move(c, s, i, wish), i)
  {
  }

  lemma HeldByStep(c: Config, s: State, w: nat, i: nat, wish: Wish)
    requires HeldBy(c, s, w)
    ensures Free(c, Move(c, s, i, wish)) || HeldBy(c, Move(c, s, i, wish), w)
  {
  }

  lemma {:induction false} OrderlyRun(c: Config, s: State, schedule: seq<(nat, Wish)>)
    requires Orderly(c, s)
    ensures Orderly(c, Run(c, s, schedule))
    decreases |schedule|
  {
    if schedule != [] {
      var i, wish := schedule[0].0, schedule[0].1;
      if Free(c, s) {
        FreeStep(c, s, i, wish);
      } else {
        var w: nat :| HeldBy(c, s, w);
        HeldByStep(c, s, w, i, wish);
      }
      OrderlyRun(c, Move(c, s, i, wish), schedule[1..]);
    }
  }

  /**
   In every interleaving in which only holders release: at most one task is past the semaphore,
   the reference count is 0 or 1, the semaphore and the holders make one, and the shell is
   suspended exactly while a task other than the shell holds the rights.
   */
  lemma RightsProtocol(c: Config, schedule: seq<(nat, Wish)>)
    requires c.strict
    ensures var s := Run(c, Start(c), schedule);
            && (forall i: nat, j: nat | i < |s.tasks| && j < |s.tasks| ::
                  s.tasks[i].held > 0 && s.tasks[j].held > 0 ==> i == j)
            && s.sem + Held(s.tasks) == 1 && 0 <= s.refCount <= 1
            && (s.refCount == 1 <==> exists i: nat :: i < |s.tasks| && s.tasks[i].held > 0
                                                      && s.tasks[i].pc in {Ready, Pend, Check, Lower})
            && (s.suspended <==> exists i: nat :: i < |s.tasks| && i != c.shell && s.tasks[i].held > 0
                                                  && s.tasks[i].pc !in {Test, Post})
  {
    var s := Run(c, Start(c), schedule);
    Conservation(c, schedule);
    OrderlyRun(c, Start(c), schedule);
    OrderlyMeans(c, s);
  }

  lemma OrderlyMeans(c: Config, s: State)
    requires Orderly(c, s)
    ensures s.spurious == 0 && 0 <= s.refCount <= 1
    ensures forall i: nat, j: nat | i < |s.tasks| && j < |s.tasks| && Holds(s.tasks[i]) && Holds(s.tasks[j]) :: i == j
    ensures s.refCount == 1 <==> exists i: nat :: i < |s.tasks| && Counts(s.tasks[i])
    ensures s.suspended <==> exists i: nat :: i < |s.tasks| && i != c.shell && Suspends(s.tasks[i])
  {
  }

  // ----- the suspended shell -----

  /** A suspended shell does nothing; only other tasks suspend or resume it, at a reference count of zero. */
  lemma ShellStep(c: Config, s: State, i: nat, wish: Wish)
    ensures var t := Move(c, s, i, wish);
            && |t.tasks| == |s.tasks|
            && (s.suspended && c.shell < |s.tasks| ==> t.tasks[c.shell] == s.tasks[c.shell])
            && (t.suspended != s.suspended ==>
                  i != c.shell && i < |s.tasks| && s.refCount == 0 && s.tasks[i].pc == if s.suspended then Resume else Test)
  {
  }

  /** As long as the shell is suspended it stays where it is, whatever the others do. */
  lemma {:induction false} ShellStays(c: Config, s: State, schedule: seq<(nat, Wish)>)
    requires c.shell < |s.tasks|
    requires forall n: nat | n < |schedule| :: Run(c, s, schedule[..n]).suspended
    ensures var t := Run(c, s, schedule);
            |t.tasks| == |s.tasks| && t.tasks[c.shell] == s.tasks[c.shell]
    decreases |schedule|
  {
    if schedule != [] {
      hide Move;
      var s1, rest := Move(c, s, schedule[0].0, schedule[0].1), schedule[1..];
      assert Run(c, s, schedule[..0]) == s;
      ShellStep(c, s, schedule[0].0, schedule[0].1);
      forall n: nat | n < |rest| ensures Run(c, s1, rest[..n]).suspended {
        assert schedule[..n + 1][1..] == rest[..n];
        assert Run(c, s, schedule[..n + 1]).suspended;
      }
      ShellStays(c, s1, rest);
    }
  }

  // ----- progress -----

  /** Task `i` can move, and it is the one to do it: it holds the rights, or they are free. */
  predicate CanMove(c: Config, s: State, i: nat, wish: Wish)
  {
    i < |s.tasks| && Act(c, s, i, wish).Next? && (s.sem > 0 || Holds(s.tasks[i]))
  }

  /** The rights are free and there is a taker, or whoever holds them can go on. */
  ghost predicate Alive(c: Config, s: State)
  {
    exists i: nat, wish :: CanMove(c, s, i, wish)
  }

  ghost predicate AliveAfter(c: Config, schedule: seq<(nat, Wish)>)
  {
    Alive(c, Run(c, Start(c), schedule))
  }

  lemma OrderlyAlive(c: Config, s: State)
    requires Orderly(c, s) && c.once && c.tasks > 0
    ensures Alive(c, s)
  {
    if Free(c, s) {
      assert CanMove(c, s, 0, Capture);
    } else {
      var w: nat :| HeldBy(c, s, w);
      assert CanMove(c, s, w, Release);
    }
  }

  /** Task 0 captures the rights, as through ioctl, and captures them again, as a read does. */
  const SECOND: seq<(nat, Wish)> := [(0, Capture), (0, Capture), (0, Capture), (0, Capture), (0, Capture)]

  lemma Run1(c: Config, s: State, x: (nat, Wish))
    ensures Run(c, s, [x]) == Move(c, s, x.0, x.1)
  {
    var none: seq<(nat, Wish)> := [x][1..];
    assert none == [];
    assert Run(c, Move(c, s, x.0, x.1), none) == Move(c, s, x.0, x.1);
  }

  lemma Run5(c: Config, s: State, i: nat, wish: Wish)
    ensures var s3 := Move(c, Move(c, Move(c, s, i, wish), i, wish), i, wish);
            var x := (i, wish);
            Run(c, s, [x, x, x, x, x]) == Move(c, Move(c, s3, i, wish), i, wish)
  {
    hide Move;
    var x := (i, wish);
    var s1 := Move(c, s, i, wish);
    var s2 := Move(c, s1, i, wish);
    var s3 := Move(c, s2, i, wish);
    var s4 := Move(c, s3, i, wish);
    assert [x, x, x, x, x][1..] == [x, x, x, x] && [x, x, x, x][1..] == [x, x, x];
    assert [x, x, x][1..] == [x, x] && [x, x][1..] == [x];
    Run1(c, s4, x);
    assert Run(c, s3, [x, x]) == Run(c, s4, [x]);
    assert Run(c, s2, [x, x, x]) == Run(c, s3, [x, x]);
    assert Run(c, s1, [x, x, x, x]) == Run(c, s2, [x, x, x]);
  }

  /** The holder is in its second pend. */
  ghost predicate SelfBlocked(c: Config, s: State, w: nat)
  {
    HeldBy(c, s, w) && s.tasks[w].pc.Pend?
  }

  lemma SecondCapture(c: Config)
    requires c.strict && !c.once && c.tasks > 0
    ensures SelfBlocked(c, Run(c, Start(c), SECOND), 0)
  {
    var s0 := Start(c);
    var s1 := Move(c, s0, 0, Capture);
    var s2 := Move(c, s1, 0, Capture);
    var s3 := Move(c, s2, 0, Capture);
    var s4 := Move(c, s3, 0, Capture);
    var s5 := Move(c, s4, 0, Capture);
    assert s1 == s0.(tasks := s0.tasks[0 := Task(Pend, 0)]);
    assert s2 == s0.(sem := 0, tasks := s0.tasks[0 := Task(Test, 1)]);
    assert s3 == s2.(suspended := 0 != c.shell, tasks := s0.tasks[0 := Task(Mark, 1)]);
    assert s4 == s3.(refCount := 1, tasks := s0.tasks[0 := Task(Ready, 1)]);
    assert s5 == s4.(tasks := s0.tasks[0 := Task(Pend, 1)]);
    Run5(c, s0, 0, Capture);
  }

  lemma BlockedStep(c: Config, s: State, w: nat, i: nat, wish: Wish)
    requires SelfBlocked(c, s, w)
    ensures SelfBlocked(c, Move(c, s, i, wish), w) && !CanMove(c, s, i, wish)
  {
  }

  /** A holder that captures again waits for ever: whatever the others do, nobody ever gets the rights. */
  lemma {:induction false} StaysBlocked(c: Config, s: State, w: nat, more: seq<(nat, Wish)>)
    requires SelfBlocked(c, s, w)
    ensures SelfBlocked(c, Run(c, s, more), w) && !Alive(c, Run(c, s, more))
    decreases |more|
  {
    if more == [] {
      forall i: nat, wish ensures !CanMove(c, s, i, wish) {
        BlockedStep(c, s, w, i, wish);
      }
    } else {
      BlockedStep(c, s, w, more[0].0, more[0].1);
      StaysBlocked(c, Move(c, s, more[0].0, more[0].1), w, more[1..]);
    }
  }

  /**
   If only holders release, then in every interleaving the rights are free with a taker, or
   whoever holds them can go on, exactly if no holder captures twice.
   */
  lemma RightsProgress(c: Config)
    requires c.strict && c.tasks > 0
    ensures c.once <==> forall schedule :: AliveAfter(c, schedule)
  {
    if c.once {
      forall schedule ensures AliveAfter(c, schedule) {
        OrderlyRun(c, Start(c), schedule);
        OrderlyAlive(c, Run(c, Start(c), schedule));
      }
    } else {
      SecondCapture(c);
      var blocked := Run(c, Start(c), SECOND);
      StaysBlocked(c, blocked, 0, []);
      assert !AliveAfter(c, SECOND);
    }
  }

  // ----- anybody may release -----

  function Holders(tasks: seq<Task>): set<nat>
  {
    set i: nat | i < |tasks| && Holds(tasks[i])
  }

  /** Task 0 releases rights that nobody holds; then it captures them. */
  const INTRUSION: seq<(nat, Wish)> := [(0, Release), (0, Release), (0, Release), (0, Capture), (0, Capture)]

  /** Then task 1 captures them too. */
  const SECOND_ENTRY: seq<(nat, Wish)> := [(1, Capture), (1, Capture)]

  lemma {:induction false} RunConcat(c: Config, s: State, a: seq<(nat, Wish)>, b: seq<(nat, Wish)>)
    ensures Run(c, s, a + b) == Run(c, Run(c, s, a), b)
    decreases |a|
  {
    if a == [] {
      assert a + b == b;
    } else {
      assert (a + b)[1..] == a[1..] + b;
      RunConcat(c, Move(c, s, a[0].0, a[0].1), a[1..], b);
    }
  }

  lemma Run2(c: Config, s: State, x: (nat, Wish), y: (nat, Wish))
    ensures Run(c, s, [x, y]) == Move(c, Move(c, s, x.0, x.1), y.0, y.1)
  {
    hide Move;
    assert [x, y][1..] == [y];
    Run1(c, Move(c, s, x.0, x.1), y);
  }

  /** A post by task 0, which holds nothing, makes the semaphore two; both tasks get past it. */
  lemma TwoInside(c: Config)
    requires !c.strict && c.tasks >= 2
    ensures var s := Run(c, Start(c), INTRUSION + SECOND_ENTRY);
            |s.tasks| == c.tasks && s.tasks[0] == s.tasks[1] == Task(Test, 1)
  {
    var s0 := Start(c);
    var s2 := Move(c, Move(c, s0, 0, Release), 0, Release);
    assert s2 == s0.(tasks := s0.tasks[0 := Task(Post, 0)]);
    var s3 := Move(c, s2, 0, Release);
    assert s3 == s0.(sem := 2, spurious := 1);
    var s5 := Move(c, Move(c, s3, 0, Capture), 0, Capture);
    assert s5 == s3.(sem := 1, tasks := s0.tasks[0 := Task(Test, 1)]);
    var s7 := Move(c, Move(c, s5, 1, Capture), 1, Capture);
    assert s7.tasks == s0.tasks[0 := Task(Test, 1)][1 := Task(Test, 1)];
    RunIntrusion(c, s0);
  }

  lemma RunIntrusion(c: Config, s: State)
    ensures var s3 := Move(c, Move(c, Move(c, s, 0, Release), 0, Release), 0, Release);
            var s5 := Move(c, Move(c, s3, 0, Capture), 0, Capture);
            Run(c, s, INTRUSION + SECOND_ENTRY) == Move(c, Move(c, s5, 1, Capture), 1, Capture)
  {
    hide Move;
    var r, k, e := (0, Release), (0, Capture), (1, Capture);
    var s1 := Move(c, s, 0, Release);
    RunConcat(c, s, INTRUSION, SECOND_ENTRY);
    assert INTRUSION[1..] == [r, r] + [k, k];
    RunConcat(c, s1, [r, r], [k, k]);
    Run2(c, s1, r, r);
    Run2(c, Move(c, Move(c, s1, 0, Release), 0, Release), k, k);
    Run2(c, Run(c, s, INTRUSION), e, e);
  }

  lemma OneHolder(c: Config, schedule: seq<(nat, Wish)>)
    requires c.strict || c.tasks <= 1
    ensures |Holders(Run(c, Start(c), schedule).tasks)| <= 1
  {
    var s := Run(c, Start(c), schedule);
    Conservation(c, schedule);
    if c.strict {
      RightsProtocol(c, schedule);
    }
    if i :| i in Holders(s.tasks) {
      assert Holders(s.tasks) == {i};
    }
  }

  /** Mutual exclusion holds in every interleaving exactly if only holders release, or there is but one task. */
  lemma MutualExclusion(c: Config)
    ensures c.strict || c.tasks <= 1
       <==> forall schedule: seq<(nat, Wish)> :: |Holders(Run(c, Start(c), schedule).tasks)| <= 1
  {
    if c.strict || c.tasks <= 1 {
      forall schedule: seq<(nat, Wish)> ensures |Holders(Run(c, Start(c), schedule).tasks)| <= 1 {
        OneHolder(c, schedule);
      }
    } else {
      TwoInside(c);
      var h := Holders(Run(c, Start(c), INTRUSION + SECOND_ENTRY).tasks);
      assert {0, 1} <= h;
      assert h == (h - {0, 1}) + {0, 1};
    }
  }
}
