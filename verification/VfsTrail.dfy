/**
 What a lookup reaches and touches on its way along a path, and what its loop keeps.
 */
module VfsTrail {
  import opened PathCache
  import opened VfsState
  import opened VfsNames
  import opened VfsWalk
  import opened VfsBudget
  import opened VfsLookup

  // ----- what a lookup touches -----

  /** A file whose vnode RefreshLRU moves. */
  predicate InLru(fs: Fs, f: File)
  {
    f.Inode? && (fs.kind(f.mount, f.ino) == Reg || fs.kind(f.mount, f.ino) == Dir)
  }

  /** A vnode that a lookup has come to, the file it stood for, and whether it was new. */
  datatype Reached = Reached(vnode: VId, file: File, isNew: bool)

  /** Its touches: one by VnodeAlloc if it was new, one by RefreshLRU. */
  function Marks(fs: Fs, r: Reached): seq<VId>
  {
    (if r.isNew then [r.vnode] else []) + (if InLru(fs, r.file) then [r.vnode] else [])
  }

  function AllMarks(fs: Fs, trail: seq<Reached>): seq<VId>
  {
    if trail == [] then [] else AllMarks(fs, trail[..|trail| - 1]) + Marks(fs, trail[|trail| - 1])
  }

  /** The `i`-th file reached is the child of the one before, across a mount. */
  ghost predicate AlongAt(fs: Fs, names: Names, f: File, comps: seq<Name>, trail: seq<Reached>, i: nat)
    requires i < |trail| <= |comps|
  {
    var child := Child(fs, names, if i == 0 then f else trail[i - 1].file, comps[i]);
    child.Some? && trail[i].file == Cross(names, child.value)
  }

  /** The files reached, one for each component. */
  ghost predicate Along(fs: Fs, names: Names, f: File, comps: seq<Name>, trail: seq<Reached>)
  {
    |trail| <= |comps| && forall i: nat | i < |trail| :: AlongAt(fs, names, f, comps, trail, i)
  }

  lemma AlongNext(fs: Fs, names: Names, f: File, comps: seq<Name>, trail: seq<Reached>, r: Reached)
    requires Along(fs, names, f, comps, trail) && |trail| < |comps|
    requires var child := Child(fs, names, if trail == [] then f else trail[|trail| - 1].file, comps[|trail|]);
             child.Some? && r.file == Cross(names, child.value)
    ensures Along(fs, names, f, comps, trail + [r])
    ensures AllMarks(fs, trail + [r]) == AllMarks(fs, trail) + Marks(fs, r)
  {
    hide Child, Cross;
    var t := trail + [r];
    assert t[..|trail|] == trail;
    forall i: nat | i < |t| ensures AlongAt(fs, names, f, comps, t, i) {
      if i < |trail| {
        assert AlongAt(fs, names, f, comps, trail, i);
      }
    }
  }

  lemma AlongNone(fs: Fs, names: Names, f: File, comps: seq<Name>)
    ensures Along(fs, names, f, comps, []) && AllMarks(fs, []) == []
  {
  }

  /** RefreshLRU moves exactly the vnodes of regular files and directories of a file system. */
  lemma RefreshesInLru(fs: Fs, s: State, v: VId)
    requires Valid(fs, s) && Named(s, v)
    ensures v in s.vnodes && (Refreshes(s.vnodes[v]) <==> InLru(fs, FileOf(s, v)))
  {
  }

  // ----- the loop of VnodeLookupAt -----

  /** A lookup that began in the state `s` at the vnode `start`. */
  datatype Trip = Trip(fs: Fs, s: State, start: VId, path: Path)

  ghost predicate Begun(c: Trip)
  {
    Valid(c.fs, c.s) && Named(c.s, c.start) && c.path != []
  }

  function Origin(c: Trip): File
  {
    FileOf(c.s, c.start)
  }

  /** The vnode that the lookup has come to, and the file that it stood for then. */
  function Stand(c: Trip, trail: seq<Reached>): (VId, File)
  {
    if trail == [] then (c.start, Origin(c)) else (trail[|trail| - 1].vnode, trail[|trail| - 1].file)
  }

  /** What a lookup keeps: the invariant, the names, and all vnodes in use. */
  ghost predicate Kept(c: Trip, t: State)
    requires Begun(c)
  {
    Valid(c.fs, t) && NamesOf(t) == NamesOf(c.s) && KeepsPinned(c.s, t)
  }

  /** The walk that is still to do is the rest of the whole one. */
  ghost predicate OnTheWay(c: Trip, t: State, pos: nat, cur: VId, trail: seq<Reached>)
    requires Begun(c)
  {
    var names, comps, tr := NamesOf(c.s), Split(c.path), Trailing(c.path);
    && Kept(c, t) && pos < |c.path| && Short(c.path[pos..])
    && Named(t, cur) && Stand(c, trail) == (cur, FileOf(t, cur))
    && Along(c.fs, names, Origin(c), comps, trail) && Split(c.path[pos..]) == comps[|trail|..]
    && Walk(c.fs, names, Origin(c), comps, tr) == Walk(c.fs, names, FileOf(t, cur), Split(c.path[pos..]), tr)
    && (Cap(c.s, false) >= 2 ==> Cap(t, false) >= 2)
  }

  /** What the caller gets to see. */
  function Seen(t: State, code: Code, result: Option<VId>): Outcome
  {
    Outcome(code, if result.Some? then Some(FileOf(t, result.value)) else None)
  }

  /**
   How a lookup ends.  The outcome is that of the walk without a cache if two vnodes are to be had
   without new memory; otherwise it is that, or a failure for want of a vnode.  The vnodes
   reached stand for the files along the path, and the result is the last of them.
   */
  ghost predicate Arrived(c: Trip, t: State, code: Code, result: Option<VId>, trail: seq<Reached>)
    requires Begun(c)
  {
    var names, comps := NamesOf(c.s), Split(c.path);
    var walk := Walk(c.fs, names, Origin(c), comps, Trailing(c.path));
    && Kept(c, t)
    && (Cap(c.s, false) >= 2 ==> Seen(t, code, result) == walk)
    && (Seen(t, code, result) == walk || code == ENOMEM || (code == EACCES && result == None))
    && Along(c.fs, names, Origin(c), comps, trail) && (code == OK ==> |trail| == |comps|)
    && (result.Some? ==> Named(t, result.value) && Stand(c, trail) == (result.value, FileOf(t, result.value)))
  }

  /** With two vnodes to be had, the caller sees what the walk without a cache says. */
  lemma ArrivedMeans(c: Trip)
    requires Begun(c)
    ensures |c.s.free| + |Eligs(c.s)| >= 2 ==>
              forall t, code, result, trail {:trigger Arrived(c, t, code, result, trail)} |
                Arrived(c, t, code, result, trail) ::
                Seen(t, code, result) == Walk(c.fs, NamesOf(c.s), Origin(c), Split(c.path), Trailing(c.path))
  {
    hide Pool, Cached, Hashed, Coherent, Mounted, NamesOf, Walk, Split;
  }

  lemma SetsOut(c: Trip)
    requires Begun(c) && Short(c.path)
    ensures OnTheWay(c, c.s, 0, c.start, [])
  {
    hide Pool, Cached, Hashed, Coherent, Mounted, NamesOf, Walk, Split, Cap;
    assert c.path[0..] == c.path && Split(c.path)[0..] == Split(c.path);
    NothingTouched(c.s);
    AlongNone(c.fs, NamesOf(c.s), Origin(c), Split(c.path));
  }

  /** What was reached after a step. */
  function Further(trail: seq<Reached>, t: State, code: Code, at: Option<nat>, next: VId, isNew: bool): seq<Reached>
  {
    if code == OK && at.Some? then trail + [Reached(next, FileOf(t, next), isNew)] else trail
  }

  /** A step that gets on adds the vnode it comes to. */
  lemma StepAlong(c: Trip, s: State, t: State, pos: nat, cur: VId, memory: bool, code: Code, at: Option<nat>,
                  next: VId, trail: seq<Reached>, isNew: bool)
    requires Begun(c) && OnTheWay(c, s, pos, cur, trail)
    requires Stepped(c.fs, s, t, c.path, pos, cur, memory, code, at, next)
    ensures var further, names, comps := Further(trail, t, code, at, next, isNew), NamesOf(c.s), Split(c.path);
            && Along(c.fs, names, Origin(c), comps, further) && Stand(c, further) == (next, FileOf(t, next))
            && (code == OK && at.Some? ==>
                  pos < at.value <= |c.path| && |further| == |trail| + 1 && Split(c.path[at.value..]) == comps[|further|..])
            && (code == OK && (at.None? || at.value == |c.path|) ==> |further| == |comps|)
  {
    hide Pool, Cached, Hashed, Coherent, Mounted, NamesOf, Child, Cross, IsDir, BudgetMoves, Along, Split, Walk, Cap, Short,
         KeepsPinned, Needs, Starves, Named, FileOf, AllMarks, Marks, Trailing;
    var names, comps := NamesOf(c.s), Split(c.path);
    AlongLength(c.fs, names, Origin(c), comps, trail);
    RestOf(comps, |trail|);
    if code == OK && at.Some? {
      AlongNext(c.fs, names, Origin(c), comps, trail, Reached(next, FileOf(t, next), isNew));
    }
  }

  lemma RestOf(comps: seq<Name>, n: nat)
    requires n <= |comps|
    ensures |comps[n..]| == |comps| - n
    ensures n < |comps| ==> comps[n..][0] == comps[n] && comps[n..][1..] == comps[n + 1..]
  {
  }

  lemma AlongLength(fs: Fs, names: Names, f: File, comps: seq<Name>, trail: seq<Reached>)
    requires Along(fs, names, f, comps, trail)
    ensures |trail| <= |comps|
  {
  }

  /** One round of the loop: the lookup has arrived, or is still on its way. */
  lemma RoundEnds(c: Trip, s: State, t: State, pos: nat, cur: VId, memory: bool, code: Code, at: Option<nat>,
                  next: VId, trail: seq<Reached>, isNew: bool)
    requires Begun(c) && OnTheWay(c, s, pos, cur, trail)
    requires Stepped(c.fs, s, t, c.path, pos, cur, memory, code, at, next)
    requires Valid(c.fs, t) && NamesOf(t) == NamesOf(s) && KeepsPinned(s, t)
    ensures var further := Further(trail, t, code, at, next, isNew);
            if at.None? || at.value == |c.path| then Arrived(c, t, code, Some(next), further)
            else if !c.fs.exec(FileOf(t, next)) then Arrived(c, t, EACCES, None, further)
            else if code != OK then Arrived(c, t, code, None, further)
            else pos < at.value && OnTheWay(c, t, at.value, next, further)
  {
    hide Pool, Cached, Hashed, Coherent, Mounted, NamesOf, Along, Split, Walk, Cap, Stepped, Stand, Further, Short, KeepsPinned;
    KeepsThen(c.s, s, t);
    StepAlong(c, s, t, pos, cur, memory, code, at, next, trail, isNew);
    StepAdvances(c.fs, s, t, c.path, pos, cur, memory, code, at, next);
    if Cap(c.s, false) >= 2 {
      StepHasVnodes(c.fs, s, t, c.path, pos, cur, memory, code, at, next);
    }
    if code != ENOMEM {
      StepFollowsWalk(c.fs, s, t, c.path, pos, cur, memory, code, at, next);
    }
  }

  lemma StillOnTheWay(c: Trip, t: State, pos: nat, cur: VId, trail: seq<Reached>)
    requires Begun(c) && OnTheWay(c, t, pos, cur, trail)
    ensures pos < |c.path| && Short(c.path[pos..]) && Named(t, cur) && NamesOf(t) == NamesOf(c.s)
  {
  }

  lemma NoMarks(fs: Fs)
    ensures AllMarks(fs, []) == []
  {
  }

  lemma MarksFurther(fs: Fs, touches: seq<VId>, trail: seq<Reached>, t: State, code: Code, at: Option<nat>,
                     next: VId, isNew: bool)
    ensures touches + AllMarks(fs, Further(trail, t, code, at, next, isNew))
         == (touches + AllMarks(fs, trail))
            + if code == OK && at.Some? then Marks(fs, Reached(next, FileOf(t, next), isNew)) else []
  {
    var r := Reached(next, FileOf(t, next), isNew);
    assert (trail + [r])[..|trail|] == trail;
  }
}
