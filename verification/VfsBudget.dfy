/**
 How many vnodes a lookup can still get, and the walk that reckons with it: from the files that
 have a vnode, and from what the pool can yield, it says which lookups fail for want of a vnode.
 */
module VfsBudget {
  import opened Fnv
  import opened PathCache
  import opened VfsState
  import opened VfsNames
  import opened VfsSteps
  import opened VfsGrowth
  import opened VfsReclaim
  import opened VfsWalk

  // ----- what the pool can yield -----

  /** The files that have a vnode in the vnode hash. */
  ghost function Known(s: State): set<File>
  {
    set v | v in s.hashed :: FileOf(s, v)
  }

  /** The vnodes that reclaim may free. */
  ghost function Eligs(s: State): set<VId>
  {
    set v | v in s.active && v in s.vnodes && Eligible(s.vnodes[v])
  }

  /** The room for new vnodes, if memory is there. */
  function Room(s: State, roomy: bool): int
  {
    if roomy then MAX_VNODE_SIZE - s.total else 0
  }

  /** The vnodes to be had: free, reclaimable and, with `roomy`, new ones. */
  ghost function Cap(s: State, roomy: bool): int
  {
    |s.free| + |Eligs(s)| + Room(s, roomy)
  }

  /** Only a file of a mount that has no vnode needs a new one. */
  ghost predicate Needs(s: State, g: File)
  {
    g.Inode? && g !in Known(s)
  }

  /** No vnode is to be had besides the directory `cur` itself, which Step holds. */
  ghost predicate Starves(s: State, cur: VId, roomy: bool)
  {
    s.free == [] && (forall v | v in Eligs(s) :: v == cur) && (s.total == MAX_VNODE_SIZE || !roomy)
  }

  /**
   As far as it matters to a walk: two vnodes or more are to be had, or one, or none.  `at` is the
   file that the one vnode stands for, if it stands for any.
   */
  datatype Budget = Plenty | One(at: Option<File>) | Nothing

  ghost function Spot(s: State): Option<File>
  {
    if v :| v in Eligs(s) && v in s.hashed then Some(FileOf(s, v)) else None
  }

  ghost function BudgetOf(s: State, roomy: bool): Budget
  {
    if Cap(s, roomy) >= 2 then Plenty else if Cap(s, roomy) == 1 then One(Spot(s)) else Nothing
  }

  // ----- the walk with a budget -----

  /** The child `g` needs a vnode, and there is none but the one of the directory `f` itself. */
  predicate Lacks(known: set<File>, b: Budget, f: File, g: File)
  {
    g.Inode? && g !in known && (b.Nothing? || b == One(Some(f)))
  }

  /** The only vnode to be had moves on to `g`, and its former file loses it. */
  function KnownAfter(known: set<File>, b: Budget, g: File): set<File>
  {
    if g.Device? || g in known || !b.One? then known
    else (if b.at.Some? then known - {b.at.value} else known) + {g}
  }

  function BudgetAfter(known: set<File>, b: Budget, g: File): Budget
  {
    if g.Device? || g in known || !b.One? then b else One(Some(g))
  }

  /** VfsWalk.Walk, except that it stops with ENOMEM where no vnode is left for the next file. */
  ghost function WalkIn(fs: Fs, names: Names, known: set<File>, b: Budget, f: File, comps: seq<Name>, trailing: bool): Outcome
    decreases |comps|
  {
    if !IsDir(fs, names, f) then Denied(fs, f, ENOTDIR)
    else if comps == [] then Outcome(OK, Some(f))
    else
      var last := |comps| == 1 && !trailing;
      match Child(fs, names, f, comps[0])
      case None => if last then Outcome(ENOENT, Some(f)) else Denied(fs, f, ENOENT)
      case Some(g) =>
        var h := Cross(names, g);
        if Lacks(known, b, f, g) then if last then Outcome(ENOMEM, Some(f)) else Denied(fs, f, ENOMEM)
        else if last then Outcome(OK, Some(h))
        else if !fs.exec(h) then Outcome(EACCES, None)
        else WalkIn(fs, names, KnownAfter(known, b, g), BudgetAfter(known, b, g), h, comps[1..], trailing)
  }

  /** Somewhere along the path the next file needs a vnode and none is left. */
  ghost predicate RunsOut(fs: Fs, names: Names, known: set<File>, b: Budget, f: File, comps: seq<Name>, trailing: bool)
    decreases |comps|
  {
    IsDir(fs, names, f) && comps != [] &&
    match Child(fs, names, f, comps[0])
    case None => false
    case Some(g) =>
      || Lacks(known, b, f, g)
      || (!(|comps| == 1 && !trailing) && fs.exec(Cross(names, g))
          && RunsOut(fs, names, KnownAfter(known, b, g), BudgetAfter(known, b, g), Cross(names, g), comps[1..], trailing))
  }

  /**
   The walk with a budget is the walk without one exactly if it does not run out of vnodes; where
   it does, it fails with ENOMEM, or with EACCES if the first directory may not be searched.
   */
  lemma {:induction false} WalkInExact(fs: Fs, names: Names, known: set<File>, b: Budget, f: File,
                                       comps: seq<Name>, trailing: bool)
    ensures var walk, got := Walk(fs, names, f, comps, trailing), WalkIn(fs, names, known, b, f, comps, trailing);
            && walk.code != ENOMEM
            && (!RunsOut(fs, names, known, b, f, comps, trailing) ==> got == walk)
            && (RunsOut(fs, names, known, b, f, comps, trailing) ==>
                  got.code == ENOMEM || (!fs.exec(f) && got == Outcome(EACCES, None)))
    decreases |comps|
  {
    if IsDir(fs, names, f) && comps != [] {
      var child := Child(fs, names, f, comps[0]);
      if child.Some? {
        var g := child.value;
        WalkInExact(fs, names, KnownAfter(known, b, g), BudgetAfter(known, b, g), Cross(names, g), comps[1..], trailing);
      }
    }
  }

  /** Two vnodes to be had are enough for any path. */
  lemma {:induction false} PlentyNeverRunsOut(fs: Fs, names: Names, known: set<File>, f: File, comps: seq<Name>, trailing: bool)
    ensures !RunsOut(fs, names, known, Plenty, f, comps, trailing)
    decreases |comps|
  {
    if IsDir(fs, names, f) && comps != [] {
      var child := Child(fs, names, f, comps[0]);
      if child.Some? {
        PlentyNeverRunsOut(fs, names, KnownAfter(known, Plenty, child.value), Cross(names, child.value), comps[1..], trailing);
      }
    }
  }

  lemma PlentyWalks(fs: Fs, names: Names, known: set<File>, f: File, comps: seq<Name>, trailing: bool)
    ensures WalkIn(fs, names, known, Plenty, f, comps, trailing) == Walk(fs, names, f, comps, trailing)
  {
    PlentyNeverRunsOut(fs, names, known, f, comps, trailing);
    WalkInExact(fs, names, known, Plenty, f, comps, trailing);
  }

  // ----- the budget of a state -----

  lemma SpotIs(s: State, x: VId)
    requires Eligs(s) == {x}
    ensures Spot(s) == if x in s.hashed then Some(FileOf(s, x)) else None
  {
    assert x in Eligs(s);
  }

  lemma {:induction false} Singleton<T>(a: set<T>, x: T)
    requires |a| == 1 && x in a
    ensures a == {x}
  {
    assert a == (a - {x}) + {x};
  }

  /** Step starves in a state exactly where the walk lacks a vnode. */
  lemma StarvesLacks(fs: Fs, s: State, cur: VId, roomy: bool, g: File)
    requires Valid(fs, s) && Named(s, cur) && Needs(s, g)
    ensures Starves(s, cur, roomy) <==> Lacks(Known(s), BudgetOf(s, roomy), FileOf(s, cur), g)
  {
    hide Cached, Coherent, Mounted, Known;
    if Starves(s, cur, roomy) {
      assert Eligs(s) <= {cur};
      if cur in Eligs(s) {
        assert Eligs(s) == {cur};
        SpotIs(s, cur);
      } else {
        assert Eligs(s) == {};
      }
    } else if Cap(s, roomy) == 1 && Spot(s) == Some(FileOf(s, cur)) {
      var v :| v in Eligs(s) && v in s.hashed && FileOf(s, v) == FileOf(s, cur);
      FileInjective(s, v, cur);
      Singleton(Eligs(s), cur);
    }
  }

  lemma CapStarves(s: State, cur: VId, roomy: bool)
    requires s.total <= MAX_VNODE_SIZE
    ensures Cap(s, roomy) <= 0 ==> Starves(s, cur, roomy)
    ensures Cap(s, false) >= 2 ==> !Starves(s, cur, roomy)
  {
    if Starves(s, cur, roomy) {
      assert Eligs(s) <= {cur};
      assert Eligs(s) == {} || Eligs(s) == {cur};
    }
    if Cap(s, roomy) <= 0 {
      assert |Eligs(s)| == 0;
    }
  }

  // ----- what a new vnode costs -----

  ghost function FilesOf(s: State, vs: set<VId>): set<File>
  {
    set v | v in vs && v in s.hashed :: FileOf(s, v)
  }

  /**
   The vnode `v` has come to stand for `g`, and the vnodes `vs` were freed for that: none unless
   there was neither a free vnode nor room for a new one.
   */
  ghost predicate Spent(s: State, t: State, vs: set<VId>, v: VId, g: File, roomy: bool)
  {
    && v !in Eligs(s) - vs && vs <= Eligs(s) && Eligs(t) == (Eligs(s) - vs) + {v}
    && Known(t) == (Known(s) - FilesOf(s, vs)) + {g} && v in t.hashed && FileOf(t, v) == g
    && Cap(t, roomy) == Cap(s, roomy) && Cap(t, false) >= Cap(s, false)
    && (vs == {} <==> s.free != [] || Room(s, roomy) > 0)
  }

  lemma EnterSpends(fs: Fs, s: State, v: VId, recycled: bool)
    requires Valid(fs, s) && MayEnter(s, v, recycled)
    ensures var t := Enter(s, v, false, recycled);
            && v !in Eligs(s) && Eligs(t) == Eligs(s) + {v} && Known(t) == Known(s) && t.hashed == s.hashed
            && v in t.active && v in t.vnodes && v !in t.hashed && t.vnodes[v] == BLANK
            && |t.free| == |s.free| - (if recycled then 1 else 0) && t.total == s.total + (if recycled then 0 else 1)
  {
    hide Pool, Cached, Hashed, Coherent, Mounted;
    var t := Enter(s, v, false, recycled);
    EnterLists(s, v, false, recycled);
    EnterIntact(s, v, false, recycled);
    HashedLive(fs, s);
    forall w | w in s.hashed ensures FileOf(t, w) == FileOf(s, w) && w != v {
      assert Intact(s, t, w);
    }
    forall w | w in s.active ensures w != v && w in s.vnodes && w in t.vnodes && t.vnodes[w] == s.vnodes[w] {
      assert Intact(s, t, w);
    }
    assert v in t.active && Eligible(t.vnodes[v]);
  }

  lemma HashedLive(fs: Fs, s: State)
    requires Valid(fs, s)
    ensures forall w | w in s.hashed :: w in s.active && w in s.vnodes
    ensures forall w | w in s.active :: w in s.vnodes
  {
  }

  lemma IdentifySpends(s: State, v: VId, m: MId, ino: Word, kind: VType)
    requires v in s.vnodes && v !in s.hashed && s.vnodes[v] == BLANK
    ensures var t := Identify(s, v, m, ino, kind);
            && Eligs(t) == Eligs(s) && Known(t) == Known(s) + {Inode(m, ino)} && v in t.hashed && FileOf(t, v) == Inode(m, ino)
            && t.free == s.free && t.total == s.total
  {
    var t := Identify(s, v, m, ino, kind);
    assert forall w | w in s.hashed :: FileOf(t, w) == FileOf(s, w);
    assert forall w :: w in t.hashed <==> w == v || w in s.hashed;
    assert FileOf(t, v) == Inode(m, ino);
  }

  lemma FreedSpends(fs: Fs, s: State, t: State, vs: seq<VId>)
    requires Valid(fs, s) && Doomed(s, vs) && FreedExactly(fs, s, t, vs)
    ensures Eligs(t) == Eligs(s) - Elems(vs) && Elems(vs) <= Eligs(s) && |Elems(vs)| == |vs|
    ensures Known(t) == Known(s) - FilesOf(s, Elems(vs))
    ensures |t.free| == |vs| + |s.free| && t.total == s.total
  {
    hide Pool, Cached, Coherent, Mounted, NamesOf, Hashed;
    NoDupSize(vs);
    ReversedSize(vs);
    HashedLive(fs, s);
    HashedLive(fs, t);
    forall w | Live(s, w) && w !in vs ensures Intact(s, t, w) && FileOf(t, w) == FileOf(s, w) {
      assert Intact(s, t, w);
    }
    forall f ensures f in Known(t) <==> f in Known(s) - FilesOf(s, Elems(vs)) {
      if f in Known(t) {
        var w :| w in t.hashed && FileOf(t, w) == f;
        assert w in t.active && w !in vs && Live(s, w);
        FreedOthers(fs, s, vs, w);
      } else if f in Known(s) - FilesOf(s, Elems(vs)) {
        var w :| w in s.hashed && FileOf(s, w) == f;
        assert w !in vs && Live(s, w);
      }
    }
  }

  lemma FreedOthers(fs: Fs, s: State, vs: seq<VId>, w: VId)
    requires Valid(fs, s) && w in s.hashed && w !in vs
    ensures FileOf(s, w) in Known(s) && FileOf(s, w) !in FilesOf(s, Elems(vs))
  {
    hide Cached, Coherent, Mounted, FileOf;
    forall v | v in vs && v in s.hashed ensures FileOf(s, v) != FileOf(s, w) {
      FilesApart(s, v, w);
    }
  }

  lemma {:induction false} ReversedSize<T>(s: seq<T>)
    ensures |Reversed(s)| == |s|
    decreases |s|
  {
    if s != [] {
      ReversedSize(s[..|s| - 1]);
    }
  }

  /**
   VnodeAlloc, and then the identity of the file `g`: nothing is freed but the victims, if neither a
   free vnode nor room for a new one was there.
   */
  ghost predicate Made(fs: Fs, s: State, t: State, v: VId, g: File, memory: bool)
    requires g.Inode?
  {
    exists mid: State :: v in mid.vnodes && Allocates(s, mid, Some(v), false, memory)
                         && t == Identify(mid, v, g.mount, g.ino, fs.kind(g.mount, g.ino))
  }

  lemma MissedSame(s: State)
    ensures var m := Missed(s);
            && Eligs(m) == Eligs(s) && Known(m) == Known(s) && m.hashed == s.hashed && m.free == s.free
            && (forall vs :: FilesOf(m, vs) == FilesOf(s, vs)) && m.vnodes == s.vnodes && m.active == s.active
            && m.total >= s.total && (s.total == MAX_VNODE_SIZE ==> m.total == s.total)
  {
    var m := Missed(s);
    forall v ensures FileOf(m, v) == FileOf(s, v) { }
  }

  lemma ReclaimSpends(fs: Fs, s: State, mid: State, v: VId, memory: bool)
    requires Valid(fs, s) && s.free == [] && !(s.total < MAX_VNODE_SIZE && memory)
    requires Allocates(s, mid, Some(v), false, memory)
    ensures var vs := Elems(Victims(Missed(s)));
            && vs != {} && vs <= Eligs(s) && v !in Eligs(s) - vs && Eligs(mid) == (Eligs(s) - vs) + {v}
            && Known(mid) == Known(s) - FilesOf(s, vs) && v !in mid.hashed && v in mid.vnodes && mid.vnodes[v] == BLANK
            && |mid.free| + |Eligs(mid)| == |Eligs(s)|
            && (memory ==> mid.total == MAX_VNODE_SIZE == s.total)
  {
    hide Pool, Cached, Hashed, Coherent, Mounted, NamesOf, Eligs, Known, FilesOf, FreeMany, Enter;
    var m := Missed(s);
    var vs := Victims(m);
    MissedSame(s);
    MissedValid(fs, s);
    VictimsDoomed(m);
    FreeManyExact(fs, m, vs);
    var u := FreeMany(m, vs);
    FreedSpends(fs, m, u, vs);
    EnterSpends(fs, u, v, true);
    AtMost(fs, s);
    assert Victims(m)[0] in Elems(vs);
  }

  lemma AtMost(fs: Fs, s: State)
    requires Valid(fs, s)
    ensures s.total <= MAX_VNODE_SIZE
  {
  }

  /** The pool once the vnode is obtained: what Spent says, but for the identity of the vnode. */
  ghost predicate Took(s: State, mid: State, vs: set<VId>, v: VId, roomy: bool)
  {
    && v !in Eligs(s) - vs && vs <= Eligs(s) && Eligs(mid) == (Eligs(s) - vs) + {v}
    && Known(mid) == Known(s) - FilesOf(s, vs) && v !in mid.hashed && v in mid.vnodes && mid.vnodes[v] == BLANK
    && Cap(mid, roomy) == Cap(s, roomy) && Cap(mid, false) >= Cap(s, false)
    && (vs == {} <==> s.free != [] || Room(s, roomy) > 0)
  }

  lemma EnterTook(fs: Fs, s: State, v: VId, recycled: bool, roomy: bool)
    requires Valid(fs, s) && MayEnter(s, v, recycled) && (!recycled ==> roomy)
    ensures Took(s, Enter(s, v, false, recycled), {}, v, roomy)
  {
    hide Pool, Cached, Hashed, Coherent, Mounted, NamesOf, Eligs, Known, Enter;
    EnterSpends(fs, s, v, recycled);
    AtMost(fs, s);
    assert FilesOf(s, {}) == {};
    assert (Eligs(s) - {}) + {v} == Eligs(s) + {v};
    assert |Eligs(s) + {v}| == |Eligs(s)| + 1;
  }

  lemma ReclaimTook(fs: Fs, s: State, mid: State, v: VId, memory: bool)
    requires Valid(fs, s) && s.free == [] && !(s.total < MAX_VNODE_SIZE && memory)
    requires Allocates(s, mid, Some(v), false, memory)
    ensures Took(s, mid, Elems(Victims(Missed(s))), v, memory)
  {
    hide Pool, Cached, Hashed, Coherent, Mounted, NamesOf, Eligs, Known, FilesOf, Allocates, Elems, Victims, Missed;
    ReclaimSpends(fs, s, mid, v, memory);
    AtMost(fs, s);
  }

  lemma TookSpent(fs: Fs, s: State, mid: State, t: State, vs: set<VId>, v: VId, g: File, roomy: bool)
    requires g.Inode? && Took(s, mid, vs, v, roomy)
    requires v in mid.vnodes && t == Identify(mid, v, g.mount, g.ino, fs.kind(g.mount, g.ino))
    ensures Spent(s, t, vs, v, g, roomy) && v in t.vnodes && !t.vnodes[v].flagOrigin
  {
    hide Eligs, Known, FilesOf;
    IdentifySpends(mid, v, g.mount, g.ino, fs.kind(g.mount, g.ino));
  }

  lemma MadeSpends(fs: Fs, s: State, t: State, v: VId, g: File, memory: bool) returns (vs: set<VId>)
    requires Valid(fs, s) && g.Inode? && Made(fs, s, t, v, g, memory)
    ensures Spent(s, t, vs, v, g, memory) && v in t.vnodes && !t.vnodes[v].flagOrigin
  {
    hide Pool, Cached, Hashed, Coherent, Mounted, NamesOf, Took, Spent, Identify, Enter, Victims, Elems;
    var mid: State :| v in mid.vnodes && Allocates(s, mid, Some(v), false, memory)
                      && t == Identify(mid, v, g.mount, g.ino, fs.kind(g.mount, g.ino));
    if s.free != [] {
      vs := {};
      EnterTook(fs, s, v, true, memory);
    } else if s.total < MAX_VNODE_SIZE && memory {
      vs := {};
      EnterTook(fs, s, v, false, memory);
    } else {
      vs := Elems(Victims(Missed(s)));
      ReclaimTook(fs, s, mid, v, memory);
    }
    TookSpent(fs, s, mid, t, vs, v, g, memory);
  }

  // ----- the directory that is held -----

  lemma PinEligs(s: State, d: VId, k: int)
    requires d in s.vnodes
    ensures Eligs(Pin(s, d, k)) - {d} == Eligs(s) - {d} && Known(Pin(s, d, k)) == Known(s)
    ensures forall vs :: FilesOf(Pin(s, d, k), vs) == FilesOf(s, vs)
  {
    forall v ensures FileOf(Pin(s, d, k), v) == FileOf(s, v) { }
    assert forall v | v != d && v in s.vnodes :: Pin(s, d, k).vnodes[v] == s.vnodes[v];
  }

  lemma HeldEligs(s: State, p: State, t: State, d: VId)
    requires Pool(s) && Pool(t) && d in s.vnodes && Live(s, d) && p == Pin(s, d, 1) && Intact(p, t, d)
    ensures var own := if d in Eligs(s) then {d} else {};
            d in t.vnodes && Eligs(p) == Eligs(s) - {d} && d !in Eligs(t) && Eligs(Pin(t, d, -1)) == Eligs(t) + own
  {
    hide Known, FilesOf;
    var x := s.vnodes[d];
    assert x.(useCount := x.useCount + 1).(useCount := x.useCount) == x;
    PinEligs(s, d, 1);
    PinEligs(t, d, -1);
    assert p.vnodes[d].useCount > 0 && t.vnodes[d] == p.vnodes[d];
    assert Pin(t, d, -1).vnodes[d] == x;
    assert d in s.active <==> d in t.active;
    assert d in Eligs(Pin(t, d, -1)) <==> d in Eligs(s);
  }

  lemma PinCap(s: State, d: VId, k: int, roomy: bool)
    requires d in s.vnodes
    ensures var t := Pin(s, d, k);
            && Cap(t, roomy) - Cap(s, roomy) == |Eligs(t)| - |Eligs(s)|
            && Cap(t, false) - Cap(s, false) == |Eligs(t)| - |Eligs(s)| && Room(t, roomy) == Room(s, roomy)
  {
  }

  /** The sets of HeldSpends: `own` is the held directory, if it could be reclaimed otherwise. */
  lemma HeldSets<T>(a: set<T>, p: set<T>, t: set<T>, u: set<T>, vs: set<T>, v: T, d: T)
    requires var own := if d in a then {d} else {}; p == a - {d} && u == t + own
    requires vs <= p && v !in p - vs && t == (p - vs) + {v} && v != d && d !in t
    ensures v !in a - vs && vs <= a && u == (a - vs) + {v} && |u| - |t| == |a| - |p|
  {
    var own := if d in a then {d} else {};
    assert u == (a - vs) + {v};
    assert a == p + own;
    assert |u| == |t| + |own| && |a| == |p| + |own|;
  }

  /** What a new vnode costs while a directory is held, it costs without that too. */
  lemma HeldSpends(s: State, p: State, t: State, d: VId, vs: set<VId>, v: VId, g: File, roomy: bool)
    requires Pool(s) && Pool(t) && d in s.vnodes && Live(s, d) && p == Pin(s, d, 1) && Intact(p, t, d) && v != d
    requires Spent(p, t, vs, v, g, roomy)
    ensures d in t.vnodes && Spent(s, Pin(t, d, -1), vs, v, g, roomy)
  {
    hide Known, FilesOf, Eligs, Pool, Intact, FileOf, Cap, Live;
    HeldEligs(s, p, t, d);
    PinCap(s, d, 1, roomy);
    PinCap(t, d, -1, roomy);
    PinEligs(s, d, 1);
    PinEligs(t, d, -1);
    PinFile(t, d, -1, v);
    HeldSets(Eligs(s), Eligs(p), Eligs(t), Eligs(Pin(t, d, -1)), vs, v, d);
  }

  lemma PinFile(s: State, d: VId, k: int, v: VId)
    requires d in s.vnodes
    ensures FileOf(Pin(s, d, k), v) == FileOf(s, v)
  {
  }

  // ----- from step to step -----

  /** What a step to the file `g` leaves of the budget is what the walk reckons with. */
  ghost predicate BudgetMoves(s: State, t: State, g: File, roomy: bool)
  {
    && Cap(t, false) >= Cap(s, false) && Cap(t, roomy) == Cap(s, roomy)
    && (Cap(s, roomy) <= 1 ==>
          var known, b := Known(s), BudgetOf(s, roomy);
          Known(t) == KnownAfter(known, b, g) && BudgetOf(t, roomy) == BudgetAfter(known, b, g))
  }

  /** The same vnodes, on the same lists up to their order. */
  ghost predicate SamePool(s: State, t: State)
  {
    && t.free == s.free && t.total == s.total && t.hashed == s.hashed && t.vnodes == s.vnodes
    && (forall v :: v in t.active <==> v in s.active)
  }

  lemma SameSets(s: State, t: State)
    requires SamePool(s, t)
    ensures Eligs(t) == Eligs(s) && Known(t) == Known(s) && forall r :: Cap(t, r) == Cap(s, r)
  {
    forall v ensures FileOf(t, v) == FileOf(s, v) { }
    assert Eligs(t) == Eligs(s);
  }

  lemma SameBudget(s: State, t: State, roomy: bool)
    requires SamePool(s, t) && s.total <= MAX_VNODE_SIZE
    ensures BudgetOf(t, roomy) == BudgetOf(s, roomy)
  {
    SameSets(s, t);
    if Cap(s, roomy) == 1 {
      if |Eligs(s)| == 1 {
        var x :| x in Eligs(s);
        Singleton(Eligs(s), x);
        SpotIs(s, x);
        SpotIs(t, x);
        assert FileOf(t, x) == FileOf(s, x);
      } else {
        assert Eligs(s) == {} && Eligs(t) == {};
      }
    }
  }

  /** Nothing is spent on a file that has a vnode. */
  lemma NothingSpent(s: State, t: State, g: File, roomy: bool)
    requires SamePool(s, t) && !Needs(s, g) && s.total <= MAX_VNODE_SIZE
    ensures BudgetMoves(s, t, g, roomy)
  {
    SameSets(s, t);
    SameBudget(s, t, roomy);
  }

  lemma MovesThen(s: State, t: State, u: State, g: File, roomy: bool)
    requires BudgetMoves(s, t, g, roomy) && SamePool(t, u) && t.total <= MAX_VNODE_SIZE
    ensures BudgetMoves(s, u, g, roomy)
  {
    hide BudgetOf, Known, Cap, BudgetAfter, KnownAfter;
    SameSets(t, u);
    SameBudget(t, u, roomy);
  }

  /** The one vnode to be had has moved on to `g`. */
  lemma SpentMoves(s: State, t: State, vs: set<VId>, v: VId, g: File, roomy: bool)
    requires Spent(s, t, vs, v, g, roomy) && Needs(s, g) && s.total <= MAX_VNODE_SIZE && Cap(s, roomy) >= 1
    ensures BudgetMoves(s, t, g, roomy)
  {
    if Cap(s, roomy) == 1 {
      if vs == {} {
        assert Eligs(s) == {};
        assert Eligs(t) == {v};
        assert FilesOf(s, vs) == {};
        assert Spot(s) == None;
      } else {
        var x :| x in vs;
        Singleton(Eligs(s), x);
        assert vs == {x} && Eligs(t) == {v};
        SpotIs(s, x);
        assert FilesOf(s, {x}) == if x in s.hashed then {FileOf(s, x)} else {};
      }
      SpotIs(t, v);
    }
  }

  /** Whether memory can be had does not matter once the pool has its full size. */
  lemma BudgetSteady(s: State, a: bool, b: bool)
    requires s.total == MAX_VNODE_SIZE || a == b
    ensures BudgetOf(s, a) == BudgetOf(s, b)
  {
  }
}
