/**
 The facts behind one step of a path lookup: taking the next component off a path, holding the
 directory while the file system looks the component up, and moving on to what was found.
 */
module VfsLookup {
  import opened PathCache
  import opened VfsState
  import opened VfsNames
  import opened VfsSteps
  import opened VfsGrowth
  import opened VfsReclaim
  import opened VfsWalk
  import opened VfsBudget

  // ----- components -----

  lemma {:induction false} SplitNone(p: Path)
    requires Split(p) == []
    ensures forall i | 0 <= i < |p| :: p[i] == SLASH
  {
    if p != [] {
      SplitNone(p[1..]);
      assert forall i | 1 <= i < |p| :: p[i] == p[1..][i - 1];
    }
  }

  lemma {:induction false} SplitEmpty(p: Path)
    requires forall i | 0 <= i < |p| :: p[i] == SLASH
    ensures Split(p) == []
  {
    SplitSkip(p, |p|);
  }

  lemma {:induction false} NameLenStops(p: Path)
    ensures NameLen(p) < |p| ==> p[NameLen(p)] == SLASH
    ensures forall i: nat | i < NameLen(p) :: p[i] != SLASH
  {
    if p != [] && p[0] != SLASH {
      NameLenStops(p[1..]);
    }
  }

  /** The octets from `a` up to the name at `n` are slashes: the name is the first component. */
  lemma NameFound(path: Path, a: nat, n: nat)
    requires a <= n < |path| && path[n] != SLASH && forall i | a <= i < n :: path[i] == SLASH
    ensures Split(path[a..]) == [path[n..n + NameLen(path[n..])]] + Split(path[n + NameLen(path[n..])..])
    ensures NameLen(path[n..]) > 0
  {
    SplitSkip(path[a..], n - a);
    assert path[a..][n - a..] == path[n..];
    var k := NameLen(path[n..]);
    assert path[n..][..k] == path[n..n + k] && path[n..][k..] == path[n + k..];
  }

  lemma OnlySlashes(path: Path, a: nat)
    requires a <= |path| && forall i | a <= i < |path| :: path[i] == SLASH
    ensures Split(path[a..]) == []
  {
    SplitEmpty(path[a..]);
  }

  lemma NameEndsAt(path: Path, p: nat, q: nat)
    requires p <= q <= |path| && (forall i | p <= i < q :: path[i] != SLASH) && (q < |path| ==> path[q] == SLASH)
    ensures NameLen(path[p..]) == q - p
  {
    NameEnd(path[p..], q - p);
  }

  /** The name ends the path exactly if it is the last component and no slash follows. */
  lemma NameEnds(path: Path, n: nat)
    requires n < |path| && path[n] != SLASH
    ensures var p := n + NameLen(path[n..]);
            n < p <= |path| && (p == |path| <==> Split(path[p..]) == [] && !Trailing(path))
  {
    var k := NameLen(path[n..]);
    var p := n + k;
    NameLenStops(path[n..]);
    if p == |path| {
      assert path[n..][k - 1] == path[|path| - 1];
    } else if Split(path[p..]) == [] {
      SplitNone(path[p..]);
      assert path[p..][|path| - 1 - p] == path[|path| - 1];
    }
  }

  /**
   The length of a component is kept in eight bits: the name that is looked up is the component
   itself exactly if that has at most 255 octets.
   */
  lemma NameExact(path: Path, n: nat)
    requires n < |path| && path[n] != SLASH
    ensures path[n..n + NameLen(path[n..]) % 256] == Split(path[n..])[0] <==> |Split(path[n..])[0]| <= 255
  {
    NameFound(path, n, n);
  }

  // ----- holding a directory during Lookup -----

  /** What a step may do to the vnodes behind the caller's back: not to touch those in use. */
  ghost predicate KeepsPinned(s: State, t: State)
  {
    && (forall w | Live(s, w) && w in s.vnodes && !Eligible(s.vnodes[w]) :: Intact(s, t, w))
    && t.lost >= s.lost && t.total >= s.total
  }

  lemma NamedLive(fs: Fs, s: State, d: VId)
    requires Valid(fs, s) && Named(s, d)
    ensures Live(s, d) && d in s.vnodes && s.vnodes[d].useCount >= 0 && (d in s.virt <==> s.vnodes[d].dev)
    ensures Children(d) in s.cache.rings
    ensures d !in s.virt ==> d in s.hashed
  {
  }

  lemma HoldDirectory(fs: Fs, s: State, d: VId)
    requires Valid(fs, s) && Named(s, d)
    ensures d in s.vnodes
    ensures var p := Pin(s, d, 1);
            && Valid(fs, p) && NamesOf(p) == NamesOf(s) && FileOf(p, d) == FileOf(s, d)
            && !Eligible(p.vnodes[d]) && Live(p, d) && p.hashed == s.hashed
  {
    NamedLive(fs, s, d);
    PinValid(fs, s, d, 1);
  }

  lemma NothingTouched(s: State)
    ensures KeepsPinned(s, s)
  {
  }

  lemma KeepsThen(s: State, t: State, u: State)
    requires KeepsPinned(s, t) && KeepsPinned(t, u)
    ensures KeepsPinned(s, u)
  {
    forall w | Live(s, w) && w in s.vnodes && !Eligible(s.vnodes[w]) ensures Intact(s, u, w) {
      assert Intact(s, t, w);
    }
  }

  /** Neither caching a name nor the order of the active list matters. */
  lemma StillKeeps(s: State, t: State, u: State)
    requires KeepsPinned(s, t) && u == t.(active := u.active, cache := u.cache)
    requires forall v | v in t.active :: v in u.active
    ensures KeepsPinned(s, u)
  {
    forall w | Live(s, w) && w in s.vnodes && !Eligible(s.vnodes[w]) ensures Intact(s, u, w) {
      assert Intact(s, t, w);
    }
  }

  /** A pinned directory survives whatever Lookup does, and is still the same file. */
  lemma DirectoryKept(fs: Fs, s: State, p: State, t: State, d: VId)
    requires Valid(fs, s) && Named(s, d) && p == Pin(s, d, 1) && Valid(fs, t) && KeepsPinned(p, t)
    ensures d in t.vnodes
    ensures var u := Pin(t, d, -1);
            && Valid(fs, u) && NamesOf(u) == NamesOf(t)
            && Named(u, d) && FileOf(u, d) == FileOf(s, d) && (d in s.hashed ==> d in u.hashed)
            && KeepsPinned(s, u)
    ensures Intact(p, t, d)
  {
    hide Pool, Cached, Hashed, Coherent, Mounted, NamesOf, KeepsPinned, Pin, FileOf;
    PinnedIntact(fs, s, p, t, d);
    PinValid(fs, t, d, -1);
    LetGo(s, p, t, d);
  }

  lemma PinnedIntact(fs: Fs, s: State, p: State, t: State, d: VId)
    requires Valid(fs, s) && Named(s, d) && p == Pin(s, d, 1) && KeepsPinned(p, t)
    ensures Intact(p, t, d) && d in s.vnodes && d in t.vnodes && Live(t, d) && t.vnodes[d].useCount > 0
    ensures var u := Pin(t, d, -1);
            Named(u, d) && FileOf(u, d) == FileOf(s, d) && (d in s.hashed ==> d in u.hashed)
  {
    NamedLive(fs, s, d);
    hide Pool, Cached, Hashed, Coherent, Mounted, NamesOf;
    assert Live(p, d) && p.vnodes[d].useCount > 0;
    assert Intact(p, t, d);
  }

  lemma LetGo(s: State, p: State, t: State, d: VId)
    requires d in s.vnodes && p == Pin(s, d, 1) && KeepsPinned(p, t) && d in t.vnodes && Intact(p, t, d)
    ensures KeepsPinned(s, Pin(t, d, -1))
  {
    var x := s.vnodes[d];
    assert x.(useCount := x.useCount + 1).(useCount := x.useCount) == x;
    forall w | Live(s, w) && w in s.vnodes && !Eligible(s.vnodes[w]) ensures Intact(s, Pin(t, d, -1), w) {
      assert w != d ==> p.vnodes[w] == s.vnodes[w];
      assert Intact(p, t, w);
    }
  }

  /** What Lookup found may be cached. */
  lemma LookedUpAgrees(fs: Fs, s: State, d: VId, v: VId, name: Name)
    requires Valid(fs, s) && d in s.hashed && v in s.hashed
    requires Child(fs, NamesOf(s), FileOf(s, d), name) == Some(FileOf(s, v))
    ensures Valid(fs, CacheName(s, Entry(d, v, name))) && NamesOf(CacheName(s, Entry(d, v, name))) == NamesOf(s)
  {
    CacheNameValid(fs, s, Entry(d, v, name));
  }

  // ----- RefreshLRU -----

  predicate Refreshes(x: Vnode)
  {
    (x.kind == Reg || x.kind == Dir) && !x.dev
  }

  /** RefreshLRU: regular files and directories of a file system become the most recent. */
  function Refreshed(s: State, v: VId): State
  {
    if v in s.vnodes && Refreshes(s.vnodes[v]) then Refresh(s, v) else s
  }

  lemma RefreshedValid(fs: Fs, s: State, v: VId)
    requires Valid(fs, s) && Named(s, v)
    ensures Valid(fs, Refreshed(s, v)) && NamesOf(Refreshed(s, v)) == NamesOf(s)
    ensures v in s.vnodes && (Refreshes(s.vnodes[v]) ==> v in s.active)
    ensures forall w | w in s.active :: w in Refreshed(s, v).active
    ensures forall w :: (Named(s, w) <==> Named(Refreshed(s, v), w)) && FileOf(Refreshed(s, v), w) == FileOf(s, w)
  {
    NamedLive(fs, s, v);
    RefreshedActive(fs, s, v);
    hide Pool, Cached, Hashed, Coherent, Mounted, NamesOf, Refreshes;
    if Refreshes(s.vnodes[v]) {
      RefreshValid(fs, s, v);
      RefreshPool(s, v);
    }
  }

  lemma RefreshedActive(fs: Fs, s: State, v: VId)
    requires Valid(fs, s) && Named(s, v)
    ensures v in s.vnodes && (Refreshes(s.vnodes[v]) ==> v in s.active)
  {
  }

  /** Neither the contents nor the lists of the pool change, only the order of the active list. */
  lemma RefreshedPool(s: State, v: VId)
    requires Pool(s) && (v in s.vnodes && Refreshes(s.vnodes[v]) ==> v in s.active)
    ensures SamePool(s, Refreshed(s, v))
  {
    if v in s.vnodes && Refreshes(s.vnodes[v]) {
      RefreshPool(s, v);
    }
  }

  // ----- one step -----

  /**
   What the Lookup of a file system does to `s`: a file that has a vnode is found without any
   change; any other gets a new vnode, or fails exactly if there is none to be had.
   */
  ghost predicate LookedUp(fs: Fs, s: State, t: State, d: VId, name: Name, memory: bool, code: Code, vnode: Option<VId>)
    requires Pool(s) && Cached(s)
  {
    match Child(fs, NamesOf(s), FileOf(s, d), name)
    case None => code == ENOENT && vnode == None && t == s
    case Some(g) =>
      && g.Inode?
      && if !Needs(s, g) then
           code == OK && vnode.Some? && vnode.value in s.hashed && FileOf(s, vnode.value) == g && t == s
         else if Exhausted(s) && (s.total == MAX_VNODE_SIZE || !memory) then
           code == ENOMEM && vnode == None && t == Missed(s)
         else
           && code == OK && vnode.Some? && vnode.value in t.hashed && FileOf(t, vnode.value) == g
           && Made(fs, s, t, vnode.value, g, memory)
  }

  /**
   The outcome of looking `name` up in `cur` is what the namespace says, unless a vnode is needed
   and none is to be had; `memory` says whether the next `zalloc` finds memory.
   */
  ghost predicate Answered(fs: Fs, s: State, t: State, cur: VId, name: Name, memory: bool, code: Code, next: Option<VId>)
    requires Pool(s) && Cached(s)
  {
    match Child(fs, NamesOf(s), FileOf(s, cur), name)
    case None => code == ENOENT && next == None
    case Some(g) =>
      if Needs(s, g) && Starves(s, cur, memory) then code == ENOMEM && next == None
      else
        && code == OK && next.Some? && Named(t, next.value) && FileOf(t, next.value) == g
        && BudgetMoves(s, t, g, memory)
        && next.value in t.vnodes && (Needs(s, g) ==> !t.vnodes[next.value].flagOrigin)
  }

  lemma Unpinned(s: State, d: VId)
    requires d in s.vnodes
    ensures Pin(Pin(s, d, 1), d, -1) == s
  {
    var x := s.vnodes[d];
    assert x.(useCount := x.useCount + 1).(useCount := x.useCount) == x;
    assert s.vnodes[d := x.(useCount := x.useCount + 1)][d := x] == s.vnodes;
  }

  /** Nothing is to be had while the directory is held exactly if it alone could be reclaimed. */
  lemma ExhaustedStarves(s: State, d: VId, memory: bool)
    requires Pool(s) && d in s.vnodes
    ensures var p := Pin(s, d, 1);
            Exhausted(p) && (p.total == MAX_VNODE_SIZE || !memory) <==> Starves(s, d, memory)
  {
    var p := Pin(s, d, 1);
    assert p.vnodes[d].useCount > 0;
    PinEligs(s, d, 1);
    assert d !in Eligs(p);
    ExhaustedEligs(p);
    assert Eligs(p) == Eligs(s) - {d};
    Only(Eligs(s), d);
  }

  lemma Only<T>(a: set<T>, d: T)
    ensures a - {d} == {} <==> forall v | v in a :: v == d
  {
    assert forall v :: v in a - {d} <==> v in a && v != d;
  }

  lemma ExhaustedEligs(s: State)
    ensures Exhausted(s) <==> s.free == [] && Eligs(s) == {}
  {
    assert forall v :: v in Eligs(s) <==> v in s.active && v in s.vnodes && Eligible(s.vnodes[v]);
  }

  /** A new vnode that Lookup made under the held directory. */
  lemma HeldMade(fs: Fs, s: State, p: State, t: State, d: VId, v: VId, g: File, memory: bool)
    requires Valid(fs, s) && Valid(fs, p) && Valid(fs, t) && Named(s, d) && d in s.vnodes && p == Pin(s, d, 1)
    requires Intact(p, t, d) && g.Inode? && Needs(s, g) && Made(fs, p, t, v, g, memory) && Cap(s, memory) >= 1
    ensures d in t.vnodes && v in t.vnodes && !t.vnodes[v].flagOrigin
    ensures BudgetMoves(s, Pin(t, d, -1), g, memory)
  {
    hide Cached, Hashed, Coherent, Mounted, Spent, BudgetMoves, Made, Needs, Cap;
    var vs := MadeSpends(fs, p, t, v, g, memory);
    NotTheDirectory(fs, s, p, t, d, vs, v, g, memory);
    NamedLive(fs, s, d);
    HeldSpends(s, p, t, d, vs, v, g, memory);
    AtMost(fs, s);
    SpentMoves(s, Pin(t, d, -1), vs, v, g, memory);
  }

  lemma NotTheDirectory(fs: Fs, s: State, p: State, t: State, d: VId, vs: set<VId>, v: VId, g: File, memory: bool)
    requires Valid(fs, s) && Named(s, d) && d in s.vnodes && p == Pin(s, d, 1) && Intact(p, t, d)
    requires g.Inode? && Needs(s, g) && Spent(p, t, vs, v, g, memory)
    ensures v != d
  {
    hide Cached, Coherent, Mounted;
    PinFile(s, d, 1, d);
    assert FileOf(t, d) == FileOf(p, d) == FileOf(s, d);
    if d in s.hashed {
      assert FileOf(s, d) in Known(s);
    }
  }

  /** What Lookup answered still holds when the directory is let go. */
  lemma HeldAnswer(fs: Fs, s: State, t: State, d: VId, name: Name, memory: bool, code: Code, next: Option<VId>)
    requires Valid(fs, s) && Named(s, d) && d in s.vnodes && Valid(fs, t)
    requires var p := Pin(s, d, 1);
             && Valid(fs, p) && NamesOf(p) == NamesOf(s) && FileOf(p, d) == FileOf(s, d)
             && Intact(p, t, d) && LookedUp(fs, p, t, d, name, memory, code, next)
    ensures d in t.vnodes && Answered(fs, s, Pin(t, d, -1), d, name, memory, code, next)
    ensures next.Some? ==> next.value in Pin(t, d, -1).hashed
  {
    hide Cached, Hashed, Coherent, Mounted, NamesOf, BudgetMoves, Made, Starves, Exhausted, Child, Eligs, Cap, Known, FilesOf;
    var p := Pin(s, d, 1);
    PinEligs(s, d, 1);
    ExhaustedStarves(s, d, memory);
    AtMost(fs, s);
    CapStarves(s, d, memory);
    if next.Some? {
      PinFile(t, d, -1, next.value);
      HashedLive(fs, t);
      HeldFound(fs, s, t, d, next.value, FileOf(t, next.value), memory);
    }
  }

  /** What the file found costs: nothing if it had a vnode already. */
  lemma HeldFound(fs: Fs, s: State, t: State, d: VId, v: VId, g: File, memory: bool)
    requires Valid(fs, s) && Named(s, d) && d in s.vnodes && Valid(fs, t) && v in t.vnodes
    requires var p := Pin(s, d, 1);
             && Valid(fs, p) && Intact(p, t, d)
             && if !Needs(s, g) then t == p else g.Inode? && Made(fs, p, t, v, g, memory) && Cap(s, memory) >= 1
    ensures d in t.vnodes && BudgetMoves(s, Pin(t, d, -1), g, memory)
    ensures v in Pin(t, d, -1).vnodes && (Needs(s, g) ==> !Pin(t, d, -1).vnodes[v].flagOrigin)
  {
    hide Cached, Hashed, Coherent, Mounted, NamesOf, BudgetMoves, Made, Cap, Known;
    if Needs(s, g) {
      HeldMade(fs, s, Pin(s, d, 1), t, d, v, g, memory);
    } else {
      AtMost(fs, s);
      Unpinned(s, d);
      NothingSpent(s, s, g, memory);
    }
  }

  /** On to the child of that name, across a mount; or still in the directory if there is none. */
  ghost predicate Moved(fs: Fs, s: State, t: State, cur: VId, name: Name, memory: bool, code: Code, next: VId)
    requires Pool(s) && Cached(s)
  {
    var names, f := NamesOf(s), FileOf(s, cur);
    match Child(fs, names, f, name)
    case None => code == ENOENT && next == cur && FileOf(t, next) == f
    case Some(g) =>
      if Needs(s, g) && Starves(s, cur, memory) then code == ENOMEM && next == cur && FileOf(t, next) == f
      else code == OK && FileOf(t, next) == Cross(names, g) && BudgetMoves(s, t, g, memory)
  }

  /**
   What Step does from `pos` in the directory `cur`: it stays where it is if `cur` is no
   directory; it ends (no position) if no component is left; else it moves past one component,
   to the child, across a mount, or stays in the directory if there is none.
   */
  ghost predicate Stepped(fs: Fs, s: State, t: State, path: Path, pos: nat, cur: VId, memory: bool,
                          code: Code, at: Option<nat>, next: VId)
    requires Pool(s) && Cached(s) && pos < |path|
  {
    var names, f, comps := NamesOf(s), FileOf(s, cur), Split(path[pos..]);
    && Named(t, next)
    && if !IsDir(fs, names, f) then code == ENOTDIR && at == Some(pos) && next == cur && FileOf(t, next) == f
       else if comps == [] then code == OK && at == None && next == cur && FileOf(t, next) == f
       else
         && at.Some? && pos < at.value <= |path| && Split(path[at.value..]) == comps[1..]
         && (at.value == |path| <==> |comps| == 1 && !Trailing(path))
         && Moved(fs, s, t, cur, comps[0], memory, code, next)
  }

  /**
   How far the lookup got, compared with the walk along the rest of the path: at its end the
   outcome is that of the walk, before its end the walk goes on from where the lookup stands.
   */
  lemma StepFollowsWalk(fs: Fs, s: State, t: State, path: Path, pos: nat, cur: VId, memory: bool,
                        code: Code, at: Option<nat>, next: VId)
    requires Pool(s) && Cached(s) && pos < |path|
    requires Stepped(fs, s, t, path, pos, cur, memory, code, at, next) && code != ENOMEM
    ensures var names, g, tr := NamesOf(s), FileOf(t, next), Trailing(path);
            var walk := Walk(fs, names, FileOf(s, cur), Split(path[pos..]), tr);
            if at.None? || at.value == |path| then walk == Outcome(code, Some(g))
            else if !fs.exec(g) then walk == Outcome(EACCES, None)
            else if code != OK then walk == Outcome(code, None)
            else walk == Walk(fs, names, g, Split(path[at.value..]), tr)
  {
    hide NamesOf, Pool, Cached, BudgetMoves, Needs, Starves;
  }

  /** The same for the walk with a budget, which ENOMEM does not escape. */
  lemma StepFollowsBudget(fs: Fs, s: State, t: State, path: Path, pos: nat, cur: VId, memory: bool,
                          code: Code, at: Option<nat>, next: VId)
    requires Valid(fs, s) && Named(s, cur) && pos < |path|
    requires Stepped(fs, s, t, path, pos, cur, memory, code, at, next)
    ensures var names, g, tr := NamesOf(s), FileOf(t, next), Trailing(path);
            var walk := WalkIn(fs, names, Known(s), BudgetOf(s, memory), FileOf(s, cur), Split(path[pos..]), tr);
            if at.None? || at.value == |path| then walk == Outcome(code, Some(g))
            else if !fs.exec(g) then walk == Outcome(EACCES, None)
            else if code != OK then walk == Outcome(code, None)
            else walk == WalkIn(fs, names, Known(t), BudgetOf(t, memory), g, Split(path[at.value..]), tr)
  {
    var names, f, comps, tr := NamesOf(s), FileOf(s, cur), Split(path[pos..]), Trailing(path);
    if IsDir(fs, names, f) && comps != [] && Child(fs, names, f, comps[0]).Some? {
      var g := Child(fs, names, f, comps[0]).value;
      ChildLacks(fs, s, cur, memory, g);
      if code == OK {
        BudgetGoesOn(fs, s, t, g, memory, names, comps[1..], tr);
      }
    }
    hide NamesOf, Pool, Cached, Hashed, Coherent, Mounted, BudgetMoves, Needs, Starves, Known, BudgetOf, Lacks;
  }

  lemma ChildLacks(fs: Fs, s: State, cur: VId, memory: bool, g: File)
    requires Valid(fs, s) && Named(s, cur)
    ensures Needs(s, g) && Starves(s, cur, memory) <==> Lacks(Known(s), BudgetOf(s, memory), FileOf(s, cur), g)
  {
    hide Pool, Cached, Hashed, Coherent, Mounted, Starves, BudgetOf;
    if Needs(s, g) {
      StarvesLacks(fs, s, cur, memory, g);
    }
  }

  /** The walk goes on with the budget of the new state. */
  lemma BudgetGoesOn(fs: Fs, s: State, t: State, g: File, memory: bool, names: Names, comps: seq<Name>, trailing: bool)
    requires BudgetMoves(s, t, g, memory)
    ensures var known, b, h := Known(s), BudgetOf(s, memory), Cross(names, g);
            var expected := WalkIn(fs, names, KnownAfter(known, b, g), BudgetAfter(known, b, g), h, comps, trailing);
            expected == WalkIn(fs, names, Known(t), BudgetOf(t, memory), h, comps, trailing)
  {
    hide WalkIn, Known, Eligs, Spot;
    if Cap(s, memory) >= 2 {
      var known, b, h := Known(s), BudgetOf(s, memory), Cross(names, g);
      PlentyWalks(fs, names, KnownAfter(known, b, g), h, comps, trailing);
      PlentyWalks(fs, names, Known(t), h, comps, trailing);
    }
  }

  /** While two vnodes are to be had without new memory, no step fails for want of one. */
  lemma StepHasVnodes(fs: Fs, s: State, t: State, path: Path, pos: nat, cur: VId, memory: bool,
                      code: Code, at: Option<nat>, next: VId)
    requires Valid(fs, s) && pos < |path| && Cap(s, false) >= 2
    requires Stepped(fs, s, t, path, pos, cur, memory, code, at, next)
    ensures code != ENOMEM && (code == OK && at.Some? ==> Cap(t, false) >= 2)
  {
    hide Pool, Cached, Hashed, Coherent, Mounted, NamesOf, Needs, Starves, Cap, Child, IsDir, Cross, Split, Trailing;
    AtMost(fs, s);
    CapStarves(s, cur, memory);
  }

  lemma StepAdvances(fs: Fs, s: State, t: State, path: Path, pos: nat, cur: VId, memory: bool,
                     code: Code, at: Option<nat>, next: VId)
    requires Pool(s) && Cached(s) && pos < |path|
    requires Stepped(fs, s, t, path, pos, cur, memory, code, at, next)
    ensures Named(t, next) && (at.Some? && code == OK ==> pos < at.value <= |path|)
    ensures at.Some? && code == OK && Short(path[pos..]) ==> Short(path[at.value..])
  {
    hide NamesOf, Pool, Cached, Child, IsDir, Cross, Split, Trailing, Moved;
    if at.Some? && code == OK && Short(path[pos..]) {
      ShortRest(path[pos..], path[at.value..]);
    }
  }

  lemma ShortRest(p: Path, q: Path)
    requires Short(p) && Split(p) != [] && Split(q) == Split(p)[1..]
    ensures Short(q)
  {
    assert forall n | n in Split(q) :: n in Split(p);
  }

  // ----- the cache, and what is done after Lookup -----

  /** A hit in the cache answers, without any change; in devfs a miss answers too. */
  lemma CacheAnswers(fs: Fs, s: State, cur: VId, name: Name, memory: bool)
    requires Valid(fs, s) && Named(s, cur)
    ensures Children(cur) in s.cache.rings
    ensures var found := Find(s.cache.entries, s.cache.rings[Children(cur)], cur, name);
            && (found.Some? ==>
                  && found.value in s.cache.entries
                  && var child := s.cache.entries[found.value].child;
                     && Answered(fs, s, s, cur, name, memory, OK, Some(child))
                     && !Needs(s, FileOf(s, child)))
            && (found.None? && cur in s.virt ==> Answered(fs, s, s, cur, name, memory, ENOENT, None))
  {
    NamedLive(fs, s, cur);
    CacheIsRight(fs, s, cur, name);
    var found := Find(s.cache.entries, s.cache.rings[Children(cur)], cur, name);
    if found.Some? {
      var child := s.cache.entries[found.value].child;
      NamedKnown(fs, s, child);
      AtMost(fs, s);
      NothingSpent(s, s, FileOf(s, child), memory);
    }
  }

  lemma NamedKnown(fs: Fs, s: State, v: VId)
    requires Valid(fs, s) && Named(s, v)
    ensures v in s.vnodes && !Needs(s, FileOf(s, v))
  {
    NamedLive(fs, s, v);
    if v in s.hashed {
      assert FileOf(s, v) in Known(s);
    }
  }

  lemma HeldNeeds(s: State, t: State, d: VId, v: VId)
    requires d in s.vnodes && d in t.vnodes
    ensures Needs(s, FileOf(Pin(t, d, -1), v)) <==> Needs(Pin(s, d, 1), FileOf(t, v))
  {
    PinFile(t, d, -1, v);
    PinEligs(s, d, 1);
  }

  lemma AnsweredChild(fs: Fs, s: State, t: State, cur: VId, name: Name, memory: bool, v: VId)
    requires Valid(fs, s) && Answered(fs, s, t, cur, name, memory, OK, Some(v))
    ensures Child(fs, NamesOf(s), FileOf(s, cur), name) == Some(FileOf(t, v))
  {
    hide Pool, Cached, Hashed, Coherent, Mounted, NamesOf, BudgetMoves;
  }

  /** That there is no such name does not depend on the state reached. */
  lemma AnsweredMiss(fs: Fs, s: State, t: State, u: State, cur: VId, name: Name, memory: bool)
    requires Valid(fs, s) && Answered(fs, s, t, cur, name, memory, ENOENT, None)
    ensures Answered(fs, s, u, cur, name, memory, ENOENT, None)
  {
    hide Pool, Cached, Hashed, Coherent, Mounted, NamesOf, BudgetMoves, Child;
  }

  /** The answer is still good after the name was cached. */
  lemma AnsweredStill(fs: Fs, s: State, t: State, u: State, cur: VId, name: Name, memory: bool, code: Code, next: Option<VId>)
    requires Valid(fs, s) && Valid(fs, t) && Answered(fs, s, t, cur, name, memory, code, next)
    requires u == t.(cache := u.cache) && next.Some?
    ensures Answered(fs, s, u, cur, name, memory, code, next)
    ensures FileOf(u, next.value) == FileOf(t, next.value)
  {
    hide Pool, Cached, Hashed, Coherent, Mounted, NamesOf, BudgetMoves, Child;
    if code == OK {
      AtMost(fs, t);
      MovesThen(s, t, u, FileOf(t, next.value), memory);
    }
  }

  /** RefreshLRU does not matter to the budget. */
  lemma RefreshedMoves(fs: Fs, s: State, t: State, v: VId, g: File, memory: bool)
    requires Valid(fs, t) && Named(t, v) && BudgetMoves(s, t, g, memory)
    ensures BudgetMoves(s, Refreshed(t, v), g, memory)
  {
    hide BudgetMoves, Cached, Coherent, Mounted;
    RefreshedValid(fs, t, v);
    RefreshedPool(t, v);
    AtMost(fs, t);
    MovesThen(s, t, Refreshed(t, v), g, memory);
  }
}
