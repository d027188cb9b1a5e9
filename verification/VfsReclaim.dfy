/**
 Reclaiming unused vnodes in LRU order, and the outcome of allocating a vnode, which may take
 one from the free list, new memory, or reclaim.
 */
module VfsReclaim {
  import opened Lists
  import opened PathCache
  import opened VfsState
  import opened VfsNames
  import opened VfsSteps
  import opened VfsGrowth

  const VNODE_LRU_COUNT: nat := 10

  /** Not in use and no end of a mount. */
  predicate Eligible(x: Vnode)
  {
    x.useCount <= 0 && !x.flagOrigin && !x.flagNew
  }

  /** Why vnodes are freed: to be used anew, or because their mount goes. */
  datatype Purpose = Reclaim | Unmount(mount: MId)

  predicate Frees(p: Purpose, x: Vnode)
  {
    match p
    case Reclaim => Eligible(x)
    case Unmount(m) => x.origin == Some(m) && !x.flagNew && x.useCount <= 0
  }

  /** The vnodes of a list that are to be freed, in order. */
  function Chosen(p: Purpose, list: seq<VId>, vnodes: map<VId, Vnode>): seq<VId>
  {
    if list == [] then []
    else if list[0] in vnodes && Frees(p, vnodes[list[0]]) then [list[0]] + Chosen(p, list[1..], vnodes)
    else Chosen(p, list[1..], vnodes)
  }

  /** What one reclaim frees: the first eligible vnodes of the active list, ten at most. */
  function Victims(s: State): seq<VId>
  {
    var all := Chosen(Reclaim, s.active, s.vnodes);
    if |all| <= VNODE_LRU_COUNT then all else all[..VNODE_LRU_COUNT]
  }

  function FreeMany(s: State, vs: seq<VId>): State
  {
    if vs == [] then s else
      var t := FreeMany(s, vs[..|vs| - 1]);
      var v := vs[|vs| - 1];
      if v in t.vnodes then FreeVnode(t, v) else t
  }

  function Reversed<T>(s: seq<T>): seq<T>
  {
    if s == [] then [] else [s[|s| - 1]] + Reversed(s[..|s| - 1])
  }

  lemma {:induction false} ChosenMembers(p: Purpose, list: seq<VId>, vnodes: map<VId, Vnode>)
    ensures forall v :: v in Chosen(p, list, vnodes) <==> v in list && v in vnodes && Frees(p, vnodes[v])
    ensures NoDup(list) ==> NoDup(Chosen(p, list, vnodes))
  {
    if list != [] {
      ChosenMembers(p, list[1..], vnodes);
      assert list == [list[0]] + list[1..];
      if NoDup(list) {
        assert list[0] !in list[1..];
        assert list[0] !in Chosen(p, list[1..], vnodes);
      }
    }
  }

  lemma {:induction false} ChosenAppend(p: Purpose, a: seq<VId>, b: seq<VId>, vnodes: map<VId, Vnode>)
    ensures Chosen(p, a + b, vnodes) == Chosen(p, a, vnodes) + Chosen(p, b, vnodes)
  {
    if a == [] {
      assert a + b == b;
    } else {
      assert (a + b)[1..] == a[1..] + b;
      ChosenAppend(p, a[1..], b, vnodes);
    }
  }

  /** A vnode that `t` still has exactly as `s` had it. */
  ghost predicate Intact(s: State, t: State, w: VId)
  {
    && Live(t, w) && w in s.vnodes && w in t.vnodes && t.vnodes[w] == s.vnodes[w]
    && (w in s.virt <==> w in t.virt) && (w in s.hashed <==> w in t.hashed)
  }

  /** Vnodes that reclaim may free. */
  ghost predicate Doomed(s: State, vs: seq<VId>)
  {
    NoDup(vs) && forall v | v in vs :: v in s.active && v in s.vnodes && Eligible(s.vnodes[v])
  }

  /** Vnodes that can be taken off the active list. */
  ghost predicate Removable(s: State, vs: seq<VId>)
  {
    NoDup(vs) && forall v | v in vs :: v in s.active && v in s.vnodes
  }

  lemma FreeOnePool(s: State, v: VId)
    requires Pool(s) && v in s.active && v in s.vnodes
    ensures var t := FreeVnode(s, v);
            && Pool(t) && (forall w :: w in t.active <==> w in s.active && w != v)
            && (forall w :: w in t.free <==> w in s.free || w == v)
            && (forall w | w != v && w in s.vnodes :: w in t.vnodes && t.vnodes[w] == s.vnodes[w])
  {
    FreePool(s, v);
    FreeLists(s, v);
  }

  /** Freeing vnodes of the active list removes exactly them from it and changes no other vnode. */
  lemma {:induction false} FreeManyPool(s: State, vs: seq<VId>)
    requires Pool(s) && Removable(s, vs)
    ensures var t := FreeMany(s, vs);
            && Pool(t) && (forall w :: w in t.active <==> w in s.active && w !in vs)
            && (forall w :: w in t.free <==> w in s.free || w in vs)
            && (forall w | w in s.active && w !in vs :: w in t.vnodes && t.vnodes[w] == s.vnodes[w])
    decreases |vs|
  {
    if vs != [] {
      var pre, v := vs[..|vs| - 1], vs[|vs| - 1];
      assert vs == pre + [v] && v !in pre && v in vs;
      assert forall w :: w in vs <==> w in pre || w == v;
      FreeManyPool(s, pre);
      FreeOnePool(FreeMany(s, pre), v);
      hide Pool;
    }
  }

  /** `t` comes from `s` by freeing exactly `vs`, in this order; nothing else was touched. */
  ghost predicate FreedExactly(fs: Fs, s: State, t: State, vs: seq<VId>)
    requires Valid(fs, s)
  {
    && Valid(fs, t) && NamesOf(t) == NamesOf(s)
    && (forall w | Live(s, w) && w !in vs :: Intact(s, t, w))
    && (forall w :: w in t.active <==> w in s.active && w !in vs)
    && t.free == Reversed(vs) + s.free && t.total == s.total && t.lost == s.lost
  }

  lemma FreeOne(fs: Fs, s: State, v: VId)
    requires Valid(fs, s) && v in s.active && Eligible(s.vnodes[v])
    ensures FreedExactly(fs, s, FreeVnode(s, v), [v])
  {
    hide Pool, Cached, Hashed, Coherent, Mounted, NamesOf, Live, Intact, FreeVnode, NoMountEnd;
    ActiveVnode(fs, s, v);
    UnflaggedNoMountEnd(fs, s, v);
    FreeNames(fs, s, v);
    FreeIntact(s, v);
    FreeCounts(s, v);
    ReversedOne(v);
    hide Reversed;
    assert forall w :: w in [v] <==> w == v;
  }

  lemma ReversedOne<T>(x: T)
    ensures Reversed([x]) == [x]
  {
    assert [x][..0] == [];
  }

  lemma ActiveVnode(fs: Fs, s: State, v: VId)
    requires Valid(fs, s) && v in s.active
    ensures v in s.vnodes
  {
  }

  lemma FreeCounts(s: State, v: VId)
    requires Pool(s) && v in s.active
    ensures var t := FreeVnode(s, v);
            && t.free == [v] + s.free && t.total == s.total && t.lost == s.lost
            && forall w :: w in t.active <==> w in s.active && w != v
  {
    FreeLists(s, v);
  }

  lemma FreeIntact(s: State, v: VId)
    requires Pool(s) && v in s.active
    ensures forall w | Live(s, w) && w != v :: Intact(s, FreeVnode(s, v), w)
  {
    FreeLists(s, v);
  }

  lemma FreedThen(fs: Fs, s: State, t: State, u: State, vs: seq<VId>, v: VId)
    requires Valid(fs, s) && FreedExactly(fs, s, t, vs) && FreedExactly(fs, t, u, [v])
    ensures FreedExactly(fs, s, u, vs + [v])
  {
    hide Pool, Cached, Hashed, Coherent, Mounted, NamesOf, Reversed;
    forall w | Live(s, w) && w !in vs + [v] ensures Intact(s, u, w) {
      assert Intact(s, t, w);
      assert Intact(t, u, w);
    }
    ReversedNext(vs, v, s.free);
  }

  lemma ReversedNext(vs: seq<VId>, v: VId, free: seq<VId>)
    ensures Reversed([v]) == [v]
    ensures Reversed([v]) + (Reversed(vs) + free) == Reversed(vs + [v]) + free
  {
    assert Reversed([v]) == [v] && (vs + [v])[..|vs|] == vs;
    assert [v] + (Reversed(vs) + free) == ([v] + Reversed(vs)) + free;
  }

  lemma FreeNext(fs: Fs, s: State, t: State, vs: seq<VId>, v: VId)
    requires Valid(fs, s) && FreedExactly(fs, s, t, vs)
    requires v in s.active && v !in vs && Eligible(s.vnodes[v])
    ensures v in t.vnodes && FreedExactly(fs, s, FreeVnode(t, v), vs + [v])
  {
    assert Intact(s, t, v);
    FreeOne(fs, t, v);
    FreedThen(fs, s, t, FreeVnode(t, v), vs, v);
  }

  lemma FreedNothing(fs: Fs, s: State)
    requires Valid(fs, s)
    ensures FreedExactly(fs, s, s, [])
  {
    assert Reversed<VId>([]) + s.free == s.free;
  }

  lemma DoomedPrefix(s: State, vs: seq<VId>, n: nat)
    requires Doomed(s, vs) && n <= |vs|
    ensures Doomed(s, vs[..n])
  {
    assert forall v | v in vs[..n] :: v in vs;
  }

  /** Freeing doomed vnodes one after the other frees exactly them and leaves all others intact. */
  lemma {:induction false} FreeManyExact(fs: Fs, s: State, vs: seq<VId>)
    requires Valid(fs, s) && Doomed(s, vs)
    ensures FreedExactly(fs, s, FreeMany(s, vs), vs)
    decreases |vs|
  {
    if vs == [] {
      FreedNothing(fs, s);
    } else {
      var pre, v := vs[..|vs| - 1], vs[|vs| - 1];
      assert vs == pre + [v] && v !in pre && v in vs;
      DoomedPrefix(s, vs, |vs| - 1);
      FreeManyExact(fs, s, pre);
      FreeNext(fs, s, FreeMany(s, pre), pre, v);
    }
  }

  lemma VictimsDoomed(s: State)
    requires Pool(s)
    ensures Doomed(s, Victims(s)) && |Victims(s)| <= VNODE_LRU_COUNT
    ensures Victims(s) == [] <==> forall v | v in s.active :: !Eligible(s.vnodes[v])
  {
    ChosenMembers(Reclaim, s.active, s.vnodes);
    var all := Chosen(Reclaim, s.active, s.vnodes);
    assert forall v | v in Victims(s) :: v in all;
    if all != [] { assert all[0] in all; }
    forall v | v in s.active && Eligible(s.vnodes[v]) ensures all != [] {
      assert v in all;
    }
  }

  // ----- the reclaiming traversal of the active list -----

  /** The eligible vnodes among the first `i` of the active list. */
  function Passed(p: Purpose, s: State, i: nat): seq<VId>
    requires i <= |s.active|
  {
    Chosen(p, s.active[..i], s.vnodes)
  }

  ghost function All(p: Purpose, s: State): set<VId>
  {
    Elems(Chosen(p, s.active, s.vnodes))
  }

  lemma PassedNext(p: Purpose, s: State, i: nat)
    requires i < |s.active| && s.active[i] in s.vnodes
    ensures Passed(p, s, i + 1) == if Frees(p, s.vnodes[s.active[i]]) then Passed(p, s, i) + [s.active[i]] else Passed(p, s, i)
    ensures Passed(p, s, i) <= Chosen(p, s.active, s.vnodes)
  {
    var v := s.active[i];
    assert s.active[..i + 1] == s.active[..i] + [v];
    ChosenAppend(p, s.active[..i], [v], s.vnodes);
    assert Chosen(p, [v], s.vnodes) == if Frees(p, s.vnodes[v]) then [v] else [];
    PassedPrefix(p, s, i);
  }

  lemma PassedPrefix(p: Purpose, s: State, i: nat)
    requires i <= |s.active|
    ensures Passed(p, s, i) <= Chosen(p, s.active, s.vnodes)
    ensures i == |s.active| ==> Passed(p, s, i) == Chosen(p, s.active, s.vnodes)
  {
    assert s.active == s.active[..i] + s.active[i..];
    ChosenAppend(p, s.active[..i], s.active[i..], s.vnodes);
  }

  lemma {:induction false} KeepAt<T>(s: seq<T>, k: nat)
    requires NoDup(s) && k < |s|
    ensures Keep(s, {s[k]}) == RemoveAt(s, k)
  {
    var rest := s[1..];
    if k == 0 {
      assert s[0] !in rest;
      KeepNone(rest, {s[0]});
    } else {
      assert rest[k - 1] == s[k] && s[0] != s[k];
      KeepAt(rest, k - 1);
      assert RemoveAt(s, k) == [s[0]] + RemoveAt(rest, k - 1);
    }
  }

  lemma PassedPool(p: Purpose, s: State, i: nat)
    requires Pool(s) && i <= |s.active|
    ensures Removable(s, Passed(p, s, i))
    ensures i < |s.active| ==> s.active[i] !in Passed(p, s, i)
  {
    assert NoDup(s.active[..i]);
    ChosenMembers(p, s.active[..i], s.vnodes);
    assert forall v | v in s.active[..i] :: v in s.active;
    if i < |s.active| {
      assert forall j | 0 <= j < i :: s.active[..i][j] != s.active[i];
    }
  }

  /**
   One round of the SAFE traversal of the active list in VnodeReclaimLru or VnodeFreeAll.  `t` is
   the state after the first `i` vnodes were passed: the current one is still as it was, at
   position `k` of what is left of the list; it is freed or stepped over.
   */
  lemma SweepRound(p: Purpose, s: State, i: nat, t: State)
    requires Pool(s) && i < |s.active| && t == FreeMany(s, Passed(p, s, i))
    requires t.active == Left(s.active, i, All(p, s))
    ensures var v, k, all := s.active[i], |Keep(s.active[..i], All(p, s))|, All(p, s);
            && k < |t.active| && t.active[k] == v && v in s.vnodes && v in t.vnodes && t.vnodes[v] == s.vnodes[v] && Live(t, v)
            && (Frees(p, s.vnodes[v]) ==>
                  FreeVnode(t, v) == FreeMany(s, Passed(p, s, i + 1))
                  && FreeVnode(t, v).active == Left(s.active, i + 1, all)
                  && |Keep(s.active[..i + 1], all)| == k && |Passed(p, s, i + 1)| == |Passed(p, s, i)| + 1)
            && (!Frees(p, s.vnodes[v]) ==>
                  t == FreeMany(s, Passed(p, s, i + 1)) && t.active == Left(s.active, i + 1, all)
                  && |Keep(s.active[..i + 1], all)| == k + 1 && |Passed(p, s, i + 1)| == |Passed(p, s, i)|)
  {
    var v, all := s.active[i], All(p, s);
    assert v in s.active;
    PassedPool(p, s, i);
    FreeManyPool(s, Passed(p, s, i));
    LeftStep(s.active, i, all);
    PassedNext(p, s, i);
    ChosenMembers(p, s.active, s.vnodes);
    assert v in all <==> Frees(p, s.vnodes[v]);
    KeepCount(s.active, i, all);
    if Frees(p, s.vnodes[v]) {
      KeepAt(t.active, |Keep(s.active[..i], all)|);
      assert Passed(p, s, i + 1)[..|Passed(p, s, i)|] == Passed(p, s, i);
    }
  }

  /** Reclaim stops after the victims: at the tenth, or at the end of the list. */
  lemma ReclaimEnd(s: State, i: nat)
    requires i <= |s.active| && |Passed(Reclaim, s, i)| <= VNODE_LRU_COUNT
    requires |Passed(Reclaim, s, i)| == VNODE_LRU_COUNT
          || |Keep(s.active[..i], All(Reclaim, s))| >= |Left(s.active, i, All(Reclaim, s))|
    ensures Passed(Reclaim, s, i) == Victims(s)
  {
    if |Passed(Reclaim, s, i)| < VNODE_LRU_COUNT {
      SweepDone(Reclaim, s, i);
    }
    PassedPrefix(Reclaim, s, i);
  }

  /** The traversal has come to the end of what is left when it has passed the whole list. */
  lemma SweepDone(p: Purpose, s: State, i: nat)
    requires i <= |s.active| && |Keep(s.active[..i], All(p, s))| >= |Left(s.active, i, All(p, s))|
    ensures i == |s.active|
  {
    if i < |s.active| {
      LeftStep(s.active, i, All(p, s));
    }
  }

  lemma FreeManyNone(p: Purpose, s: State)
    ensures Passed(p, s, 0) == [] && FreeMany(s, Passed(p, s, 0)) == s && Keep(s.active[..0], All(p, s)) == []
  {
  }

  lemma ReclaimLeaves(fs: Fs, s: State)
    requires Valid(fs, s)
    ensures Victims(s) == [] ==> FreeMany(s, Victims(s)) == s
    ensures Victims(s) != [] ==> FreeMany(s, Victims(s)).free != []
    ensures FreeMany(s, Victims(s)).freeSize == |FreeMany(s, Victims(s)).free|
  {
    VictimsDoomed(s);
    FreeManyExact(fs, s, Victims(s));
  }

  lemma KeepCount<T>(s: seq<T>, i: nat, drop: set<T>)
    requires i < |s|
    ensures |Keep(s[..i + 1], drop)| == |Keep(s[..i], drop)| + if s[i] in drop then 0 else 1
  {
    assert s[..i + 1] == s[..i] + [s[i]];
    KeepAppend(s[..i], [s[i]], drop);
    assert Keep([s[i]], drop) == if s[i] in drop then [] else [s[i]];
  }

  // ----- VnodeAlloc -----

  /** A failed `zalloc` is counted all the same. */
  function Missed(s: State): State
  {
    if s.total < MAX_VNODE_SIZE then s.(total := s.total + 1, lost := s.lost + 1) else s
  }

  /** Where the vnode comes from; `t` is the state before it is initialised and listed. */
  ghost predicate Obtained(s: State, t: State, r: Option<VId>, memory: bool)
  {
    if s.free != [] then
      r == Some(s.free[0]) && t == Detach(s)
    else if s.total < MAX_VNODE_SIZE && memory then
      r.Some? && r.value !in s.vnodes && t == s.(total := s.total + 1)
    else
      var m := Missed(s);
      var u := FreeMany(m, Victims(m));
      if Victims(m) == [] then r == None && t == m
      else u.free != [] && r == Some(u.free[0]) && t == Detach(u)
  }

  lemma AttachAllocates(s: State, t: State, v: VId, dev: bool, memory: bool)
    requires Obtained(s, t, Some(v), memory)
    ensures Allocates(s, Attach(t, v, dev), Some(v), dev, memory)
  {
  }

  /** How VnodeAlloc takes `s` to `t`; `memory` says whether `zalloc` would find memory. */
  ghost predicate Allocates(s: State, t: State, r: Option<VId>, dev: bool, memory: bool)
  {
    if s.free != [] then
      r == Some(s.free[0]) && t == Enter(s, s.free[0], dev, true)
    else if s.total < MAX_VNODE_SIZE && memory then
      r.Some? && r.value !in s.vnodes && t == Enter(s, r.value, dev, false)
    else
      var m := Missed(s);
      var u := FreeMany(m, Victims(m));
      if Victims(m) == [] then r == None && t == m
      else u.free != [] && r == Some(u.free[0]) && t == Enter(u, u.free[0], dev, true)
  }

  /** There is no vnode to be had: none is free and none on the active list may be reclaimed. */
  ghost predicate Exhausted(s: State)
  {
    s.free == [] && forall v | v in s.active && v in s.vnodes :: !Eligible(s.vnodes[v])
  }

  /** `v` has been taken into use; what was pinned or is an end of a mount is intact. */
  ghost predicate GotVnode(fs: Fs, s: State, t: State, v: VId)
  {
    && Valid(fs, t) && Live(t, v) && v !in t.hashed && v in t.vnodes && t.vnodes[v].(dev := false) == BLANK
    && (forall w | Live(s, w) && w in s.vnodes && !Eligible(s.vnodes[w]) :: w != v && Intact(s, t, w))
    && (forall w | w in t.hashed :: Intact(s, t, w) && w in s.hashed)
    && t.lost >= s.lost && t.total >= s.total
  }

  lemma MissedPool(s: State)
    requires Pool(s)
    ensures Pool(Missed(s)) && SameLists(s, Missed(s))
  {
  }

  lemma MissedValid(fs: Fs, s: State)
    requires Valid(fs, s)
    ensures Valid(fs, Missed(s)) && NamesOf(Missed(s)) == NamesOf(s)
  {
    hide Cached, Hashed, Coherent, Mounted;
    MissedPool(s);
    SameListsValid(fs, s, Missed(s));
  }

  lemma EnterIntact(s: State, v: VId, dev: bool, recycled: bool)
    requires Pool(s) && Cached(s) && Hashed(s) && MayEnter(s, v, recycled)
    ensures forall w | Live(s, w) :: w != v && Intact(s, Enter(s, v, dev, recycled), w)
  {
    EnterLists(s, v, dev, recycled);
    EnterCached(s, v, dev, recycled);
  }

  lemma EnterGot(fs: Fs, s: State, v: VId, dev: bool, recycled: bool)
    requires Valid(fs, s) && MayEnter(s, v, recycled)
    ensures GotVnode(fs, s, Enter(s, v, dev, recycled), v)
    ensures NamesOf(Enter(s, v, dev, recycled)) == if dev then Grown(NamesOf(s), v) else NamesOf(s)
    ensures v in Enter(s, v, dev, recycled).virt <==> dev
    ensures forall w | Live(s, w) :: Intact(s, Enter(s, v, dev, recycled), w)
  {
    EnterValid(fs, s, v, dev, recycled);
    EnterIntact(s, v, dev, recycled);
    EnterLists(s, v, dev, recycled);
    assert v !in s.hashed;
    assert forall w | w in s.hashed :: Live(s, w);
  }

  /** Reclaim leaves intact whatever is pinned or an end of a mount. */
  lemma ReclaimGot(fs: Fs, s: State, u: State, t: State, vs: seq<VId>, v: VId)
    requires Valid(fs, s) && Doomed(s, vs) && FreedExactly(fs, s, u, vs) && GotVnode(fs, u, t, v)
    requires forall w | Live(u, w) :: Intact(u, t, w)
    ensures GotVnode(fs, s, t, v)
  {
    forall w | Live(s, w) && !Eligible(s.vnodes[w]) ensures w != v && Intact(s, t, w) {
      assert Intact(s, u, w);
    }
    forall w | w in t.hashed ensures Intact(s, t, w) && w in s.hashed {
      assert Intact(u, t, w) && w in u.hashed;
      assert w in u.active && w in s.active && w !in vs;
      assert Intact(s, u, w);
    }
  }

  lemma AllocAfterReclaim(fs: Fs, s: State, t: State, v: VId, dev: bool)
    requires Valid(fs, s) && s.free == [] && Victims(s) != []
    requires var u := FreeMany(s, Victims(s)); u.free != [] && v == u.free[0] && t == Enter(u, v, dev, true)
    ensures GotVnode(fs, s, t, v) && (v in t.virt <==> dev)
    ensures NamesOf(t) == if dev then Grown(NamesOf(s), v) else NamesOf(s)
  {
    VictimsDoomed(s);
    FreeManyExact(fs, s, Victims(s));
    var u := FreeMany(s, Victims(s));
    EnterGot(fs, u, v, dev, true);
    ReclaimGot(fs, s, u, t, Victims(s), v);
  }

  /**
   VnodeAlloc keeps the invariants and never frees a vnode in use.  It fails only when the pool
   is exhausted: nothing on the free list and nothing on the active list may be reclaimed.
   */
  lemma AllocValid(fs: Fs, s: State, t: State, r: Option<VId>, dev: bool, memory: bool)
    requires Valid(fs, s) && Allocates(s, t, r, dev, memory)
    ensures Valid(fs, t) && NamesOf(t) == if dev && r.Some? then Grown(NamesOf(s), r.value) else NamesOf(s)
    ensures r.Some? ==> GotVnode(fs, s, t, r.value) && (r.value in t.virt <==> dev)
    ensures r.None? ==> Exhausted(s) && (s.total == MAX_VNODE_SIZE || !memory) && t == Missed(s)
  {
    if s.free != [] {
      EnterGot(fs, s, s.free[0], dev, true);
    } else if s.total < MAX_VNODE_SIZE && memory {
      EnterGot(fs, s, r.value, dev, false);
    } else {
      MissedValid(fs, s);
      VictimsDoomed(Missed(s));
      if Victims(Missed(s)) != [] {
        AllocAfterReclaim(fs, Missed(s), t, r.value, dev);
        MissedGot(fs, s, t, r.value);
      }
    }
  }

  lemma MissedGot(fs: Fs, s: State, t: State, v: VId)
    requires GotVnode(fs, Missed(s), t, v)
    ensures GotVnode(fs, s, t, v)
  {
    assert forall w :: Live(Missed(s), w) <==> Live(s, w);
    forall w | Live(s, w) && w in s.vnodes && !Eligible(s.vnodes[w]) ensures w != v && Intact(s, t, w) {
      assert Intact(Missed(s), t, w);
    }
    forall w | w in t.hashed ensures Intact(s, t, w) && w in s.hashed {
      assert Intact(Missed(s), t, w);
    }
  }

  /** Allocation succeeds unless nothing is free or reclaimable and no new memory can be had. */
  lemma AllocSucceeds(fs: Fs, s: State, t: State, v: VId, dev: bool, memory: bool)
    requires Valid(fs, s) && Allocates(s, t, Some(v), dev, memory)
    ensures !(Exhausted(s) && (s.total == MAX_VNODE_SIZE || !memory))
  {
    hide Cached, Hashed, Coherent, Mounted, NamesOf, FreeMany, Enter;
    if s.free == [] && !(s.total < MAX_VNODE_SIZE && memory) {
      MissedValid(fs, s);
      VictimsDoomed(Missed(s));
    }
  }
}
