/**
 The steps of the vnode layer and what they keep: each single change of the state leaves the
 invariants and the namespace as they are.
 */
module VfsSteps {
  import opened Lists
  import opened PathCache
  import opened VfsState
  import opened VfsNames

  // ----- steps that only take away -----

  /** Equal but for the use count. */
  predicate SameBut(x: Vnode, y: Vnode)
  {
    y.(useCount := x.useCount) == x
  }

  /** `t` keeps some of the vnodes and entries of `s` as they are, among them all mount ends. */
  ghost predicate Shrinks(s: State, t: State)
    requires Pool(s) && Pool(t)
  {
    && (forall e | e in t.cache.entries :: e in s.cache.entries && s.cache.entries[e] == t.cache.entries[e])
    && (forall v | Live(t, v) :: Survives(s, t, v))
    && t.mounts == s.mounts
    && (forall m | m in s.mounts :: Live(t, s.mounts[m].covered) && Live(t, s.mounts[m].beCovered))
  }

  ghost predicate Survives(s: State, t: State, v: VId)
  {
    && Live(s, v) && v in s.vnodes && v in t.vnodes && SameBut(s.vnodes[v], t.vnodes[v])
    && (v in s.virt <==> v in t.virt) && (v in s.hashed <==> v in t.hashed)
  }

  lemma ShrinkCoherent(fs: Fs, s: State, t: State)
    requires Pool(s) && Hashed(s) && Coherent(fs, s) && Pool(t) && Cached(t) && Hashed(t) && Shrinks(s, t)
    ensures Coherent(fs, t)
  {
    forall e | e in t.cache.entries ensures Agrees(fs, t, t.cache.entries[e]) {
      EntriesLive(t, e);
      assert Agrees(fs, s, s.cache.entries[e]);
      assert Survives(s, t, t.cache.entries[e].parent) && Survives(s, t, t.cache.entries[e].child);
    }
    forall v | v in t.hashed
      ensures t.vnodes[v].kind == fs.kind(t.vnodes[v].origin.value, t.vnodes[v].hash)
    {
      assert Survives(s, t, v);
    }
  }

  lemma ShrinkMounted(s: State, t: State)
    requires Pool(s) && Hashed(s) && Mounted(s) && Pool(t) && Hashed(t) && Shrinks(s, t)
    ensures Mounted(t)
  {
    forall m | m in t.mounts ensures MountOk(t, m) {
      assert MountOk(s, m);
      assert Survives(s, t, s.mounts[m].covered) && Survives(s, t, s.mounts[m].beCovered);
    }
    forall v | Live(t, v) && t.vnodes[v].flagOrigin
      ensures var n := t.vnodes[v].newMount; n.Some? && n.value in t.mounts && t.mounts[n.value].beCovered == v
    {
      assert Survives(s, t, v);
    }
  }

  lemma ShrinkValid(fs: Fs, s: State, t: State)
    requires Valid(fs, s) && Pool(t) && Cached(t) && Hashed(t) && Shrinks(s, t)
    ensures Valid(fs, t)
  {
    hide Pool, Cached, Hashed, Coherent, Mounted, Shrinks;
    ShrinkCoherent(fs, s, t);
    ShrinkMounted(s, t);
  }

  lemma ShrinkVirt(s: State, t: State)
    requires Pool(s) && Pool(t) && Shrinks(s, t) && forall d | d in s.virt :: d in t.virt
    ensures forall d :: d in s.virt <==> d in t.virt
    ensures KindMap(t.vnodes, t.virt) == KindMap(s.vnodes, s.virt)
  {
    forall d | d in t.virt ensures d in s.virt && s.vnodes[d].kind == t.vnodes[d].kind {
      assert Live(t, d);
      assert Survives(s, t, d);
    }
    SameKinds(s.vnodes, s.virt, t.vnodes, t.virt);
  }

  lemma SameKinds(vnodes: map<VId, Vnode>, virt: seq<VId>, vnodes': map<VId, Vnode>, virt': seq<VId>)
    requires (forall d | d in virt :: d in vnodes) && (forall d | d in virt' :: d in vnodes')
    requires forall d :: d in virt' <==> d in virt
    requires forall d | d in virt' :: vnodes'[d].kind == vnodes[d].kind
    ensures KindMap(vnodes', virt') == KindMap(vnodes, virt)
  {
  }

  lemma SameKids(c: Cache, virt: seq<VId>, c': Cache, virt': seq<VId>)
    requires forall d | d in virt :: Children(d) in c.rings
    requires forall d | d in virt' :: Children(d) in c'.rings
    requires forall d :: d in virt <==> d in virt'
    requires forall d | d in virt :: Kids(c, d) == Kids(c', d)
    ensures KidsMap(c, virt) == KidsMap(c', virt')
  {
  }

  /** The files at both ends of a mount. */
  ghost predicate SameEnds(s: State, t: State, m: MId)
    requires m in s.mounts
  {
    var x := s.mounts[m];
    && FileOf(t, x.covered) == FileOf(s, x.covered) && FileOf(t, x.beCovered) == FileOf(s, x.beCovered)
  }

  lemma SameMounts(s: State, t: State)
    requires s.mounts == t.mounts && forall m | m in s.mounts :: SameEnds(s, t, m)
    ensures MountMap(t) == MountMap(s)
  {
  }

  lemma ShrinkEnds(s: State, t: State, m: MId)
    requires Pool(s) && Hashed(s) && Pool(t) && Shrinks(s, t) && m in s.mounts && MountOk(s, m)
    ensures SameEnds(s, t, m)
  {
    assert Survives(s, t, s.mounts[m].covered) && Survives(s, t, s.mounts[m].beCovered);
  }

  lemma ShrinkMounts(s: State, t: State)
    requires Pool(s) && Hashed(s) && Mounted(s) && Pool(t) && Shrinks(s, t)
    ensures forall m | m in s.mounts :: SameEnds(s, t, m)
    ensures MountMap(t) == MountMap(s)
  {
    forall m | m in s.mounts ensures SameEnds(s, t, m) {
      assert MountOk(s, m);
      ShrinkEnds(s, t, m);
    }
    SameMounts(s, t);
  }

  /** If moreover no devfs directory lost anything, the namespace is the same. */
  lemma ShrinkNames(fs: Fs, s: State, t: State)
    requires Valid(fs, s) && Valid(fs, t) && Shrinks(s, t)
    requires forall d | d in s.virt :: d in t.virt
    requires forall d | d in s.virt :: Kids(s.cache, d) == Kids(t.cache, d)
    ensures NamesOf(t) == NamesOf(s)
  {
    ShrinkVirt(s, t);
    SameKids(s.cache, s.virt, t.cache, t.virt);
    ShrinkMounts(s, t);
  }

  // ----- VnodeFree of a vnode that is no end of a mount -----

  ghost predicate NoMountEnd(s: State, v: VId)
  {
    forall m | m in s.mounts :: s.mounts[m].covered != v && s.mounts[m].beCovered != v
  }

  lemma UnflaggedNoMountEnd(fs: Fs, s: State, v: VId)
    requires Valid(fs, s) && v in s.active && !s.vnodes[v].flagNew && !s.vnodes[v].flagOrigin
    ensures NoMountEnd(s, v)
  {
    forall m | m in s.mounts ensures s.mounts[m].covered != v && s.mounts[m].beCovered != v {
      assert MountOk(s, m);
    }
  }

  lemma FreeSurvives(s: State, v: VId, w: VId)
    requires Pool(s) && Live(s, v) && Live(FreeVnode(s, v), w)
    ensures w != v && Survives(s, FreeVnode(s, v), w)
  {
    FreeLists(s, v);
  }

  lemma FreeShrinks(fs: Fs, s: State, v: VId)
    requires Valid(fs, s) && Live(s, v) && NoMountEnd(s, v)
    ensures Pool(FreeVnode(s, v)) && Shrinks(s, FreeVnode(s, v))
  {
    var t := FreeVnode(s, v);
    FreePool(s, v);
    forall w | Live(t, w) ensures Survives(s, t, w) {
      FreeSurvives(s, v, w);
    }
    forall m | m in s.mounts ensures Live(t, s.mounts[m].covered) && Live(t, s.mounts[m].beCovered) {
      assert MountOk(s, m);
      FreeLists(s, v);
    }
  }

  lemma FreeValid(fs: Fs, s: State, v: VId)
    requires Valid(fs, s) && Live(s, v) && NoMountEnd(s, v)
    ensures Valid(fs, FreeVnode(s, v))
  {
    FreeShrinks(fs, s, v);
    FreeCached(s, v);
    FreeHashed(s, v);
    ShrinkValid(fs, s, FreeVnode(s, v));
  }

  lemma KidsKept(c: Cache, v: VId, d: VId)
    requires Consistent(c) && Children(d) in c.rings && d != v
    requires forall e | e in c.rings[Children(d)] :: e in c.entries && c.entries[e].child != v
    ensures var c' := Close(Drop(c, Touching(c, v)), v);
            Children(d) in c'.rings && Kids(c', d) == Kids(c, d)
  {
    var ring, es := c.rings[Children(d)], Touching(c, v);
    assert Holds(c, Children(d));
    assert forall e | e in ring :: e !in es;
    KeepNone(ring, es);
    var c' := Close(Drop(c, es), v);
    assert c'.rings[Children(d)] == ring;
    assert forall i | 0 <= i < |ring| :: ring[i] in ring;
  }

  /** A devfs directory keeps its child ring when a vnode of a file system is freed. */
  lemma FreeKeepsKids(fs: Fs, s: State, v: VId, d: VId)
    requires Valid(fs, s) && v in s.active && d in s.virt
    ensures Children(d) in FreeVnode(s, v).cache.rings
    ensures Kids(FreeVnode(s, v).cache, d) == Kids(s.cache, d)
  {
    var c := s.cache;
    assert Holds(c, Children(d));
    forall e | e in c.rings[Children(d)] ensures e in c.entries && c.entries[e].child != v {
      assert Agrees(fs, s, c.entries[e]);
    }
    KidsKept(c, v, d);
  }

  /** Freeing a vnode of a file system does not change what names mean. */
  lemma FreeNames(fs: Fs, s: State, v: VId)
    requires Valid(fs, s) && v in s.active && NoMountEnd(s, v)
    ensures Valid(fs, FreeVnode(s, v)) && NamesOf(FreeVnode(s, v)) == NamesOf(s)
  {
    FreeValid(fs, s, v);
    FreeShrinks(fs, s, v);
    FreeLists(s, v);
    forall d | d in s.virt
      ensures d in FreeVnode(s, v).virt && Kids(s.cache, d) == Kids(FreeVnode(s, v).cache, d)
    {
      FreeKeepsKids(fs, s, v, d);
    }
    ShrinkNames(fs, s, FreeVnode(s, v));
  }

  // ----- useCount and the LRU order -----

  function Pin(s: State, v: VId, k: int): State
    requires v in s.vnodes
  {
    s.(vnodes := s.vnodes[v := s.vnodes[v].(useCount := s.vnodes[v].useCount + k)])
  }

  lemma UpdateSize<K, V>(m: map<K, V>, k: K, v: V)
    requires k in m
    ensures |m[k := v]| == |m| && m[k := v].Keys == m.Keys
  {
    assert m[k := v].Keys == m.Keys;
    assert |m[k := v]| == |m[k := v].Keys| && |m| == |m.Keys|;
  }

  lemma PinPool(s: State, v: VId, k: int)
    requires Pool(s) && v in s.vnodes && v !in s.free && s.vnodes[v].useCount + k >= 0
    ensures Pool(Pin(s, v, k))
  {
    UpdateSize(s.vnodes, v, s.vnodes[v].(useCount := s.vnodes[v].useCount + k));
  }

  /** The lists keep the same vnodes, and these keep everything but their use counts. */
  ghost predicate SameLists(s: State, t: State)
  {
    && (forall v :: v in t.active <==> v in s.active) && t.virt == s.virt && t.hashed == s.hashed
    && t.cache == s.cache && t.mounts == s.mounts && t.vnodes.Keys == s.vnodes.Keys
    && (forall v | v in s.vnodes :: SameBut(s.vnodes[v], t.vnodes[v]))
  }

  lemma SameListsLive(s: State, t: State, v: VId)
    requires SameLists(s, t)
    ensures Live(t, v) <==> Live(s, v)
  {
  }

  lemma SameListsCached(s: State, t: State)
    requires Cached(s) && SameLists(s, t)
    ensures Cached(t)
  {
    hide Consistent;
    forall v ensures Live(t, v) <==> Live(s, v) {
      SameListsLive(s, t, v);
    }
  }

  lemma SameListsHashed(s: State, t: State)
    requires Pool(s) && Hashed(s) && SameLists(s, t)
    ensures Hashed(t)
  {
    assert forall v | v in s.hashed :: v in s.vnodes && SameBut(s.vnodes[v], t.vnodes[v]);
  }

  lemma SameListsSurvives(s: State, t: State, v: VId)
    requires Pool(s) && SameLists(s, t) && Live(s, v)
    ensures Survives(s, t, v)
  {
    assert v in s.vnodes;
  }

  lemma MountsLive(s: State, m: MId)
    requires Pool(s) && Hashed(s) && m in s.mounts && MountOk(s, m)
    ensures Live(s, s.mounts[m].covered) && Live(s, s.mounts[m].beCovered)
  {
  }

  lemma SameListsShrinks(fs: Fs, s: State, t: State)
    requires Valid(fs, s) && Pool(t) && SameLists(s, t)
    ensures Cached(t) && Hashed(t) && Shrinks(s, t)
  {
    SameListsCached(s, t);
    SameListsHashed(s, t);
    hide Pool, Cached, Hashed, Coherent, Live, Survives, MountOk;
    forall v ensures Live(t, v) <==> Live(s, v) {
      SameListsLive(s, t, v);
    }
    forall v | Live(t, v) ensures Survives(s, t, v) {
      SameListsSurvives(s, t, v);
    }
    forall m | m in s.mounts ensures Live(t, s.mounts[m].covered) && Live(t, s.mounts[m].beCovered) {
      assert MountOk(s, m);
      MountsLive(s, m);
    }
  }

  lemma SameListsValid(fs: Fs, s: State, t: State)
    requires Valid(fs, s) && Pool(t) && SameLists(s, t)
    ensures Valid(fs, t) && NamesOf(t) == NamesOf(s)
  {
    SameListsShrinks(fs, s, t);
    ShrinkValid(fs, s, t);
    ShrinkNames(fs, s, t);
  }

  /** Taking or dropping a reference leaves everything else as it is. */
  lemma PinValid(fs: Fs, s: State, v: VId, k: int)
    requires Valid(fs, s) && Live(s, v) && s.vnodes[v].useCount + k >= 0
    ensures Valid(fs, Pin(s, v, k)) && NamesOf(Pin(s, v, k)) == NamesOf(s)
  {
    LiveNotFree(s, v);
    PinPool(s, v, k);
    PinLists(s, v, k);
    hide Pool, Cached, Hashed, Coherent, Mounted, NamesOf, SameLists;
    SameListsValid(fs, s, Pin(s, v, k));
  }

  lemma LiveNotFree(s: State, v: VId)
    requires Pool(s) && Live(s, v)
    ensures v in s.vnodes && v !in s.free
  {
  }

  lemma PinLists(s: State, v: VId, k: int)
    requires v in s.vnodes
    ensures SameLists(s, Pin(s, v, k))
  {
    assert Pin(s, v, k).vnodes.Keys == s.vnodes.Keys;
  }

  /** RefreshLRU of an active vnode: it becomes the last of the active list. */
  function Refresh(s: State, v: VId): State
  {
    s.(active := Keep(s.active, {v}) + [v])
  }

  lemma RefreshPool(s: State, v: VId)
    requires Pool(s) && v in s.active
    ensures Pool(Refresh(s, v)) && SameLists(s, Refresh(s, v))
  {
    KeepMembers(s.active, {v});
    KeepNoDup(s.active, {v});
    AppendNoDup(Keep(s.active, {v}), v);
    SamePoolMembers(s, Refresh(s, v));
  }

  lemma AppendNoDup<T>(s: seq<T>, x: T)
    requires NoDup(s) && x !in s
    ensures NoDup(s + [x]) && forall y :: y in s + [x] <==> y in s || y == x
  {
  }

  lemma SamePoolMembers(s: State, t: State)
    requires Pool(s) && t == s.(active := t.active) && NoDup(t.active) && forall w :: w in t.active <==> w in s.active
    ensures Pool(t)
  {
  }

  lemma RefreshValid(fs: Fs, s: State, v: VId)
    requires Valid(fs, s) && v in s.active
    ensures Valid(fs, Refresh(s, v)) && NamesOf(Refresh(s, v)) == NamesOf(s)
  {
    RefreshPool(s, v);
    SameListsValid(fs, s, Refresh(s, v));
  }

  // ----- steps that change one vnode that stands for no file yet -----

  ghost predicate Untouched(s: State, t: State, w: VId)
  {
    && (w in s.virt <==> w in t.virt) && (w in s.hashed <==> w in t.hashed) && (Live(s, w) <==> Live(t, w))
    && (w in s.vnodes <==> w in t.vnodes) && (w in s.vnodes ==> s.vnodes[w] == t.vnodes[w])
  }

  /** `s` and `t` differ in the vnode `v` only, which no name leads to in `s`. */
  ghost predicate DifferIn(s: State, t: State, v: VId)
  {
    && !Named(s, v) && (forall w | w != v :: Untouched(s, t, w))
    && t.cache.entries == s.cache.entries && t.mounts == s.mounts
    && (v in t.vnodes ==> !t.vnodes[v].flagOrigin)
  }

  lemma DifferCoherent(fs: Fs, s: State, t: State, v: VId)
    requires Pool(s) && Hashed(s) && Coherent(fs, s) && Pool(t) && Hashed(t) && DifferIn(s, t, v)
    requires v in t.hashed ==> t.vnodes[v].kind == fs.kind(t.vnodes[v].origin.value, t.vnodes[v].hash)
    ensures Coherent(fs, t)
  {
    forall e | e in t.cache.entries ensures Agrees(fs, t, t.cache.entries[e]) {
      assert Agrees(fs, s, s.cache.entries[e]);
      assert Untouched(s, t, s.cache.entries[e].parent) && Untouched(s, t, s.cache.entries[e].child);
    }
    forall w | w in t.hashed && w != v
      ensures t.vnodes[w].kind == fs.kind(t.vnodes[w].origin.value, t.vnodes[w].hash)
    {
      assert Untouched(s, t, w);
    }
  }

  lemma DifferMounted(s: State, t: State, v: VId)
    requires Pool(s) && Hashed(s) && Mounted(s) && Pool(t) && Hashed(t) && DifferIn(s, t, v)
    ensures Mounted(t)
  {
    forall m | m in t.mounts ensures MountOk(t, m) {
      assert MountOk(s, m);
      assert Untouched(s, t, s.mounts[m].covered) && Untouched(s, t, s.mounts[m].beCovered);
    }
    forall w | Live(t, w) && t.vnodes[w].flagOrigin
      ensures var n := t.vnodes[w].newMount; n.Some? && n.value in t.mounts && t.mounts[n.value].beCovered == w
    {
      assert Untouched(s, t, w);
    }
  }

  lemma DifferValid(fs: Fs, s: State, t: State, v: VId)
    requires Valid(fs, s) && Pool(t) && Cached(t) && Hashed(t) && DifferIn(s, t, v)
    requires v in t.hashed ==> t.vnodes[v].kind == fs.kind(t.vnodes[v].origin.value, t.vnodes[v].hash)
    ensures Valid(fs, t)
  {
    DifferCoherent(fs, s, t, v);
    DifferMounted(s, t, v);
    hide Pool, Cached, Hashed, Coherent, Mounted, DifferIn;
  }

  lemma DifferMounts(fs: Fs, s: State, t: State, v: VId)
    requires Valid(fs, s) && DifferIn(s, t, v)
    ensures MountMap(t) == MountMap(s)
  {
    forall m | m in s.mounts ensures SameEnds(s, t, m) {
      assert MountOk(s, m);
      assert Untouched(s, t, s.mounts[m].covered) && Untouched(s, t, s.mounts[m].beCovered);
    }
    SameMounts(s, t);
  }

  lemma DifferVirt(s: State, t: State, v: VId)
    requires Pool(s) && Pool(t) && DifferIn(s, t, v) && v !in t.virt
    ensures forall d :: d in s.virt <==> d in t.virt
    ensures KindMap(t.vnodes, t.virt) == KindMap(s.vnodes, s.virt)
  {
    forall d ensures (d in s.virt <==> d in t.virt) && (d in s.virt ==> s.vnodes[d] == t.vnodes[d]) {
      if d != v { assert Untouched(s, t, d); }
    }
  }

  lemma DifferNames(fs: Fs, s: State, t: State, v: VId)
    requires Valid(fs, s) && Valid(fs, t) && DifferIn(s, t, v) && v !in t.virt
    requires forall d | d in s.virt ::
      Children(d) in t.cache.rings && t.cache.rings[Children(d)] == s.cache.rings[Children(d)]
    ensures NamesOf(t) == NamesOf(s)
  {
    DifferMounts(fs, s, t, v);
    DifferVirt(s, t, v);
    SameKids(s.cache, s.virt, t.cache, t.virt);
  }

  /** If the vnode is a new devfs vnode, the namespace grows by it. */
  lemma DifferGrows(fs: Fs, s: State, t: State, v: VId)
    requires Valid(fs, s) && Valid(fs, t) && DifferIn(s, t, v)
    requires v in t.virt && v in t.vnodes && t.vnodes[v].kind == Unknown && t.cache.rings[Children(v)] == []
    requires forall d | d in s.virt ::
      Children(d) in t.cache.rings && t.cache.rings[Children(d)] == s.cache.rings[Children(d)]
    ensures NamesOf(t) == Grown(NamesOf(s), v)
  {
    DifferMounts(fs, s, t, v);
    GrowsVirt(s, t, v);
    KindsGrow(s.vnodes, s.virt, t.vnodes, t.virt, v);
    KidsGrow(s.cache, s.virt, t.cache, t.virt, v);
  }

  lemma GrowsVirt(s: State, t: State, v: VId)
    requires Pool(s) && Pool(t) && DifferIn(s, t, v) && v in t.virt
    ensures forall d :: d in t.virt <==> d in s.virt || d == v
    ensures forall d | d in s.virt :: d != v && d in t.vnodes && d in s.vnodes && t.vnodes[d] == s.vnodes[d]
  {
    forall d | d != v ensures (d in s.virt <==> d in t.virt) && (d in s.virt ==> s.vnodes[d] == t.vnodes[d]) {
      assert Untouched(s, t, d);
    }
  }

  lemma KindsGrow(vnodes: map<VId, Vnode>, virt: seq<VId>, vnodes': map<VId, Vnode>, virt': seq<VId>, v: VId)
    requires (forall d | d in virt :: d in vnodes) && (forall d | d in virt' :: d in vnodes')
    requires forall d :: d in virt' <==> d in virt || d == v
    requires v in vnodes' && forall d | d in virt :: d != v && vnodes'[d] == vnodes[d]
    ensures KindMap(vnodes', virt') == KindMap(vnodes, virt)[v := vnodes'[v].kind]
  {
  }

  lemma KidsGrow(c: Cache, virt: seq<VId>, c': Cache, virt': seq<VId>, v: VId)
    requires (forall d | d in virt :: Children(d) in c.rings) && (forall d | d in virt' :: Children(d) in c'.rings)
    requires forall d :: d in virt' <==> d in virt || d == v
    requires c'.entries == c.entries && c'.rings[Children(v)] == []
    requires forall d | d in virt :: d != v && c'.rings[Children(d)] == c.rings[Children(d)]
    ensures KidsMap(c', virt') == KidsMap(c, virt)[v := []]
  {
    assert Kids(c', v) == [];
    assert forall d | d in virt :: Kids(c', d) == Kids(c, d);
  }
}
