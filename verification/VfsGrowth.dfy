/**
 The steps that add to the state: taking a vnode into use, giving it the identity of an inode
 and entering it in the vnode hash, and caching a name.
 */
module VfsGrowth {
  import opened Fnv
  import opened PathCache
  import opened VfsState
  import opened VfsNames
  import opened VfsSteps

  // ----- VnodeAlloc -----

  /** GetFromFreeList: the head of the free list is on no list any more. */
  function Detach(s: State): State
    requires s.free != []
  {
    s.(free := s.free[1..], freeSize := s.freeSize - 1)
  }

  /** The vnode `v` is initialised and put on the virtual list (`dev`) or last on the active list. */
  function Attach(s: State, v: VId, dev: bool): State
  {
    s.(vnodes := s.vnodes[v := BLANK.(dev := dev)],
       cache := Open(s.cache, v),
       active := if dev then s.active else s.active + [v],
       virt := if dev then [v] + s.virt else s.virt)
  }

  /** A vnode comes from the head of the free list (`recycled`), or is new memory and counted. */
  function Enter(s: State, v: VId, dev: bool, recycled: bool): State
    requires recycled ==> s.free != []
  {
    Attach(if recycled then Detach(s) else s.(total := s.total + 1), v, dev)
  }

  predicate MayEnter(s: State, v: VId, recycled: bool)
  {
    if recycled then s.free != [] && s.free[0] == v else v !in s.vnodes && s.total < MAX_VNODE_SIZE
  }

  lemma EnterSize(s: State, v: VId, dev: bool, recycled: bool)
    requires Pool(s) && MayEnter(s, v, recycled)
    ensures |Enter(s, v, dev, recycled).vnodes| == if recycled then |s.vnodes| else |s.vnodes| + 1
  {
    var m := s.vnodes[v := BLANK.(dev := dev)];
    assert m.Keys == s.vnodes.Keys + {v};
    assert |m| == |m.Keys|;
    if recycled {
      assert s.free[0] in s.free;
      assert m.Keys == s.vnodes.Keys;
    }
  }

  lemma EnterLists(s: State, v: VId, dev: bool, recycled: bool)
    requires Pool(s) && MayEnter(s, v, recycled)
    ensures !Live(s, v)
    ensures var t := Enter(s, v, dev, recycled);
            && NoDup(t.free) && NoDup(t.active) && NoDup(t.virt)
            && (forall w :: w in t.active <==> w in s.active || (w == v && !dev))
            && (forall w :: w in t.virt <==> w in s.virt || (w == v && dev))
            && (forall w :: w in t.free <==> w in s.free && w != v)
  {
    if recycled {
      assert s.free == [v] + s.free[1..];
      assert v in s.free && v !in s.free[1..];
    }
  }

  lemma EnterPool(s: State, v: VId, dev: bool, recycled: bool)
    requires Pool(s) && MayEnter(s, v, recycled)
    ensures Pool(Enter(s, v, dev, recycled))
  {
    EnterLists(s, v, dev, recycled);
    EnterSize(s, v, dev, recycled);
  }

  lemma EnterCached(s: State, v: VId, dev: bool, recycled: bool)
    requires Pool(s) && Cached(s) && Hashed(s) && MayEnter(s, v, recycled)
    ensures Cached(Enter(s, v, dev, recycled)) && Hashed(Enter(s, v, dev, recycled))
    ensures Touching(s.cache, v) == {} && v !in s.hashed
  {
    EnterLists(s, v, dev, recycled);
    assert Touching(s.cache, v) == {};
    OpenConsistent(s.cache, v);
    assert forall w :: Live(Enter(s, v, dev, recycled), w) <==> Live(s, w) || w == v;
  }

  lemma EnterDiffers(s: State, v: VId, dev: bool, recycled: bool)
    requires Pool(s) && Cached(s) && Hashed(s) && MayEnter(s, v, recycled)
    ensures DifferIn(s, Enter(s, v, dev, recycled), v)
  {
    EnterLists(s, v, dev, recycled);
    EnterCached(s, v, dev, recycled);
    var t := Enter(s, v, dev, recycled);
    forall w | w != v ensures Untouched(s, t, w) {
      assert Live(s, w) <==> Live(t, w);
    }
  }

  lemma EnterRings(s: State, v: VId, dev: bool, recycled: bool)
    requires Pool(s) && Cached(s) && Hashed(s) && MayEnter(s, v, recycled)
    ensures var t := Enter(s, v, dev, recycled);
            && (v in t.virt <==> dev) && v in t.vnodes && t.vnodes[v].kind == Unknown && v !in t.hashed
            && Children(v) in t.cache.rings && t.cache.rings[Children(v)] == []
            && forall d | d in s.virt :: Children(d) in t.cache.rings && t.cache.rings[Children(d)] == s.cache.rings[Children(d)]
  {
    EnterLists(s, v, dev, recycled);
    EnterCached(s, v, dev, recycled);
  }

  /** Taking a vnode into use keeps the invariants; a vnode of a file system changes no name. */
  lemma EnterValid(fs: Fs, s: State, v: VId, dev: bool, recycled: bool)
    requires Valid(fs, s) && MayEnter(s, v, recycled)
    ensures Valid(fs, Enter(s, v, dev, recycled))
    ensures NamesOf(Enter(s, v, dev, recycled)) == if dev then Grown(NamesOf(s), v) else NamesOf(s)
  {
    EnterPool(s, v, dev, recycled);
    EnterCached(s, v, dev, recycled);
    EnterDiffers(s, v, dev, recycled);
    EnterRings(s, v, dev, recycled);
    hide Pool, Cached, Hashed, Coherent, Mounted, DifferIn, NamesOf, Grown;
    DifferValid(fs, s, Enter(s, v, dev, recycled), v);
    if dev {
      DifferGrows(fs, s, Enter(s, v, dev, recycled), v);
    } else {
      DifferNames(fs, s, Enter(s, v, dev, recycled), v);
    }
  }

  // ----- a vnode becomes an inode of a mount: the file system's fields, then VfsHashInsert -----

  function Identify(s: State, v: VId, m: MId, ino: Word, kind: VType): State
    requires v in s.vnodes
  {
    s.(vnodes := s.vnodes[v := s.vnodes[v].(kind := kind, origin := Some(m), hash := ino)],
       hashed := [v] + s.hashed)
  }

  /** Nothing in the vnode hash stands for the inode. */
  predicate Absent(s: State, m: MId, ino: Word)
  {
    forall v | v in s.hashed && v in s.vnodes :: !(s.vnodes[v].origin == Some(m) && s.vnodes[v].hash == ino)
  }

  lemma IdentifyPool(s: State, v: VId, m: MId, ino: Word, kind: VType)
    requires Pool(s) && v in s.active
    ensures Pool(Identify(s, v, m, ino, kind))
  {
    UpdateSize(s.vnodes, v, s.vnodes[v].(kind := kind, origin := Some(m), hash := ino));
  }

  lemma IdentifyHashed(s: State, v: VId, m: MId, ino: Word, kind: VType)
    requires Pool(s) && Hashed(s) && v in s.active && v !in s.hashed && Absent(s, m, ino)
    ensures Hashed(Identify(s, v, m, ino, kind))
  {
    var t := Identify(s, v, m, ino, kind);
    assert NoDup(t.hashed);
    assert forall w :: w in t.hashed <==> w == v || w in s.hashed;
    assert forall w | w in s.hashed :: t.vnodes[w] == s.vnodes[w] && !SameInode(t.vnodes[w], t.vnodes[v]);
  }

  lemma IdentifyValid(fs: Fs, s: State, v: VId, m: MId, ino: Word)
    requires Valid(fs, s) && v in s.active && v !in s.hashed && Absent(s, m, ino) && !s.vnodes[v].flagOrigin
    ensures var t := Identify(s, v, m, ino, fs.kind(m, ino));
            Valid(fs, t) && NamesOf(t) == NamesOf(s) && FileOf(t, v) == Inode(m, ino)
  {
    var kind := fs.kind(m, ino);
    var t := Identify(s, v, m, ino, kind);
    IdentifyPool(s, v, m, ino, kind);
    IdentifyHashed(s, v, m, ino, kind);
    IdentifyDiffers(s, v, m, ino, kind);
    hide Pool, Cached, Hashed, Coherent, Mounted, DifferIn, NamesOf;
    DifferValid(fs, s, t, v);
    DifferNames(fs, s, t, v);
  }

  lemma IdentifyDiffers(s: State, v: VId, m: MId, ino: Word, kind: VType)
    requires Pool(s) && Cached(s) && v in s.active && v !in s.hashed && !s.vnodes[v].flagOrigin
    ensures var t := Identify(s, v, m, ino, kind);
            && Cached(t) && DifferIn(s, t, v) && v !in t.virt && FileOf(t, v) == Inode(m, ino) && t.vnodes[v].kind == kind
            && t.vnodes[v].origin == Some(m) && t.vnodes[v].hash == ino
            && forall d | d in s.virt ::
                 Children(d) in t.cache.rings && t.cache.rings[Children(d)] == s.cache.rings[Children(d)]
  {
    hide Consistent;
    var t := Identify(s, v, m, ino, kind);
    assert forall w :: Live(t, w) <==> Live(s, w);
    assert forall w :: w in t.hashed <==> w == v || w in s.hashed;
    assert forall w | w in s.virt :: Live(s, w);
  }

  // ----- PathCacheAlloc -----

  function CacheName(s: State, x: Entry): State
  {
    s.(cache := Insert(s.cache, x))
  }

  lemma CacheNameCached(s: State, x: Entry)
    requires Cached(s) && Live(s, x.parent) && Live(s, x.child)
    ensures Cached(CacheName(s, x))
  {
    InsertConsistent(s.cache, x);
  }

  lemma InsertKeepsKids(c: Cache, x: Entry, d: VId)
    requires Consistent(c) && Children(d) in c.rings && d != x.parent
    ensures Kids(Insert(c, x), d) == Kids(c, d)
  {
    assert Holds(c, Children(d));
    var ring := c.rings[Children(d)];
    assert forall i | 0 <= i < |ring| :: ring[i] in ring;
  }

  /** Any entry that agrees with the file systems may be cached; kinds and mounts stay. */
  lemma AgreedValid(fs: Fs, s: State, x: Entry)
    requires Valid(fs, s) && Live(s, x.parent) && Live(s, x.child) && Agrees(fs, s, x)
    ensures Valid(fs, CacheName(s, x)) && MountMap(CacheName(s, x)) == MountMap(s)
  {
    CacheNameCached(s, x);
    AgreedCoherent(fs, s, x);
    AgreedMounted(s, x);
    hide Pool, Hashed, Cached, Coherent, Mounted, MountMap;
    SamePools(s, CacheName(s, x));
  }

  lemma SamePools(s: State, t: State)
    requires Pool(s) && Hashed(s) && t == s.(cache := t.cache)
    ensures Pool(t) && Hashed(t)
  {
  }

  lemma AgreedCoherent(fs: Fs, s: State, x: Entry)
    requires Pool(s) && Hashed(s) && Coherent(fs, s) && Agrees(fs, s, x)
    requires Pool(CacheName(s, x)) && Hashed(CacheName(s, x))
    ensures Coherent(fs, CacheName(s, x))
  {
    var t := CacheName(s, x);
    forall e | e in t.cache.entries ensures Agrees(fs, t, t.cache.entries[e]) {
      assert Agrees(fs, s, if e == s.cache.serial then x else s.cache.entries[e]);
    }
  }

  lemma AgreedMounted(s: State, x: Entry)
    requires Pool(s) && Hashed(s) && Mounted(s) && Pool(CacheName(s, x)) && Hashed(CacheName(s, x))
    ensures Mounted(CacheName(s, x)) && MountMap(CacheName(s, x)) == MountMap(s)
  {
    var t := CacheName(s, x);
    forall m | m in t.mounts ensures MountOk(t, m) && SameEnds(s, t, m) {
      assert MountOk(s, m);
    }
    SameMounts(s, t);
    assert forall v :: Live(t, v) <==> Live(s, v);
  }

  lemma OtherKids(c: Cache, virt: seq<VId>, x: Entry)
    requires Consistent(c) && x.parent !in virt && forall d | d in virt :: Children(d) in c.rings
    ensures KidsMap(Insert(c, x), virt) == KidsMap(c, virt)
  {
    forall d | d in virt ensures Kids(c, d) == Kids(Insert(c, x), d) {
      InsertKeepsKids(c, x, d);
    }
    SameKids(c, virt, Insert(c, x), virt);
  }

  lemma HashedNotVirtual(fs: Fs, s: State, v: VId)
    requires Valid(fs, s) && v in s.hashed
    ensures v !in s.virt && Live(s, v)
  {
  }

  /** Caching what Lookup says keeps the cache coherent and changes no name. */
  lemma CacheNameValid(fs: Fs, s: State, x: Entry)
    requires Valid(fs, s) && x.parent in s.hashed && Agrees(fs, s, x)
    ensures Valid(fs, CacheName(s, x)) && NamesOf(CacheName(s, x)) == NamesOf(s)
  {
    HashedNotVirtual(fs, s, x.parent);
    HashedNotVirtual(fs, s, x.child);
    AgreedValid(fs, s, x);
    hide Pool, Hashed, Coherent, Mounted, MountMap, KidsMap, KindMap, Consistent;
    OtherKids(s.cache, s.virt, x);
  }
}
