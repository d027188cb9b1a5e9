/**
 The state of the vnode layer (`fs/vfs/vnode.c`): the free, active and virtual lists, the
 vnodes themselves, the path cache, the vnodes entered in the vnode hash, and the mounts.
 Here are the invariants of that state, and what freeing a vnode does to it.
 */
module VfsState {
  import opened Fnv
  import opened Lists
  import opened PathCache

  // a pointer to a mount
  type MId = nat

  const MAX_VNODE_SIZE: nat := 512

  datatype VType = Unknown | Reg | Dir | Blk | Chr | BChr | Fifo | Lnk

  /** `dev`: the vnode has the operations of devfs (`vop == &g_devfsOps`). */
  datatype Vnode = Vnode(kind: VType, useCount: int, hash: Word, dev: bool, origin: Option<MId>,
                         newMount: Option<MId>, flagNew: bool, flagOrigin: bool)

  /** A vnode after `memset`, as it lies on the free list. */
  const BLANK := Vnode(Unknown, 0, 0, false, None, None, false, false)

  datatype Mount = Mount(covered: VId, beCovered: VId)

  /** `lost` counts the failed `zalloc`s, which `g_totalVnodeSize` counts as vnodes. */
  datatype State = State(
    free: seq<VId>, active: seq<VId>, virt: seq<VId>, freeSize: int, total: int, lost: nat,
    vnodes: map<VId, Vnode>, cache: Cache, hashed: seq<VId>, mounts: map<MId, Mount>)

  predicate Live(s: State, v: VId)
  {
    v in s.active || v in s.virt
  }

  predicate NoDup<T(==)>(s: seq<T>)
  {
    forall i, j | 0 <= i < j < |s| :: s[i] != s[j]
  }

  /** Conservation: every vnode is on exactly one of the three lists, and the counters are right. */
  ghost predicate Pool(s: State)
  {
    && NoDup(s.free) && NoDup(s.active) && NoDup(s.virt)
    && (forall v :: v in s.vnodes <==> v in s.free || v in s.active || v in s.virt)
    && (forall v | v in s.free :: v !in s.active && v !in s.virt && s.vnodes[v] == BLANK)
    && (forall v | v in s.active :: v !in s.virt && !s.vnodes[v].dev)
    && (forall v | v in s.virt :: s.vnodes[v].dev)
    && (forall v | v in s.vnodes :: s.vnodes[v].useCount >= 0)
    && s.freeSize == |s.free| && s.total == |s.vnodes| + s.lost && s.total <= MAX_VNODE_SIZE
  }

  /** The path cache is consistent and has rings for the live vnodes and no others. */
  ghost predicate Cached(s: State)
  {
    && Consistent(s.cache)
    && (forall v :: Children(v) in s.cache.rings <==> Live(s, v))
    && (forall v :: Parents(v) in s.cache.rings <==> Live(s, v))
  }

  /** Hashed vnodes are active vnodes of a mount; no two of them stand for one inode. */
  ghost predicate Hashed(s: State)
  {
    && NoDup(s.hashed)
    && (forall v | v in s.hashed :: v in s.active && v in s.vnodes && s.vnodes[v].origin.Some?)
    && (forall v, w | v in s.hashed && w in s.hashed && SameInode(s.vnodes[v], s.vnodes[w]) :: v == w)
  }

  predicate SameInode(x: Vnode, y: Vnode)
  {
    x.origin == y.origin && x.hash == y.hash
  }

  /** Entries lead from live vnodes to live vnodes. */
  lemma EntriesLive(s: State, e: EId)
    requires Cached(s) && e in s.cache.entries
    ensures Live(s, s.cache.entries[e].parent) && Live(s, s.cache.entries[e].child)
  {
  }

  // ----- VnodeFree -----

  /** The state after VnodeFree has released the unused vnode `v`. */
  function FreeVnode(s: State, v: VId): State
    requires v in s.vnodes
  {
    var t := s.(cache := Close(Drop(s.cache, Touching(s.cache, v)), v),
                hashed := Keep(s.hashed, {v}), active := Keep(s.active, {v}), virt := Keep(s.virt, {v}));
    if s.vnodes[v].dev then
      t.(vnodes := s.vnodes - {v}, total := s.total - 1)
    else
      t.(vnodes := s.vnodes[v := BLANK], free := [v] + s.free, freeSize := s.freeSize + 1)
  }

  lemma FreeFields(s: State, v: VId)
    requires v in s.vnodes
    ensures var t := FreeVnode(s, v);
            && t.active == Keep(s.active, {v}) && t.virt == Keep(s.virt, {v}) && t.hashed == Keep(s.hashed, {v})
            && if s.vnodes[v].dev then
                 t.free == s.free && t.freeSize == s.freeSize && t.total == s.total - 1 && t.vnodes == s.vnodes - {v}
               else
                 && t.free == [v] + s.free && t.freeSize == s.freeSize + 1 && t.total == s.total
                 && t.vnodes == s.vnodes[v := Vnode(Unknown, 0, 0, false, None, None, false, false)]
    ensures forall e | e in s.cache.entries ::
              var x, t := s.cache.entries[e], FreeVnode(s, v);
              if x.parent == v || x.child == v then e !in t.cache.entries
              else e in t.cache.entries && t.cache.entries[e] == x
  {
  }

  lemma {:induction false} KeepNoDup<T>(s: seq<T>, drop: set<T>)
    requires NoDup(s)
    ensures NoDup(Keep(s, drop))
  {
    if s != [] {
      KeepNoDup(s[1..], drop);
      KeepMembers(s[1..], drop);
      assert s[0] !in s[1..];
      assert s[0] !in Keep(s[1..], drop);
    }
  }

  lemma FreeLists(s: State, v: VId)
    requires Pool(s) && Live(s, v)
    ensures var t := FreeVnode(s, v);
            && (forall w :: w in t.active <==> w in s.active && w != v)
            && (forall w :: w in t.virt <==> w in s.virt && w != v)
            && (forall w :: w in t.hashed <==> w in s.hashed && w != v)
            && (forall w :: w in t.free <==> w in s.free || (w == v && !s.vnodes[v].dev))
            && NoDup(t.active) && NoDup(t.virt) && NoDup(t.free)
  {
    KeepMembers(s.active, {v});
    KeepMembers(s.virt, {v});
    KeepMembers(s.hashed, {v});
    KeepNoDup(s.active, {v});
    KeepNoDup(s.virt, {v});
  }

  lemma FreePool(s: State, v: VId)
    requires Pool(s) && Live(s, v)
    ensures Pool(FreeVnode(s, v))
  {
    FreeLists(s, v);
    var t := FreeVnode(s, v);
    if s.vnodes[v].dev {
      assert |s.vnodes - {v}| == |s.vnodes| - 1 by {
        assert (s.vnodes - {v}).Keys == s.vnodes.Keys - {v};
      }
    } else {
      assert s.vnodes[v := BLANK].Keys == s.vnodes.Keys;
      assert |s.vnodes[v := BLANK]| == |s.vnodes.Keys|;
    }
  }

  lemma FreeCached(s: State, v: VId)
    requires Pool(s) && Cached(s) && Live(s, v)
    ensures Cached(FreeVnode(s, v))
    ensures Touching(FreeVnode(s, v).cache, v) == {}
  {
    FreeLists(s, v);
    ForgetConsistent(s.cache, v);
    assert forall w :: Live(FreeVnode(s, v), w) <==> Live(s, w) && w != v;
  }

  /** The cache forgets a vnode: its entries and its rings go, all else stays. */
  lemma ForgetConsistent(c: Cache, v: VId)
    requires Consistent(c)
    ensures var d := Close(Drop(c, Touching(c, v)), v);
            && Consistent(d) && Touching(d, v) == {}
            && forall r :: r in d.rings <==> r in c.rings && r != Children(v) && r != Parents(v)
  {
    DropConsistent(c, Touching(c, v));
    assert Touching(Drop(c, Touching(c, v)), v) == {};
    CloseConsistent(Drop(c, Touching(c, v)), v);
  }

  lemma FreeHashed(s: State, v: VId)
    requires Pool(s) && Hashed(s) && Live(s, v)
    ensures Hashed(FreeVnode(s, v)) && v !in FreeVnode(s, v).hashed
  {
    FreeLists(s, v);
    KeepNoDup(s.hashed, {v});
  }

  // ----- counting -----

  lemma {:induction false} NoDupSize<T>(s: seq<T>)
    requires NoDup(s)
    ensures |Elems(s)| == |s|
  {
    if s != [] {
      NoDupSize(s[1..]);
      assert s[0] !in s[1..];
      assert Elems(s) == Elems(s[1..]) + {s[0]} by {
        assert s == [s[0]] + s[1..];
      }
    }
  }

  /**
   The three lists together hold each vnode once.  So the repair branch of GetFromFreeList is dead,
   there are never more than MAX_VNODE_SIZE vnodes, and g_totalVnodeSize is their number exactly if
   no `zalloc` has failed.
   */
  lemma Conservation(s: State)
    requires Pool(s)
    ensures |s.free| + |s.active| + |s.virt| == |s.vnodes|
    ensures s.freeSize > 0 <==> s.free != []
    ensures |s.free| + |s.active| + |s.virt| <= s.total <= 512
    ensures s.total == |s.free| + |s.active| + |s.virt| + s.lost
    ensures forall v | v in s.vnodes ::
              (v in s.free && v !in s.active && v !in s.virt) || (v !in s.free && v in s.active && v !in s.virt)
              || (v !in s.free && v !in s.active && v in s.virt)
  {
    var a, b, c := Elems(s.free), Elems(s.active), Elems(s.virt);
    NoDupSize(s.free);
    NoDupSize(s.active);
    NoDupSize(s.virt);
    assert s.vnodes.Keys == a + b + c;
    assert a * b == {} && (a + b) * c == {};
    assert |a + b + c| == |a| + |b| + |c|;
    assert |s.vnodes| == |s.vnodes.Keys|;
  }
}
