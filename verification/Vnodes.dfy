/** The vnode layer itself (`fs/vfs/vnode.c`): its global lists and counters, and the operations on them. */
module Vnodes {
  import opened Fnv
  import opened Lists
  import opened PathCache
  import opened VfsState
  import opened VfsNames
  import opened VfsSteps
  import opened VfsGrowth
  import opened VfsReclaim
  import opened VfsWalk
  import opened VfsBudget
  import opened VfsLookup
  import opened VfsInodes
  import opened VfsTrail
  import Readdir
  import opened VfsLru
  import opened VfsUnmount
  import opened VfsBoot

  /** What the callers of the vnode layer may ask of it. */
  datatype Request =
    | Lookup(path: Path, start: VId, root: VId)
    | Alloc(dev: bool)
    | Free(vnode: VId)
    | FreeDev(vnode: VId)
    | TakeRef(vnode: VId)
    | DropRef(vnode: VId)
    | Create(parent: VId, name: Name)
    | SetType(vnode: VId, kind: VType)
    | Bind(mount: MId, ino: Word)
    | MountOver(mount: MId, point: VId, root: VId)
    | ClearCache
    | Umount(mount: MId)

  /** The name that begins at `n` ends before `end`: at a slash, or with the path. */
  predicate Ends(path: Path, n: nat, end: nat)
  {
    n < end <= |path| && (forall i | n <= i < end :: path[i] != 0x2f) && (end < |path| ==> path[end] == 0x2f)
  }

  /** NextName: where the next component begins, and its length in eight bits. */
  method NextName(path: Path, pos: nat) returns (name: Option<nat>, len: nat)
    requires pos <= |path|
    ensures name.None? <==> forall i | pos <= i < |path| :: path[i] == 0x2f
    ensures name.Some? ==>
              && pos <= name.value < |path| && path[name.value] != 0x2f
              && (forall i | pos <= i < name.value :: path[i] == 0x2f)
              && exists end: nat :: Ends(path, name.value, end) && len == (end - name.value) % 256
    ensures name.None? <==> Split(path[pos..]) == []
    ensures name.Some? ==> len == NameLen(path[name.value..]) % 256
  {
    hide Split, NameLen;
    var p := pos;
    while p < |path| && path[p] == SLASH
      invariant pos <= p <= |path| && forall i | pos <= i < p :: path[i] == SLASH
    {
      p := p + 1;
    }
    if p == |path| {
      OnlySlashes(path, pos);
      return None, 0;
    }
    name := Some(p);
    NameFound(path, pos, p);
    var q := p;
    while q < |path| && path[q] != SLASH
      invariant p <= q <= |path| && forall i | p <= i < q :: path[i] != SLASH
    {
      q := q + 1;
    }
    NameEndsAt(path, p, q);
    len := (q - p) % 256;
    assert Ends(path, p, q);
  }

  class VnodeLayer {
    const fs: Fs
    // the answers of zalloc, one after the other
    const memory: nat -> bool
    var zallocs: nat

    var free: seq<VId>
    var active: seq<VId>
    var virt: seq<VId>
    var freeSize: int
    var total: int
    ghost var lost: nat
    var vnodes: map<VId, Vnode>
    var cache: Cache
    var hashed: seq<VId>
    var mounts: map<MId, Mount>
    // the vnodes put last on the active list, one after the other
    ghost var touches: seq<VId>

    ghost function St(): State
      reads this
    {
      State(free, active, virt, freeSize, total, lost, vnodes, cache, hashed, mounts)
    }

    ghost predicate Inv()
      reads this
    {
      Valid(fs, St()) && Ordered(active, touches)
    }

    constructor (fs: Fs, memory: nat -> bool, cache: Cache)
      requires Consistent(cache) && cache.entries == map[] && forall r | r in cache.rings :: r.Bucket?
      ensures Inv() && this.fs == fs && this.memory == memory
      ensures free == active == virt == hashed == [] && vnodes == map[] && mounts == map[]
      ensures total == zallocs == 0 && touches == []
    {
      this.fs, this.memory, this.cache := fs, memory, cache;
      zallocs, freeSize, total, lost := 0, 0, 0, 0;
      free, active, virt, hashed := [], [], [], [];
      vnodes, mounts, touches := map[], map[], [];
    }

    /** GetFromFreeList */
    method GetFromFreeList() returns (vnode: Option<VId>)
      modifies this`free, this`freeSize
      ensures old(freeSize) <= 0 ==> vnode == None && St() == old(St())
      ensures old(freeSize) > 0 && old(free) == [] ==> vnode == None && St() == old(St()).(freeSize := 0)
      ensures old(freeSize) > 0 && old(free) != [] ==> vnode == Some(old(free)[0]) && St() == Detach(old(St()))
    {
      if freeSize <= 0 {
        return None;
      }
      if free == [] {
        freeSize := 0;
        return None;
      }
      vnode := Some(free[0]);
      free := free[1..];
      freeSize := freeSize - 1;
    }

    /** VnodeFree of a vnode (nothing happens for a NULL pointer). */
    method VnodeFree(vnode: Option<VId>) returns (code: Code)
      requires vnode.Some? ==> vnode.value in vnodes
      modifies this`free, this`freeSize, this`total, this`vnodes, this`cache, this`hashed, this`active, this`virt
      ensures vnode.None? ==> code == OK && St() == old(St())
      ensures vnode.Some? && old(vnodes)[vnode.value].useCount > 0 ==> code == EBUSY && St() == old(St())
      ensures vnode.Some? && old(vnodes)[vnode.value].useCount <= 0 ==>
                code == OK && St() == FreeVnode(old(St()), vnode.value)
      ensures vnode.Some? && old(vnodes)[vnode.value].useCount <= 0 ==>
                var v := vnode.value;
                && active == Keep(old(active), {v}) && virt == Keep(old(virt), {v}) && hashed == Keep(old(hashed), {v})
                && if old(vnodes)[v].dev then
                     free == old(free) && freeSize == old(freeSize) && total == old(total) - 1 && vnodes == old(vnodes) - {v}
                   else
                     && free == [v] + old(free) && freeSize == old(freeSize) + 1 && total == old(total)
                     && vnodes == old(vnodes)[v := Vnode(Unknown, 0, 0, false, None, None, false, false)]
      ensures vnode.Some? && old(vnodes)[vnode.value].useCount <= 0 ==>
                forall e | e in old(cache).entries ::
                  var x := old(cache).entries[e];
                  if x.parent == vnode.value || x.child == vnode.value then e !in cache.entries
                  else e in cache.entries && cache.entries[e] == x
    {
      hide FreeVnode, Keep;
      if vnode.None? {
        return OK;
      }
      var v := vnode.value;
      if vnodes[v].useCount > 0 {
        return EBUSY;
      }
      FreeFields(St(), v);
      Release(v);
      code := OK;
    }

    /** The end of VnodeFree: the vnode leaves all lists and is cleared. */
    method Release(v: VId)
      requires v in vnodes
      modifies this`free, this`freeSize, this`total, this`vnodes, this`cache, this`hashed, this`active, this`virt
      ensures St() == FreeVnode(old(St()), v)
    {
      hide Drop, Touching, Close, Keep;
      cache := Drop(cache, Touching(cache, v));
      hashed := Keep(hashed, {v});
      active := Keep(active, {v});
      virt := Keep(virt, {v});
      cache := Close(cache, v);
      if vnodes[v].dev {
        vnodes := vnodes - {v};
        total := total - 1;
      } else {
        vnodes := vnodes[v := BLANK];
        free := [v] + free;
        freeSize := freeSize + 1;
      }
    }

    /**
     One round of the SAFE traversal of the active list: the current item, at position `k`, is
     stepped over, or freed if it is not in use.
     */
    method SweepOne(k: nat, skip: bool, ghost p: Purpose, ghost s: State, ghost i: nat) returns (next: nat, code: Code)
      requires Pool(s) && i < |s.active| && St() == FreeMany(s, Passed(p, s, i))
      requires active == Left(s.active, i, All(p, s)) && k == |Keep(s.active[..i], All(p, s))|
      requires s.active[i] in s.vnodes && (!skip && s.vnodes[s.active[i]].useCount <= 0 <==> Frees(p, s.vnodes[s.active[i]]))
      modifies this`free, this`freeSize, this`total, this`vnodes, this`cache, this`hashed, this`active, this`virt
      ensures St() == FreeMany(s, Passed(p, s, i + 1)) && active == Left(s.active, i + 1, All(p, s))
      ensures next == |Keep(s.active[..i + 1], All(p, s))|
      ensures code == if skip || Frees(p, s.vnodes[s.active[i]]) then OK else EBUSY
      ensures |Passed(p, s, i + 1)| == |Passed(p, s, i)| + if Frees(p, s.vnodes[s.active[i]]) then 1 else 0
    {
      SweepRound(p, s, i, St());
      if skip {
        return k + 1, OK;
      }
      code := VnodeFree(Some(active[k]));
      next := if code == OK then k else k + 1;
    }

    /**
     The SAFE traversal of the active list in VnodeReclaimLru: `k` is the position of the current
     item, which its successor inherits when the item is freed.
     */
    method Sweep() returns (released: nat)
      requires Valid(fs, St())
      modifies this`free, this`freeSize, this`total, this`vnodes, this`cache, this`hashed, this`active, this`virt
      ensures St() == FreeMany(old(St()), Victims(old(St()))) && released == |Victims(old(St()))|
    {
      hide Keep, Chosen, FreeMany, Cached, Hashed, Coherent, Mounted, Left, All;
      ghost var s, i: nat := St(), 0;
      FreeManyNone(Reclaim, s);
      var k := 0;
      released := 0;
      LeftEnds(s.active, All(Reclaim, s));
      while k < |active| && released < VNODE_LRU_COUNT
        invariant i <= |s.active| && St() == FreeMany(s, Passed(Reclaim, s, i))
        invariant active == Left(s.active, i, All(Reclaim, s)) && k == |Keep(s.active[..i], All(Reclaim, s))|
        invariant released == |Passed(Reclaim, s, i)| <= VNODE_LRU_COUNT
        decreases |s.active| - i
      {
        LeftMore(s.active, i, All(Reclaim, s));
        SweepRound(Reclaim, s, i, St());
        var x := vnodes[active[k]];
        var skip := x.useCount > 0 || x.flagOrigin || x.flagNew;
        var code;
        k, code := SweepOne(k, skip, Reclaim, s, i);
        if !skip && code == OK {
          released := released + 1;
        }
        i := i + 1;
      }
      ReclaimEnd(s, i);
    }

    /** VnodeReclaimLru */
    method VnodeReclaimLru() returns (vnode: Option<VId>)
      requires Inv()
      modifies this
      ensures var vs := Victims(old(St()));
              if vs == [] then vnode == None && St() == old(St())
              else var u := FreeMany(old(St()), vs);
                   u.free != [] && vnode == Some(u.free[0]) && St() == Detach(u)
      ensures touches == old(touches) && zallocs == old(zallocs)
    {
      hide Valid, FreeMany, Victims;
      ghost var s := St();
      ReclaimLeaves(fs, s);
      var released := Sweep();
      if released == 0 {
        return None;
      }
      vnode := GetFromFreeList();
    }

    /** VnodeClearCache: every eligible vnode is freed, and no name changes its meaning. */
    method VnodeClearCache() returns (count: nat)
      requires Inv()
      modifies this
      ensures St() == FreeMany(old(St()), Chosen(Reclaim, old(active), old(vnodes)))
      ensures count == |Chosen(Reclaim, old(active), old(vnodes))|
      ensures Inv() && NamesOf(St()) == NamesOf(old(St())) && touches == old(touches)
      ensures forall v | v in active && v in vnodes :: vnodes[v].useCount > 0 || vnodes[v].flagOrigin || vnodes[v].flagNew
    {
      hide Keep, Chosen, FreeMany, Cached, Hashed, Coherent, Mounted, Left, All, NamesOf, Ordered;
      ghost var s, i: nat := St(), 0;
      FreeManyNone(Reclaim, s);
      var k := 0;
      count := 0;
      LeftEnds(s.active, All(Reclaim, s));
      while k < |active|
        invariant i <= |s.active| && St() == FreeMany(s, Passed(Reclaim, s, i)) && touches == old(touches)
        invariant active == Left(s.active, i, All(Reclaim, s)) && k == |Keep(s.active[..i], All(Reclaim, s))|
        invariant count == |Passed(Reclaim, s, i)|
        decreases |s.active| - i
      {
        LeftMore(s.active, i, All(Reclaim, s));
        SweepRound(Reclaim, s, i, St());
        var x := vnodes[active[k]];
        var skip := x.useCount > 0 || x.flagOrigin || x.flagNew;
        var code;
        k, code := SweepOne(k, skip, Reclaim, s, i);
        if !skip && code == OK {
          count := count + 1;
        }
        i := i + 1;
      }
      SweepDone(Reclaim, s, i);
      PassedPrefix(Reclaim, s, i);
      ClearLeaves(fs, s, touches);
    }

    /** `zalloc` of a vnode: an address not in use, or NULL; it is counted in both cases. */
    method NewMemory() returns (vnode: Option<VId>)
      requires |vnodes| < 0x1_0000_0000
      modifies this`zallocs, this`total, this`lost
      ensures zallocs == old(zallocs) + 1
      ensures memory(old(zallocs)) ==>
                vnode.Some? && vnode.value !in vnodes && St() == old(St()).(total := old(total) + 1)
      ensures !memory(old(zallocs)) ==>
                vnode.None? && St() == old(St()).(total := old(total) + 1, lost := old(lost) + 1)
    {
      if memory(zallocs) {
        FreshAddress(vnodes);
        var v: VId :| v !in vnodes;
        vnode := Some(v);
      } else {
        vnode := None;
        lost := lost + 1;
      }
      zallocs := zallocs + 1;
      total := total + 1;
    }

    /** The three sources of a vnode: the free list, new memory, reclaim. */
    method Obtain() returns (vnode: Option<VId>)
      requires Inv()
      modifies this
      ensures Obtained(old(St()), St(), vnode, memory(old(zallocs)))
      ensures zallocs == old(zallocs) + if old(free) == [] && old(total) < MAX_VNODE_SIZE then 1 else 0
      ensures touches == old(touches)
    {
      hide Valid, Ordered, FreeMany, Victims;
      ValidCounts(fs, St());
      vnode := GetFromFreeList();
      if vnode.None? && total < MAX_VNODE_SIZE {
        vnode := NewMemory();
      }
      if vnode.None? {
        MissedValid(fs, old(St()));
        vnode := VnodeReclaimLru();
      }
    }

    /** VnodeAlloc; `dev` stands for a NULL `vop`, which makes a devfs vnode. */
    method VnodeAlloc(dev: bool) returns (code: Code, newVnode: Option<VId>)
      requires Inv()
      modifies this
      ensures Allocates(old(St()), St(), newVnode, dev, memory(old(zallocs)))
      ensures code == if newVnode.Some? then OK else ENOMEM
      ensures Inv() && (newVnode.Some? ==> GotVnode(fs, old(St()), St(), newVnode.value))
      ensures newVnode.None? <==> Exhausted(old(St())) && (old(total) == MAX_VNODE_SIZE || !memory(old(zallocs)))
      ensures newVnode.None? ==> St() == Missed(old(St()))
      ensures newVnode.Some? ==> (newVnode.value in virt <==> dev)
      ensures NamesOf(St()) == if dev && newVnode.Some? then Grown(NamesOf(old(St())), newVnode.value) else NamesOf(old(St()))
      ensures touches == if newVnode.Some? && !dev then old(touches) + [newVnode.value] else old(touches)
      ensures zallocs == old(zallocs) + if old(free) == [] && old(total) < MAX_VNODE_SIZE then 1 else 0
      ensures newVnode.None? <==>
              old(free) == [] && old(Reclaimable()) == {} && (old(total) == 512 || !memory(old(zallocs)))
      ensures old(free) != [] ==> newVnode == Some(old(free)[0]) && free == old(free)[1..] && total == old(total)
      ensures old(free) == [] && old(total) < 512 && memory(old(zallocs)) ==>
                newVnode.Some? && newVnode.value !in old(vnodes) && total == old(total) + 1
      ensures newVnode.Some? ==>
                var v := newVnode.value;
                && v in vnodes && vnodes[v] == Vnode(Unknown, 0, 0, dev, None, None, false, false)
                && if dev then v in virt else active != [] && active[|active| - 1] == v
    {
      hide Valid, Allocates, Obtained, GotVnode, NamesOf, Exhausted, Missed, Grown, Ordered, Attach;
      AllocOutcomes(old(St()), dev, memory(zallocs));
      newVnode := Obtain();
      ObtainedValid(fs, old(St()), St(), newVnode, dev, memory(old(zallocs)), touches);
      if newVnode.None? {
        return ENOMEM, None;
      }
      Initialise(newVnode.value, dev);
      code := OK;
    }

    /** What the outcomes of an allocation have in common. */
    lemma AllocOutcomes(s: State, dev: bool, memory: bool)
      requires s == St()
      ensures Exhausted(s) <==> free == [] && Reclaimable() == {}
      ensures forall t, r {:trigger Allocates(s, t, r, dev, memory)} | Allocates(s, t, r, dev, memory) ::
                && (free != [] ==> r == Some(free[0]) && t.free == free[1..] && t.total == total)
                && (free == [] && total < 512 && memory ==> r.Some? && r.value !in vnodes && t.total == total + 1)
                && (r.Some? ==> && r.value in t.vnodes
                                && t.vnodes[r.value] == Vnode(Unknown, 0, 0, dev, None, None, false, false)
                                && if dev then r.value in t.virt
                                   else t.active != [] && t.active[|t.active| - 1] == r.value)
    {
      hide FreeMany, Victims;
      assert Exhausted(s) <==> free == [] && Reclaimable() == {} by {
        if Exhausted(s) {
          assert forall v :: v !in Reclaimable();
        }
        assert forall v | v in active && v in vnodes && Eligible(vnodes[v]) :: v in Reclaimable();
      }
    }

    /** The end of VnodeAlloc: the vnode is initialised and put on its list. */
    method Initialise(v: VId, dev: bool)
      modifies this`vnodes, this`cache, this`virt, this`active, this`touches
      ensures St() == Attach(old(St()), v, dev) && active == (if dev then old(active) else old(active) + [v])
      ensures touches == if dev then old(touches) else old(touches) + [v]
    {
      vnodes := vnodes[v := BLANK.(dev := dev)];
      cache := Open(cache, v);
      if dev {
        virt := [v] + virt;
      } else {
        active := active + [v];
        touches := touches + [v];
      }
    }

    /** VfsHashGet without a comparison function, on the vnodes in the order of their insertion. */
    method VfsHashGet(m: MId, ino: Word) returns (vnode: Option<VId>)
      ensures vnode == FirstInode(hashed, vnodes, m, ino)
    {
      var i := 0;
      assert hashed[0..] == hashed;
      while i < |hashed|
        invariant i <= |hashed| && FirstInode(hashed, vnodes, m, ino) == FirstInode(hashed[i..], vnodes, m, ino)
      {
        assert hashed[i..][1..] == hashed[i + 1..];
        var v := hashed[i];
        if v in vnodes && vnodes[v].hash == ino && vnodes[v].origin == Some(m) {
          return Some(v);
        }
        i := i + 1;
      }
      vnode := None;
    }

    /**
     The Lookup of a file system (VfsJffs2Lookup): an inode that has a vnode in the hash is
     found there, any other gets a new vnode, for which others may have to be reclaimed.
     */
    method FsLookup(parent: VId, name: Name) returns (code: Code, vnode: Option<VId>, ghost isNew: bool)
      requires Inv() && parent in hashed
      modifies this
      ensures Inv() && NamesOf(St()) == NamesOf(old(St())) && KeepsPinned(old(St()), St()) && zallocs >= old(zallocs)
      ensures LookedUp(fs, old(St()), St(), parent, name, memory(old(zallocs)), code, vnode)
      ensures code == OK <==> vnode.Some?
      ensures vnode.Some? ==> (isNew <==> Needs(old(St()), FileOf(St(), vnode.value)))
      ensures touches == if vnode.Some? && isNew then old(touches) + [vnode.value] else old(touches)
    {
      hide Valid, NamesOf, GotVnode, Ordered, Missed, KeepsPinned, Needs, Exhausted, Identify, Allocates;
      ghost var s := St();
      isNew := false;
      NothingTouched(s);
      HashedFile(fs, s, parent);
      var m := vnodes[parent].origin.value;
      match fs.lookup(m, vnodes[parent].hash, name)
      case None =>
        return ENOENT, None, false;
      case Some(ino) =>
        vnode := VfsHashGet(m, ino);
        InodeNeeds(fs, s, m, ino);
        if vnode.Some? {
          InodeHit(fs, s, vnode.value, m, ino);
          return OK, vnode, false;
        }
        isNew := true;
        code, vnode := VnodeAlloc(false);
        ghost var mid := St();
        if vnode.None? {
          MissedPinned(fs, s);
          return;
        }
        var v := vnode.value;
        GotActive(fs, s, mid, v);
        InodeMiss(fs, s, mid, v, m, ino);
        ghost var u := Identify(mid, v, m, ino, fs.kind(m, ino));
        MadeFrom(fs, s, mid, u, v, m, ino, memory(old(zallocs)));
        Fill(v, m, ino);
        assert St() == u;
    }

    /** The file system fills the vnode in and enters it in the vnode hash. */
    method Fill(v: VId, m: MId, ino: Word)
      requires v in vnodes
      modifies this`vnodes, this`hashed
      ensures v in old(vnodes) && St() == Identify(old(St()), v, m, ino, fs.kind(m, ino))
    {
      vnodes := vnodes[v := vnodes[v].(kind := fs.kind(m, ino), origin := Some(m))];
      VfsHashInsert(v, ino);
    }

    /** VfsHashInsert, which also notes the hash in the vnode. */
    method VfsHashInsert(v: VId, hash: Word)
      requires v in vnodes
      modifies this`vnodes, this`hashed
      ensures St() == old(St()).(vnodes := old(vnodes)[v := old(vnodes)[v].(hash := hash)], hashed := [v] + old(hashed))
    {
      vnodes := vnodes[v := vnodes[v].(hash := hash)];
      hashed := [v] + hashed;
    }

    // ----- looking up paths -----

    /** PathCacheLookup: the first entry for the name along its hash bucket. */
    method PathCacheLookup(parent: VId, name: Name) returns (child: Option<VId>)
      requires Inv() && Named(St(), parent)
      ensures Children(parent) in cache.rings
      ensures var found := Find(cache.entries, cache.rings[Children(parent)], parent, name);
              child == if found.Some? && found.value in cache.entries then Some(cache.entries[found.value].child) else None
    {
      NamedLive(fs, St(), parent);
      BucketAgreesWithDirectory(cache, parent, name);
      var found := Find(cache.entries, cache.rings[Bucket(cache.hash(name, parent))], parent, name);
      child := if found.Some? && found.value in cache.entries then Some(cache.entries[found.value].child) else None;
    }

    /** ConvertVnodeIfMounted */
    method ConvertVnodeIfMounted(vnode: Option<VId>) returns (root: Option<VId>)
      requires Inv() && (vnode.Some? ==> Named(St(), vnode.value))
      ensures vnode.None? ==> root.None?
      ensures vnode.Some? ==> root.Some? && Named(St(), root.value)
                              && FileOf(St(), root.value) == Cross(NamesOf(St()), FileOf(St(), vnode.value))
      ensures vnode.Some? && vnode.value in vnodes && !vnodes[vnode.value].flagOrigin ==> root == vnode
    {
      hide Valid, NamesOf, Cross;
      if vnode.None? {
        return None;
      }
      NamedLive(fs, St(), vnode.value);
      ConvertCrosses(fs, St(), vnode.value);
      FlaggedMount(fs, St(), vnode.value);
      var x := vnodes[vnode.value];
      if !x.flagOrigin {
        return vnode;
      }
      root := Some(mounts[x.newMount.value].covered);
    }

    /** RefreshLRU */
    method RefreshLRU(vnode: Option<VId>)
      requires Inv() && (vnode.Some? ==> Named(St(), vnode.value))
      modifies this`active, this`touches
      ensures Inv() && St() == if vnode.Some? then Refreshed(old(St()), vnode.value) else old(St())
      ensures NamesOf(St()) == NamesOf(old(St()))
      ensures touches == if vnode.Some? && vnode.value in old(vnodes) && Refreshes(old(vnodes)[vnode.value])
                         then old(touches) + [vnode.value] else old(touches)
      ensures if vnode.Some? && vnode.value in old(vnodes) && !old(vnodes)[vnode.value].dev
                 && (old(vnodes)[vnode.value].kind == Reg || old(vnodes)[vnode.value].kind == Dir)
              then active == Keep(old(active), {vnode.value}) + [vnode.value]
              else active == old(active)
    {
      hide Valid, NamesOf, Keep, Ordered, FileOf;
      if vnode.None? {
        return;
      }
      var v := vnode.value;
      RefreshedValid(fs, St(), v);
      if !Refreshes(vnodes[v]) {
        return;
      }
      OrderedKeep(active, {v}, touches);
      KeepMembers(active, {v});
      OrderedTouch(Keep(active, {v}), v, touches);
      active := Keep(active, {v}) + [v];
      touches := touches + [v];
    }

    /** PathCacheAlloc; nobody cares whether it finds memory. */
    method PathCacheAlloc(parent: VId, child: VId, name: Name)
      modifies this`cache, this`zallocs
      ensures zallocs == old(zallocs) + 1
      ensures cache == if memory(old(zallocs)) then Insert(old(cache), Entry(parent, child, name)) else old(cache)
    {
      if memory(zallocs) {
        cache := Insert(cache, Entry(parent, child, name));
      }
      zallocs := zallocs + 1;
    }

    /**
     The middle part of Step: the directory `cur` is held while its Lookup runs.  VnodeDevLookup
     finds nothing.
     */
    method LookupHeld(cur: VId, name: Name) returns (code: Code, next: Option<VId>, ghost isNew: bool)
      requires Inv() && Named(St(), cur)
      modifies this
      ensures Inv() && NamesOf(St()) == NamesOf(old(St())) && zallocs >= old(zallocs)
      ensures Named(St(), cur) && FileOf(St(), cur) == FileOf(old(St()), cur)
      ensures cur in old(virt) ==> code == ENOENT && next == None
      ensures cur !in old(virt) ==>
                cur in hashed && Answered(fs, old(St()), St(), cur, name, memory(old(zallocs)), code, next)
      ensures code == OK <==> next.Some?
      ensures next.Some? ==> next.value in hashed && (isNew <==> Needs(old(St()), FileOf(St(), next.value)))
      ensures touches == if next.Some? && isNew then old(touches) + [next.value] else old(touches)
      ensures KeepsPinned(old(St()), St())
    {
      hide Valid, NamesOf, Child, Exhausted, Missed, KeepsPinned, Ordered, LookedUp, Answered, Needs, Known, Intact;
      ghost var s := St();
      NamedLive(fs, s, cur);
      HoldDirectory(fs, s, cur);
      vnodes := vnodes[cur := vnodes[cur].(useCount := vnodes[cur].useCount + 1)];
      ghost var p := St();
      assert p == Pin(s, cur, 1);
      if vnodes[cur].dev {
        code, next, isNew := ENOENT, None, false;
        NothingTouched(p);
      } else {
        code, next, isNew := FsLookup(cur, name);
      }
      ghost var t := St();
      DirectoryKept(fs, s, p, t, cur);
      vnodes := vnodes[cur := vnodes[cur].(useCount := vnodes[cur].useCount - 1)];
      assert St() == Pin(t, cur, -1);
      if !s.vnodes[cur].dev {
        HeldAnswer(fs, s, t, cur, name, memory(old(zallocs)), code, next);
        if next.Some? {
          HeldNeeds(s, t, cur, next.value);
        }
      }
    }

    /**
     A component is looked up in the directory `cur`, in the cache first.  The outcome is what
     the namespace says, unless the child needs a vnode and none is to be had.
     */
    method Resolve(cur: VId, name: Name) returns (code: Code, next: Option<VId>, ghost isNew: bool)
      requires Inv() && Named(St(), cur)
      modifies this
      ensures Inv() && NamesOf(St()) == NamesOf(old(St())) && zallocs >= old(zallocs)
      ensures Named(St(), cur) && FileOf(St(), cur) == FileOf(old(St()), cur)
      ensures Answered(fs, old(St()), St(), cur, name, memory(old(zallocs)), code, next)
      ensures next.Some? ==> (isNew <==> Needs(old(St()), FileOf(St(), next.value)))
      ensures touches == if next.Some? && isNew then old(touches) + [next.value] else old(touches)
      ensures KeepsPinned(old(St()), St())
    {
      hide Valid, NamesOf, KeepsPinned, Ordered, Answered, Needs, Child;
      NothingTouched(St());
      ghost var s := St();
      isNew := false;
      CacheAnswers(fs, s, cur, name, memory(zallocs));
      next := PathCacheLookup(cur, name);
      if next.Some? {
        return OK, next, false;
      }
      code, next, isNew := LookupHeld(cur, name);
      if cur in s.virt {
        AnsweredMiss(fs, s, s, St(), cur, name, memory(old(zallocs)));
      }
      if code == OK {
        ghost var t := St();
        AnsweredChild(fs, s, t, cur, name, memory(old(zallocs)), next.value);
        LookedUpAgrees(fs, t, cur, next.value, name);
        PathCacheAlloc(cur, next.value, name);
        StillKeeps(s, t, St());
        AnsweredStill(fs, s, t, St(), cur, name, memory(old(zallocs)), code, next);
      }
    }

    /** The end of Step: on to what was found, across a mount if one is there. */
    method Advance(cur: VId, name: Name) returns (code: Code, next: VId, ghost isNew: bool)
      requires Inv() && Named(St(), cur)
      modifies this
      ensures Inv() && NamesOf(St()) == NamesOf(old(St())) && zallocs >= old(zallocs)
      ensures Moved(fs, old(St()), St(), cur, name, memory(old(zallocs)), code, next) && Named(St(), next)
      ensures KeepsPinned(old(St()), St())
      ensures touches == old(touches) + if code == OK then Marks(fs, Reached(next, FileOf(St(), next), isNew)) else []
    {
      hide Valid, NamesOf, Child, Starves, Needs, Cross, Ordered, KeepsPinned, BudgetMoves;
      ghost var s := St();
      var found;
      code, found, isNew := Resolve(cur, name);
      ghost var child := found;
      found := ConvertVnodeIfMounted(found);
      ghost var t := St();
      if found.Some? {
        RefreshedValid(fs, t, found.value);
        RefreshesInLru(fs, t, found.value);
        StillKeeps(s, t, Refreshed(t, found.value));
        if code == OK {
          RefreshedMoves(fs, s, t, found.value, FileOf(t, child.value), memory(old(zallocs)));
        }
      }
      RefreshLRU(found);
      next := if code == OK then found.value else cur;
    }

    /**
     Step (without the flags for creating devfs vnodes): `at` is the new position in the path,
     None for the NULL that marks a path that ends in slashes.
     */
    method Step(path: Path, pos: nat, cur: VId) returns (code: Code, at: Option<nat>, next: VId, ghost isNew: bool)
      requires Inv() && Named(St(), cur) && pos < |path| && Short(path[pos..])
      modifies this
      ensures Inv() && NamesOf(St()) == NamesOf(old(St())) && zallocs >= old(zallocs)
      ensures Stepped(fs, old(St()), St(), path, pos, cur, memory(old(zallocs)), code, at, next)
      ensures KeepsPinned(old(St()), St())
      ensures touches == old(touches)
                + if code == OK && at.Some? then Marks(fs, Reached(next, FileOf(St(), next), isNew)) else []
    {
      hide Valid, NamesOf, Moved, IsDir, Ordered, Split, KeepsPinned, Marks, Trailing, NameLen, FileOf, Named;
      ghost var s := St();
      isNew := false;
      NothingTouched(s);
      NamedLive(fs, s, cur);
      DirKinds(fs, s, cur);
      if vnodes[cur].kind != Dir {
        return ENOTDIR, Some(pos), cur, false;
      }
      var name, len := NextName(path, pos);
      if name.None? {
        return OK, None, cur, false;
      }
      NameFound(path, pos, name.value);
      NameEnds(path, name.value);
      assert len == NameLen(path[name.value..]) by {
        assert Split(path[pos..])[0] in Split(path[pos..]);
      }
      at := Some(name.value + len);
      code, next, isNew := Advance(cur, path[name.value..name.value + len]);
    }

    /** VfsVnodePermissionCheck for searching: it depends on the file only. */
    method PermissionCheck(v: VId) returns (denied: bool)
      ensures denied == !fs.exec(FileOf(St(), v))
    {
      if v !in vnodes || vnodes[v].dev || vnodes[v].origin.None? {
        return !fs.exec(Device(v));
      }
      denied := !fs.exec(Inode(vnodes[v].origin.value, vnodes[v].hash));
    }

    /** From here on the answers of the allocator are all the same, or do not matter any more. */
    ghost predicate Steady()
      reads this
    {
      total == MAX_VNODE_SIZE || forall k: nat | k >= zallocs :: memory(k) == memory(zallocs)
    }

    /** The vnodes that reclaim may free. */
    ghost function Reclaimable(): (vs: set<VId>)
      reads this
      ensures forall v :: v in vs <==> v in active && v in vnodes && vnodes[v].useCount <= 0
                                       && !vnodes[v].flagOrigin && !vnodes[v].flagNew
    {
      set v | v in active && v in vnodes && vnodes[v].useCount <= 0 && !vnodes[v].flagOrigin && !vnodes[v].flagNew
    }

    /** The outcome of the walk that reckons with the vnodes to be had now. */
    ghost function Expected(start: VId, comps: seq<Name>, trailing: bool): Outcome
      requires Inv()
      reads this
    {
      WalkIn(fs, NamesOf(St()), Known(St()), BudgetOf(St(), memory(zallocs)), FileOf(St(), start), comps, trailing)
    }

    /**
     VnodeLookupAt from the directory `start`; `root` is the caller's root directory.

     The outcome is that of the walk without a cache if two vnodes are to be had, or more, without
     new memory (see Arrived).  If the allocator is steady, it is in every case that of the walk
     that reckons with the vnodes to be had.
     */
    method VnodeLookupAt(path: Path, start: VId, root: VId) returns (code: Code, result: Option<VId>, ghost trail: seq<Reached>)
      requires Inv() && Named(St(), start) && Named(St(), root) && path != [] && Short(path)
      modifies this
      ensures Inv() && NamesOf(St()) == NamesOf(old(St()))
      ensures path == [0x2f] ==> code == OK && result == Some(root) && trail == [] && St() == old(St())
      ensures path != [0x2f] ==> Arrived(Trip(fs, old(St()), start, path), St(), code, result, trail)
      ensures path != [0x2f] && old(Steady()) ==>
                Seen(St(), code, result) == old(Expected(start, Split(path), Trailing(path)))
      ensures path != [0x2f] && |old(free)| + |old(Reclaimable())| >= 2 ==>
                Seen(St(), code, result) == old(Walk(fs, NamesOf(St()), FileOf(St(), start), Split(path), Trailing(path)))
      ensures touches == old(touches) + AllMarks(fs, trail)
    {
      hide Pool, Cached, Hashed, Coherent, Mounted, NamesOf, Ordered, Split, WalkIn, Stepped, Known, BudgetOf,
           AllMarks, Marks, OnTheWay, Arrived, Short, KeepsPinned, Trailing, Walk;
      trail := [];
      NoMarks(fs);
      if path == [SLASH] {
        return OK, Some(root), trail;
      }
      ghost var c, steady := Trip(fs, St(), start, path), Steady();
      ghost var expected := Expected(start, Split(path), Trailing(path));
      var pos, cur := 0, start;
      assert path[0..] == path;
      SetsOut(c);
      PlentyMeans(c);
      while true
        invariant Inv() && NamesOf(St()) == NamesOf(c.s) && pos < |path| && Named(St(), cur) && Short(path[pos..])
        invariant OnTheWay(c, St(), pos, cur, trail)
        invariant steady ==> Steady() && expected == Expected(cur, Split(path[pos..]), Trailing(path))
        invariant touches == old(touches) + AllMarks(fs, trail)
        decreases |path| - pos
      {
        ghost var before, here, from, z, so := St(), cur, pos, zallocs, trail;
        var at;
        ghost var isNew;
        code, at, cur, isNew := Step(path, pos, cur);
        ghost var t := St();
        StepFollowsBudget(fs, before, t, path, pos, here, memory(z), code, at, cur);
        if steady {
          StaysSteady(before, z);
        }
        RoundEnds(c, before, t, pos, here, memory(z), code, at, cur, trail, isNew);
        trail := Further(trail, t, code, at, cur, isNew);
        MarksFurther(fs, old(touches), so, t, code, at, cur, isNew);
        if at.None? || at.value == |path| {
          return code, Some(cur), trail;
        }
        var denied := PermissionCheck(cur);
        if denied {
          return EACCES, None, trail;
        }
        if code != OK {
          return code, None, trail;
        }
        pos := at.value;
        StillOnTheWay(c, t, pos, cur, trail);
      }
    }

    /** With two vnodes to be had, the caller sees what the walk without a cache says. */
    lemma PlentyMeans(c: Trip)
      requires Begun(c) && c.s == St()
      ensures |free| + |Reclaimable()| >= 2 ==>
                forall t, code, result, trail {:trigger Arrived(c, t, code, result, trail)} |
                  Arrived(c, t, code, result, trail) ::
                  Seen(t, code, result) == Walk(c.fs, NamesOf(c.s), Origin(c), Split(c.path), Trailing(c.path))
    {
      hide Pool, Cached, Hashed, Coherent, Mounted, NamesOf, Walk, Split, Arrived;
      ArrivedMeans(c);
      assert Reclaimable() == Eligs(St());
    }

    lemma StaysSteady(before: State, z: nat)
      requires Inv() && KeepsPinned(before, St()) && zallocs >= z
      requires before.total == MAX_VNODE_SIZE || forall k: nat | k >= z :: memory(k) == memory(z)
      ensures Steady() && BudgetOf(St(), memory(z)) == BudgetOf(St(), memory(zallocs))
    {
      hide Cached, Hashed, Coherent, Mounted, Ordered, BudgetOf;
      BudgetSteady(St(), memory(z), memory(zallocs));
    }

    // ----- unmounting -----

    /** VnodeInUseIter */
    method VnodeInUseIter(m: MId) returns (inUse: bool)
      requires Pool(St())
      ensures inUse == InUse(St(), m)
      ensures inUse <==> exists v :: v in active && v in vnodes && vnodes[v].origin == Some(m)
                                     && (vnodes[v].useCount > 0 || vnodes[v].flagOrigin)
    {
      InUseMeans(St(), m);
      var i := 0;
      while i < |active|
        invariant i <= |active|
        invariant forall j | 0 <= j < i :: active[j] in vnodes && !Blocks(m, vnodes[active[j]])
      {
        assert active[i] in active;
        var x := vnodes[active[i]];
        if x.origin == Some(m) && (x.useCount > 0 || x.flagOrigin) {
          assert Blocks(m, x);
          return true;
        }
        i := i + 1;
      }
      inUse := false;
    }

    /** VnodeFreeAll */
    method VnodeFreeAll(m: MId) returns (code: Code)
      requires Pool(St())
      modifies this`free, this`freeSize, this`total, this`vnodes, this`cache, this`hashed, this`active, this`virt
      ensures code in {OK, EBUSY} && FreedAll(old(St()), St(), m, code == OK)
      ensures code == OK <==> forall v | v in old(active) && v in old(vnodes) ::
                var x := old(vnodes)[v]; !(x.origin == Some(m) && !x.flagNew && x.useCount > 0)
      ensures forall j | 0 <= j < |old(active)| && old(active)[j] in old(vnodes) ::
                var v, x := old(active)[j], old(vnodes)[old(active)[j]];
                if x.origin == Some(m) && !x.flagNew
                   && (forall i | 0 <= i <= j && old(active)[i] in old(vnodes) ::
                         var y := old(vnodes)[old(active)[i]]; !(y.origin == Some(m) && !y.flagNew && y.useCount > 0))
                then v in free && v !in active
                else v in active && v in vnodes && vnodes[v] == x
    {
      ghost var s := St();
      code := FreeEach(m);
      FreedAllMeans(s, St(), m, code == OK);
    }

    /** The traversal of VnodeFreeAll. */
    method FreeEach(m: MId) returns (code: Code)
      requires Pool(St())
      modifies this`free, this`freeSize, this`total, this`vnodes, this`cache, this`hashed, this`active, this`virt
      ensures code in {OK, EBUSY} && FreedAll(old(St()), St(), m, code == OK)
    {
      hide Pool, Keep, Chosen, FreeMany, NoneBusy, Passed, Left, All;
      ghost var s, i: nat, p := St(), 0, Unmount(m);
      FreeManyNone(p, s);
      NoneYet(s, m);
      var k := 0;
      LeftEnds(s.active, All(p, s));
      while k < |active|
        invariant i <= |s.active| && St() == FreeMany(s, Passed(p, s, i))
        invariant active == Left(s.active, i, All(p, s)) && k == |Keep(s.active[..i], All(p, s))|
        invariant NoneBusy(s, m, i)
        decreases |s.active| - i
      {
        LeftMore(s.active, i, All(p, s));
        SweepRound(p, s, i, St());
        NextNotBusy(s, m, i);
        var x := vnodes[active[k]];
        k, code := SweepOne(k, !(x.origin == Some(m) && !x.flagNew), p, s, i);
        if code != OK {
          assert Passed(p, s, i) == Passed(p, s, i + 1) by { PassedNext(p, s, i); }
          assert StopsAt(s, m, i);
          return;
        }
        i := i + 1;
      }
      SweepDone(p, s, i);
      assert StopsAt(s, m, i);
      code := OK;
    }

    // ----- building the namespace -----

    /** The type of a devfs vnode is set, as VnodeDevInit and VnodesInit do. */
    method SetKind(v: VId, kind: VType)
      requires Inv() && v in virt
      modifies this`vnodes
      ensures Inv() && v in old(vnodes) && St() == WithKind(old(St()), v, kind)
      ensures NamesOf(St()) == NamesOf(old(St())).(kinds := NamesOf(old(St())).kinds[v := kind])
    {
      hide Valid, NamesOf, Ordered;
      KindValid(fs, St(), v, kind);
      vnodes := vnodes[v := vnodes[v].(kind := kind)];
    }

    /** ProcessVirtualVnode with V_CREATE, while Step holds the devfs directory `parent`. */
    method AllocHeld(parent: VId) returns (code: Code, vnode: Option<VId>)
      requires Inv() && parent in virt
      modifies this
      ensures Inv() && KeepsPinned(old(St()), St()) && parent in virt && touches == old(touches)
      ensures zallocs == old(zallocs) + if old(free) == [] && old(total) < MAX_VNODE_SIZE then 1 else 0
      ensures vnode.None? <==> Exhausted(old(St())) && (old(total) == MAX_VNODE_SIZE || !memory(old(zallocs)))
      ensures code == if vnode.Some? then OK else ENOMEM
      ensures vnode.Some? ==> vnode.value in virt
      ensures NamesOf(St()) == if vnode.Some? then Grown(NamesOf(old(St())), vnode.value) else NamesOf(old(St()))
    {
      hide Valid, NamesOf, GotVnode, Allocates, Ordered, Missed, KeepsPinned, Grown, Exhausted, Intact, FileOf;
      ghost var s := St();
      HoldDirectory(fs, s, parent);
      vnodes := vnodes[parent := vnodes[parent].(useCount := vnodes[parent].useCount + 1)];
      ghost var p := St();
      assert p == Pin(s, parent, 1);
      code, vnode := VnodeAlloc(true);
      ghost var t := St();
      if vnode.Some? {
        GotKeeps(fs, p, t, vnode.value);
      } else {
        MissedKeeps(p);
      }
      DirectoryKept(fs, s, p, t, parent);
      VirtualKept(p, t, parent);
      VirtualExhausted(fs, s, parent);
      vnodes := vnodes[parent := vnodes[parent].(useCount := vnodes[parent].useCount - 1)];
      assert St() == Pin(t, parent, -1);
    }

    /**
     What Step does with V_CREATE and V_DUMMY about a name that the devfs directory `parent` lacks.
     The new vnode gets its name exactly if `zalloc` then finds memory for the cache entry.
     */
    method CreateVirtual(parent: VId, name: Name) returns (code: Code, vnode: Option<VId>)
      requires Inv() && parent in virt
      modifies this
      ensures Inv() && KeepsPinned(old(St()), St()) && touches == old(touches)
      ensures code == if vnode.Some? then OK else ENOMEM
      ensures vnode.None? <==> Exhausted(old(St())) && (old(total) == MAX_VNODE_SIZE || !memory(old(zallocs)))
      ensures vnode.None? ==> NamesOf(St()) == NamesOf(old(St()))
      ensures vnode.Some? ==> vnode.value in virt
      ensures vnode.Some? ==>
                var names, x := Grown(NamesOf(old(St())), vnode.value), Entry(parent, vnode.value, name);
                var z := old(zallocs) + if old(free) == [] && old(total) < MAX_VNODE_SIZE then 1 else 0;
                && parent in names.kids && zallocs == z + 1
                && NamesOf(St()) == if memory(z) then WithEntry(names, x) else names
    {
      hide Valid, NamesOf, Ordered, KeepsPinned, Grown, Exhausted;
      ghost var s := St();
      code, vnode := AllocHeld(parent);
      if vnode.Some? {
        ghost var u := St();
        EntryValid(fs, u, Entry(parent, vnode.value, name));
        PathCacheAlloc(parent, vnode.value, name);
        StillKeeps(s, u, St());
      }
    }

    /** The root vnode of a file system (VfsJffs2Bind): its inode must not be known yet. */
    method BindRoot(m: MId, ino: Word) returns (code: Code, root: Option<VId>)
      requires Inv() && FirstInode(hashed, vnodes, m, ino) == None
      modifies this
      ensures Inv() && NamesOf(St()) == NamesOf(old(St())) && KeepsPinned(old(St()), St())
      ensures zallocs == old(zallocs) + if old(free) == [] && old(total) < MAX_VNODE_SIZE then 1 else 0
      ensures code == if root.Some? then OK else ENOMEM
      ensures root.None? <==> Exhausted(old(St())) && (old(total) == MAX_VNODE_SIZE || !memory(old(zallocs)))
      ensures root.Some? ==> root.value in hashed && FileOf(St(), root.value) == Inode(m, ino)
                             && Made(fs, old(St()), St(), root.value, Inode(m, ino), memory(old(zallocs)))
      ensures touches == if root.Some? then old(touches) + [root.value] else old(touches)
    {
      hide Valid, NamesOf, GotVnode, Allocates, Ordered, Missed, KeepsPinned, Exhausted, Identify;
      ghost var s := St();
      code, root := VnodeAlloc(false);
      ghost var mid := St();
      if root.None? {
        MissedPinned(fs, s);
        return;
      }
      var v := root.value;
      GotActive(fs, s, mid, v);
      InodeMiss(fs, s, mid, v, m, ino);
      MadeFrom(fs, s, mid, Identify(mid, v, m, ino, fs.kind(m, ino)), v, m, ino, memory(old(zallocs)));
      Fill(v, m, ino);
    }

    /** MountAlloc and the flags of a mount: the root `root` covers `d`, which nothing covers yet. */
    method MountRoot(m: MId, d: VId, root: VId)
      requires Inv() && Named(St(), d) && Named(St(), root) && m !in mounts && d in vnodes && !vnodes[d].flagOrigin
      modifies this`vnodes, this`mounts
      ensures Inv() && root in old(vnodes) && St() == MountOn(old(St()), m, d, root)
      ensures var names := NamesOf(old(St()));
              NamesOf(St()) == names.(mounts := names.mounts[m := (FileOf(old(St()), d), FileOf(old(St()), root))])
      ensures mounts == old(mounts)[m := Mount(root, d)] && vnodes.Keys == old(vnodes).Keys
      ensures vnodes[d].newMount == Some(m) && vnodes[d].flagOrigin && (vnodes[root].dev || vnodes[root].flagNew)
      ensures forall v | v in vnodes && v != d && v != root :: vnodes[v] == old(vnodes)[v]
    {
      hide Valid, NamesOf, Named, FileOf, Ordered;
      MountValid(fs, St(), m, d, root);
      vnodes := vnodes[d := vnodes[d].(newMount := Some(m), flagOrigin := true)];
      if !vnodes[root].dev {
        vnodes := vnodes[root := vnodes[root].(flagNew := true)];
      }
      mounts := mounts[m := Mount(root, d)];
      assert St() == MountOn(old(St()), m, d, root);
    }

    // ----- the ends of vnodes and mounts -----

    /**
     VnodeFree of a devfs vnode: the pool shrinks, and its names go.  That keeps the invariant exactly
     if the vnode is no end of a mount, which VnodeFree does not ask.
     */
    method FreeDevice(v: VId) returns (code: Code)
      requires Inv() && v in virt && v in vnodes
      modifies this
      ensures code == if old(vnodes)[v].useCount > 0 then EBUSY else OK
      ensures code == EBUSY ==> St() == old(St())
      ensures code == OK ==> St() == FreeVnode(old(St()), v) && total == old(total) - 1
      ensures code == OK ==> (Inv() <==> NoMountEnd(old(St()), v))
      ensures code == OK && NoMountEnd(old(St()), v) ==> NamesOf(St()) == Without(NamesOf(old(St())), v)
      ensures touches == old(touches)
    {
      hide Valid, NamesOf, Ordered, Without, NoMountEnd, FreeVnode;
      OrderedKeep(active, {v}, touches);
      FreedDevice(fs, St(), v);
      DeviceFreed(fs, St(), v);
      code := VnodeFree(Some(v));
    }

    /** What ForceUmountDev does to the mount point in the end. */
    method EndMount(m: MId)
      requires Inv() && m in mounts
      modifies this`vnodes, this`mounts
      ensures Inv() && NamesOf(St()) == NamesOf(old(St())).(mounts := NamesOf(old(St())).mounts - {m})
      ensures var d := old(mounts)[m].beCovered;
              && d in old(vnodes) && mounts == old(mounts) - {m}
              && vnodes == old(vnodes)[d := old(vnodes)[d].(newMount := None, flagOrigin := false)]
    {
      hide Valid, NamesOf, Ordered;
      EndValid(fs, St(), m);
      var d := mounts[m].beCovered;
      vnodes := vnodes[d := vnodes[d].(newMount := None, flagOrigin := false)];
      mounts := mounts - {m};
      assert St() == MountEnded(old(St()), m);
    }

    /** Reading a devfs directory: its names in the namespace, page by page. */
    method VnodeReaddir(vp: VId, dir: Readdir.DirStream?) returns (reply: Readdir.Reply)
      requires Inv() && vp in virt
      requires dir != null ==> dir.page.Length >= 1 && dir.page.Length >= dir.readCnt
      modifies dir, if dir == null then {} else {dir.page}
      ensures Inv() && vp in NamesOf(St()).kids
      ensures dir == null ==> reply == Readdir.NoDirectory
      ensures dir != null ==>
                var kids := NamesIn(NamesOf(St()).kids[vp]);
                var pos, want := old(dir.position), if dir.readCnt < 1 then 1 else dir.readCnt;
                var n := if pos > |kids| then 0 else if want < |kids| - pos then want else |kids| - pos;
                if forall i | pos <= i < pos + n :: |kids[i]| < dir.nameSize then
                  && reply == Readdir.Count(n) && n <= dir.page.Length
                  && dir.position == (if pos > |kids| then |kids| else pos + n)
                  && (forall j | 0 <= j < n :: dir.page[j] == Readdir.Dirent(kids[pos + j], pos + j))
                  && (forall j | n <= j < dir.page.Length :: dir.page[j] == old(dir.page[j]))
                else reply == Readdir.NameTooLong && dir.position == pos
    {
      hide Pool, Cached, Hashed, Coherent, Mounted, NamesOf, Ordered, Readdir.Page, Readdir.PageEnd;
      RingNames(fs, St(), vp);
      var ring, entries := cache.rings[Children(vp)], cache.entries;
      var kids := seq(|ring|, i requires 0 <= i < |ring| => if ring[i] in entries then entries[ring[i]].name else []);
      assert kids == NamesIn(NamesOf(St()).kids[vp]);
      reply := Readdir.VnodeReaddir(kids, dir);
    }

    // ----- all runs -----

    /** VnodeFree of an active vnode that is no end of a mount. */
    method FreeUnused(v: VId)
      requires Inv() && v in active && v in vnodes && !vnodes[v].flagNew && !vnodes[v].flagOrigin
      modifies this
      ensures Inv() && NamesOf(St()) == NamesOf(old(St())) && touches == old(touches)
    {
      hide Valid, NamesOf, Ordered;
      FreeActive(fs, St(), v, touches);
      var code := VnodeFree(Some(v));
    }

    /** Taking a reference to a vnode, or dropping one (`useCount`). */
    method Refer(v: VId, k: int)
      requires Inv() && Live(St(), v) && v in vnodes && vnodes[v].useCount + k >= 0
      modifies this`vnodes
      ensures Inv() && St() == Pin(old(St()), v, k) && NamesOf(St()) == NamesOf(old(St()))
    {
      hide Valid, NamesOf, Ordered;
      PinValid(fs, St(), v, k);
      vnodes := vnodes[v := vnodes[v].(useCount := vnodes[v].useCount + k)];
    }

    /** The unmount protocol: the vnodes of a mount are freed if none of them is in use. */
    method UnmountAll(m: MId) returns (code: Code)
      requires Inv()
      modifies this
      ensures Inv() && NamesOf(St()) == NamesOf(old(St())) && code in {OK, EBUSY} && touches == old(touches)
      ensures code == EBUSY <==> exists v :: v in old(active) && v in old(vnodes) && old(vnodes)[v].origin == Some(m)
                                             && (old(vnodes)[v].useCount > 0 || old(vnodes)[v].flagOrigin)
      ensures code == EBUSY ==> St() == old(St())
      ensures code == OK ==> forall v | v in active && v in vnodes :: vnodes[v].origin == Some(m) ==> vnodes[v].flagNew
      ensures code == OK ==> forall v | v in old(active) && v in old(vnodes) ::
                var x := old(vnodes)[v];
                if x.origin == Some(m) && !x.flagNew then v in free && v !in active && v !in hashed
                else v in active && v in vnodes && vnodes[v] == x
    {
      hide Pool, Cached, Hashed, Coherent, Mounted, NamesOf, Ordered, FreedAll, InUse, Forgotten, Intact;
      ghost var s := St();
      var inUse := VnodeInUseIter(m);
      if inUse {
        return EBUSY;
      }
      code := VnodeFreeAll(m);
      UnmountProtocol(fs, s, St(), m, code == OK);
      UnmountedLists(fs, s, St(), m, code == OK);
      UnmountOrdered(s, St(), m, code == OK, touches);
    }

    /** One request; a request that its caller was not entitled to make is ignored. */
    method Perform(r: Request)
      requires Inv()
      modifies this
      ensures Inv() && old(touches) <= touches
    {
      hide Cached, Hashed, Coherent, Mounted, NamesOf, Ordered;
      match r {
        case Lookup(path, start, root) =>
          if path != [] && Short(path) && (start in virt || start in hashed) && (root in virt || root in hashed) {
            var code, vnode, trail := VnodeLookupAt(path, start, root);
          }
        case Alloc(dev) =>
          var code, vnode := VnodeAlloc(dev);
        case Free(v) =>
          if v in active && v in vnodes && !vnodes[v].flagNew && !vnodes[v].flagOrigin {
            FreeUnused(v);
          }
        case FreeDev(v) =>
          if v in virt && v in vnodes && forall m | m in mounts :: mounts[m].covered != v && mounts[m].beCovered != v {
            var code := FreeDevice(v);
          }
        case TakeRef(v) =>
          if (v in active || v in virt) && v in vnodes && vnodes[v].useCount >= 0 {
            Refer(v, 1);
          }
        case DropRef(v) =>
          if (v in active || v in virt) && v in vnodes && vnodes[v].useCount > 0 {
            Refer(v, -1);
          }
        case Create(parent, name) =>
          if parent in virt {
            var code, vnode := CreateVirtual(parent, name);
          }
        case SetType(v, kind) =>
          if v in virt {
            SetKind(v, kind);
          }
        case Bind(m, ino) =>
          if FirstInode(hashed, vnodes, m, ino).None? {
            var code, root := BindRoot(m, ino);
          }
        case MountOver(m, d, root) =>
          if (d in virt || d in hashed) && (root in virt || root in hashed)
             && m !in mounts && d in vnodes && !vnodes[d].flagOrigin {
            MountRoot(m, d, root);
          }
        case ClearCache =>
          var count := VnodeClearCache();
        case Umount(m) =>
          var code := UnmountAll(m);
          if code == OK && m in mounts {
            EndMount(m);
          }
      }
    }

    /** Every run keeps all the invariants: conservation, consistency, coherence and LRU order. */
    method PerformAll(rs: seq<Request>)
      requires Inv()
      modifies this
      ensures Inv() && old(touches) <= touches
    {
      hide Valid, Ordered;
      for i := 0 to |rs|
        invariant Inv() && old(touches) <= touches
      {
        Perform(rs[i]);
      }
    }
  }

  // ----- a lookup that fails for want of a vnode -----

  /** A file system with one directory, inode 1, and one name in it, "a". */
  const ONE_NAME: Fs := Fs((m, i, name) => if m == 0 && i == 1 && name == [0x61] then Some(2) else None,
                           (m, i) => Dir, f => true)

  /** The first vnode of all takes the only memory there is, and stands for the root directory. */
  lemma FirstVnode(fs: Fs, s: State, t: State, v: VId, g: File)
    requires Valid(fs, s) && s.free == s.active == s.hashed == [] && s.total == 0
    requires g.Inode? && Made(fs, s, t, v, g, true)
    ensures BudgetOf(t, false) == One(Some(g)) && Known(t) == {g} && t.total == 1
  {
    hide Pool, Cached, Hashed, Coherent, Mounted, NamesOf, FileOf;
    var vs := MadeSpends(fs, s, t, v, g, true);
    assert Eligs(s) == {} && Known(s) == {} && Eligs(t) == {v};
    assert FilesOf(s, vs) == {};
    var mid: State :| v in mid.vnodes && Allocates(s, mid, Some(v), false, true)
                      && t == Identify(mid, v, g.mount, g.ino, fs.kind(g.mount, g.ino));
    assert mid == Enter(s, v, false, false);
    SpotIs(t, v);
  }

  lemma OneName(fs: Fs, names: Names)
    requires fs == ONE_NAME && names.mounts == map[]
    ensures var f, path := Inode(0, 1), [0x61 as Octet];
            && Split(path) == [path] && !Trailing(path) && Short(path)
            && Walk(fs, names, f, [path], false) == Outcome(OK, Some(Inode(0, 2)))
            && WalkIn(fs, names, {f}, One(Some(f)), f, [path], false) == Outcome(ENOMEM, Some(f))
  {
    var path := [0x61 as Octet];
    assert NameLen(path) == 1 && path[..1] == path && path[1..] == [];
    assert Split(path[1..]) == [];
    assert Child(fs, names, Inode(0, 1), path) == Some(Inode(0, 2));
  }

  /**
   With memory for one vnode only, which the root directory takes, looking up a name in that
   directory fails: the one vnode that reclaim could free is the directory itself.  One vnode to be
   had is not enough in general; two are (see Arrived).
   */
  method LookupWithOneVnode(cache: Cache) returns (code: Code, ghost walk: Outcome)
    requires Consistent(cache) && cache.entries == map[] && forall r | r in cache.rings :: r.Bucket?
    ensures code == ENOMEM && walk == Outcome(OK, Some(Inode(0, 2)))
  {
    hide Pool, Cached, Hashed, Coherent, Mounted, Made, Walk, WalkIn, Known, BudgetOf, Split, Short, Arrived, Ordered, Trailing;
    var layer := new VnodeLayer(ONE_NAME, k => k == 0, cache);
    ghost var s := layer.St();
    var bound, root := layer.BindRoot(0, 1);
    ghost var t := layer.St();
    FirstVnode(ONE_NAME, s, t, root.value, Inode(0, 1));
    ghost var names := NamesOf(t);
    OneName(ONE_NAME, names);
    walk := Walk(ONE_NAME, names, Inode(0, 1), [[0x61]], false);
    var result;
    ghost var trail;
    code, result, trail := layer.VnodeLookupAt([0x61], root.value, root.value);
  }
}
