/**
 Finding the vnode of an inode in the vnode hash, and turning a new vnode into one: the lemmas
 behind the Lookup of a file system.
 */
module VfsInodes {
  import opened Fnv
  import opened PathCache
  import opened VfsState
  import opened VfsNames
  import opened VfsSteps
  import opened VfsGrowth
  import opened VfsReclaim
  import opened VfsBudget
  import opened VfsLookup
  import VnodeHash

  function FirstInode(hashed: seq<VId>, vnodes: map<VId, Vnode>, m: MId, ino: Word): Option<VId>
  {
    if hashed == [] then None
    else if hashed[0] in vnodes && vnodes[hashed[0]].origin == Some(m) && vnodes[hashed[0]].hash == ino
    then Some(hashed[0])
    else FirstInode(hashed[1..], vnodes, m, ino)
  }

  lemma {:induction false} FirstInodeFound(hashed: seq<VId>, vnodes: map<VId, Vnode>, m: MId, ino: Word)
    ensures var r := FirstInode(hashed, vnodes, m, ino);
            && (r.Some? ==> r.value in hashed && r.value in vnodes
                            && vnodes[r.value].origin == Some(m) && vnodes[r.value].hash == ino)
            && (r.None? ==> forall v | v in hashed && v in vnodes :: !(vnodes[v].origin == Some(m) && vnodes[v].hash == ino))
  {
    if hashed != [] {
      FirstInodeFound(hashed[1..], vnodes, m, ino);
      assert hashed == [hashed[0]] + hashed[1..];
    }
  }

  /** The search is the one in the buckets of the vnode hash. */
  lemma {:induction false} InodeSearch(seeds: VnodeHash.Seeds, hashed: seq<VId>, vnodes: map<VId, Vnode>,
                                       keys: map<VId, VnodeHash.Key>, m: MId, ino: Word)
    requires forall v | v in hashed ::
               v in vnodes && v in keys && vnodes[v].origin == Some(keys[v].mount) && vnodes[v].hash == keys[v].hash
    ensures var k := VnodeHash.Key(m, ino);
            var bucket := VnodeHash.OfBucket(seeds, hashed, keys, VnodeHash.BucketIndex(seeds, k));
            FirstInode(hashed, vnodes, m, ino) == VnodeHash.First(bucket, keys, k, None)
  {
    VnodeHash.FirstInBucket(seeds, hashed, keys, VnodeHash.Key(m, ino), None);
    if hashed != [] {
      assert forall v | v in hashed[1..] :: v in hashed;
      InodeSearch(seeds, hashed[1..], vnodes, keys, m, ino);
      VnodeHash.FirstInBucket(seeds, hashed[1..], keys, VnodeHash.Key(m, ino), None);
    }
  }

  lemma {:induction false} SubsetSize<T>(a: set<T>, b: set<T>)
    requires a <= b
    ensures |a| <= |b|
  {
    if a != {} {
      var x :| x in a;
      SubsetSize(a - {x}, b - {x});
    }
  }

  /** The `n` lowest addresses. */
  ghost function Addresses(n: nat): (some: set<VId>)
    requires n <= 0x1_0000_0000
    ensures |some| == n && forall v | v in some :: v < n
  {
    if n == 0 then {} else var top: VId := n - 1; Addresses(n - 1) + {top}
  }

  /** While fewer than 2^32 vnodes exist there is an address for another one. */
  lemma FreshAddress(vnodes: map<VId, Vnode>)
    requires |vnodes| < 0x1_0000_0000
    ensures exists v: VId :: v !in vnodes
  {
    if forall v: VId :: v in vnodes {
      SubsetSize(Addresses(|vnodes| + 1), vnodes.Keys);
    }
  }

  lemma ValidCounts(fs: Fs, s: State)
    requires Valid(fs, s)
    ensures s.freeSize == |s.free| && |s.vnodes| <= s.total <= MAX_VNODE_SIZE
  {
  }

  // ----- looking a name up in a file system -----

  lemma InodeHit(fs: Fs, s: State, v: VId, m: MId, ino: Word)
    requires Valid(fs, s) && FirstInode(s.hashed, s.vnodes, m, ino) == Some(v)
    ensures v in s.hashed && FileOf(s, v) == Inode(m, ino)
  {
    FirstInodeFound(s.hashed, s.vnodes, m, ino);
  }

  /** A fresh vnode becomes the inode that the hash did not have. */
  lemma InodeMiss(fs: Fs, s: State, t: State, v: VId, m: MId, ino: Word)
    requires Valid(fs, s) && FirstInode(s.hashed, s.vnodes, m, ino) == None
    requires GotVnode(fs, s, t, v) && v in t.active && NamesOf(t) == NamesOf(s)
    ensures var u := Identify(t, v, m, ino, fs.kind(m, ino));
            && Valid(fs, u) && NamesOf(u) == NamesOf(s) && v in u.hashed && FileOf(u, v) == Inode(m, ino)
            && KeepsPinned(s, u)
  {
    FirstInodeFound(s.hashed, s.vnodes, m, ino);
    forall w | w in t.hashed && w in t.vnodes
      ensures !(t.vnodes[w].origin == Some(m) && t.vnodes[w].hash == ino)
    {
      assert Intact(s, t, w);
    }
    assert Absent(t, m, ino);
    IdentifyValid(fs, t, v, m, ino);
    InodePinned(s, t, v, m, ino, fs.kind(m, ino));
  }

  lemma InodePinned(s: State, t: State, v: VId, m: MId, ino: Word, kind: VType)
    requires v in t.vnodes
    requires forall w | Live(s, w) && w in s.vnodes && !Eligible(s.vnodes[w]) :: w != v && Intact(s, t, w)
    requires t.lost >= s.lost && t.total >= s.total
    ensures KeepsPinned(s, Identify(t, v, m, ino, kind))
  {
    var u := Identify(t, v, m, ino, kind);
    forall w | Live(s, w) && w in s.vnodes && !Eligible(s.vnodes[w]) ensures Intact(s, u, w) {
      assert w != v && Intact(s, t, w);
    }
  }

  lemma GotActive(fs: Fs, s: State, t: State, v: VId)
    requires GotVnode(fs, s, t, v) && v !in t.virt
    ensures v in t.active && v in t.vnodes
  {
  }

  lemma MissedPinned(fs: Fs, s: State)
    requires Valid(fs, s)
    ensures Valid(fs, Missed(s)) && NamesOf(Missed(s)) == NamesOf(s) && KeepsPinned(s, Missed(s))
  {
    MissedValid(fs, s);
    assert forall w :: Live(Missed(s), w) <==> Live(s, w);
  }

  lemma HashedFile(fs: Fs, s: State, v: VId)
    requires Valid(fs, s) && v in s.hashed
    ensures v in s.active && v in s.vnodes && s.vnodes[v].origin.Some?
    ensures FileOf(s, v) == Inode(s.vnodes[v].origin.value, s.vnodes[v].hash)
  {
  }

  lemma FlaggedMount(fs: Fs, s: State, v: VId)
    requires Valid(fs, s) && Named(s, v)
    ensures v in s.vnodes
    ensures s.vnodes[v].flagOrigin ==> s.vnodes[v].newMount.Some? && s.vnodes[v].newMount.value in s.mounts
  {
  }

  lemma GotKeeps(fs: Fs, s: State, t: State, v: VId)
    requires GotVnode(fs, s, t, v)
    ensures KeepsPinned(s, t) && Live(t, v) && v in t.vnodes
  {
  }

  lemma MissedKeeps(s: State)
    ensures KeepsPinned(s, Missed(s))
  {
    assert forall w :: Live(Missed(s), w) <==> Live(s, w);
  }

  lemma VirtualKept(p: State, t: State, d: VId)
    requires KeepsPinned(p, t) && d in p.virt && d in p.vnodes && !Eligible(p.vnodes[d])
    ensures d in t.virt
  {
    assert Live(p, d);
    assert Intact(p, t, d);
  }

  /** The vnode hash misses exactly the files that need a vnode. */
  lemma InodeNeeds(fs: Fs, s: State, m: MId, ino: Word)
    requires Valid(fs, s)
    ensures Needs(s, Inode(m, ino)) <==> FirstInode(s.hashed, s.vnodes, m, ino).None?
  {
    hide Pool, Cached, Hashed, Coherent, Mounted;
    FirstInodeFound(s.hashed, s.vnodes, m, ino);
    forall v | v in s.hashed
      ensures v in s.vnodes && (FileOf(s, v) == Inode(m, ino) <==> s.vnodes[v].origin == Some(m) && s.vnodes[v].hash == ino)
    {
      HashedFile(fs, s, v);
    }
  }

  lemma MadeFrom(fs: Fs, s: State, mid: State, t: State, v: VId, m: MId, ino: Word, memory: bool)
    requires Valid(fs, s) && v in mid.vnodes && Allocates(s, mid, Some(v), false, memory)
    requires t == Identify(mid, v, m, ino, fs.kind(m, ino))
    ensures Made(fs, s, t, v, Inode(m, ino), memory)
    ensures !(Exhausted(s) && (s.total == MAX_VNODE_SIZE || !memory))
  {
    AllocSucceeds(fs, s, mid, v, false, memory);
  }

  /** Holding a devfs vnode does not matter to what reclaim can yield. */
  lemma VirtualExhausted(fs: Fs, s: State, d: VId)
    requires Valid(fs, s) && d in s.virt && d in s.vnodes
    ensures Exhausted(Pin(s, d, 1)) <==> Exhausted(s)
  {
    hide Cached, Hashed, Coherent, Mounted;
    var p := Pin(s, d, 1);
    assert d !in s.active;
    assert forall v | v != d && v in s.vnodes :: p.vnodes[v] == s.vnodes[v];
  }
}
