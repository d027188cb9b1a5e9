/**
 The vnode hash of `fs/vfs/vnode_hash.c`: 128 buckets of vnodes, found by the mount and the hash
 (the inode number) of a vnode.
 */
module VnodeHash {
  import opened Fnv
  import opened Lists
  import opened PathCache
  import opened VfsState

  const VNODE_HASH_BUCKETS: nat := 128

  datatype Status = LOS_OK | LOS_NOK | EINVAL

  /** The fields `originMount` and `hash` of a vnode. */
  datatype Key = Key(mount: MId, hash: Word)

  /** The state of a vnode's `hashEntry`: initialised, on a bucket, or NULL after a removal. */
  datatype Hook = Alone | Hung | Cut

  // the random seed of each mount
  type Seeds = MId -> Word

  /** VfsHashIndex, with the wrap-around of 32-bit addition. */
  function HashIndex(seeds: Seeds, k: Key): Word
  {
    (k.hash + seeds(k.mount)) % 0x1_0000_0000
  }

  /** VfsHashBucket: the index masked with 127. */
  function BucketIndex(seeds: Seeds, k: Key): (b: nat)
    ensures b < VNODE_HASH_BUCKETS
  {
    HashIndex(seeds, k) % VNODE_HASH_BUCKETS
  }

  /** The vnodes of `s` that belong in bucket `b`, in order. */
  function OfBucket(seeds: Seeds, s: seq<VId>, keys: map<VId, Key>, b: nat): seq<VId>
  {
    if s == [] then []
    else if s[0] in keys && BucketIndex(seeds, keys[s[0]]) == b then [s[0]] + OfBucket(seeds, s[1..], keys, b)
    else OfBucket(seeds, s[1..], keys, b)
  }

  /** `differs` is the optional comparison function, true for a vnode that is not meant. */
  predicate Meant(keys: map<VId, Key>, v: VId, k: Key, differs: Option<VId -> bool>)
  {
    v in keys && keys[v] == k && (differs.Some? ==> !differs.value(v))
  }

  function First(s: seq<VId>, keys: map<VId, Key>, k: Key, differs: Option<VId -> bool>): Option<VId>
  {
    if s == [] then None
    else if Meant(keys, s[0], k, differs) then Some(s[0])
    else First(s[1..], keys, k, differs)
  }

  /** The search finds the vnode nearest to the front, if one is meant at all. */
  lemma {:induction false} FirstFound(s: seq<VId>, keys: map<VId, Key>, k: Key, differs: Option<VId -> bool>)
    ensures match First(s, keys, k, differs)
            case None => forall v | v in s :: !Meant(keys, v, k, differs)
            case Some(v) => exists i :: 0 <= i < |s| && s[i] == v && Meant(keys, v, k, differs)
                                        && forall j | 0 <= j < i :: !Meant(keys, s[j], k, differs)
  {
    if s != [] && !Meant(keys, s[0], k, differs) {
      FirstFound(s[1..], keys, k, differs);
      var r := First(s[1..], keys, k, differs);
      if r.Some? {
        var i :| 0 <= i < |s[1..]| && s[1..][i] == r.value
                 && forall j | 0 <= j < i :: !Meant(keys, s[1..][j], k, differs);
        assert s[i + 1] == r.value;
        assert forall j | 1 <= j < i + 1 :: s[j] == s[1..][j - 1];
      }
    }
  }

  /** Searching one bucket is searching them all. */
  lemma {:induction false} FirstInBucket(seeds: Seeds, s: seq<VId>, keys: map<VId, Key>, k: Key, differs: Option<VId -> bool>)
    ensures First(OfBucket(seeds, s, keys, BucketIndex(seeds, k)), keys, k, differs) == First(s, keys, k, differs)
  {
    if s != [] {
      FirstInBucket(seeds, s[1..], keys, k, differs);
    }
  }

  lemma {:induction false} BucketMembers(seeds: Seeds, s: seq<VId>, keys: map<VId, Key>, b: nat)
    ensures forall v :: v in OfBucket(seeds, s, keys, b) <==> v in s && v in keys && BucketIndex(seeds, keys[v]) == b
  {
    if s != [] {
      BucketMembers(seeds, s[1..], keys, b);
      assert s == [s[0]] + s[1..];
    }
  }

  /** The key of a vnode outside of `s` does not matter. */
  lemma {:induction false} KeyElsewhere(seeds: Seeds, s: seq<VId>, keys: map<VId, Key>, v: VId, k: Key, b: nat)
    requires v !in s
    ensures OfBucket(seeds, s, keys[v := k], b) == OfBucket(seeds, s, keys, b)
  {
    if s != [] {
      KeyElsewhere(seeds, s[1..], keys, v, k, b);
    }
  }

  lemma {:induction false} BucketKeep(seeds: Seeds, s: seq<VId>, keys: map<VId, Key>, drop: set<VId>, b: nat)
    ensures OfBucket(seeds, Keep(s, drop), keys, b) == Keep(OfBucket(seeds, s, keys, b), drop)
  {
    if s != [] {
      BucketKeep(seeds, s[1..], keys, drop, b);
      if s[0] !in drop {
        assert Keep(s, drop)[1..] == Keep(s[1..], drop);
      }
    }
  }

  class HashTable {
    const seeds: Seeds
    const buckets: array<seq<VId>>
    var keys: map<VId, Key>
    ghost var hooks: map<VId, Hook>
    // all vnodes in the table, the one inserted last first
    ghost var recent: seq<VId>

    /** Every bucket holds exactly the vnodes whose key belongs there, the most recent first. */
    ghost predicate Valid()
      reads this, buckets
    {
      && buckets.Length == VNODE_HASH_BUCKETS && hooks.Keys == keys.Keys
      && NoDup(recent) && (forall v :: v in recent <==> v in hooks && hooks[v] == Hung)
      && (forall b | 0 <= b < VNODE_HASH_BUCKETS :: buckets[b] == OfBucket(seeds, recent, keys, b))
    }

    /** VnodeHashInit */
    constructor (seeds: Seeds)
      ensures Valid() && fresh(buckets) && keys == map[] && recent == [] && this.seeds == seeds
    {
      this.seeds := seeds;
      buckets := new seq<VId>[VNODE_HASH_BUCKETS](_ => []);
      keys, hooks, recent := map[], map[], [];
    }

    /** A vnode from VnodeAlloc, with its `originMount` set. */
    method Introduce(v: VId, mount: MId)
      requires Valid() && v !in keys
      modifies this
      ensures Valid() && recent == old(recent) && keys == old(keys)[v := Key(mount, 0)] && hooks == old(hooks)[v := Alone]
    {
      forall b | 0 <= b < VNODE_HASH_BUCKETS
        ensures OfBucket(seeds, recent, keys[v := Key(mount, 0)], b) == OfBucket(seeds, recent, keys, b)
      {
        KeyElsewhere(seeds, recent, keys, v, Key(mount, 0), b);
      }
      keys, hooks := keys[v := Key(mount, 0)], hooks[v := Alone];
    }

    /** VfsHashGet: of the vnodes in the table that are meant, the one inserted last. */
    method VfsHashGet(mount: Option<MId>, hash: Word, differs: Option<VId -> bool>) returns (code: Status, vnode: Option<VId>)
      requires Valid()
      ensures mount.None? ==> code == EINVAL && vnode == None
      ensures mount.Some? ==> (code == LOS_OK <==> vnode.Some?) && code != EINVAL
      ensures mount.Some? && vnode.None? ==> forall v | v in recent :: !Meant(keys, v, Key(mount.value, hash), differs)
      ensures mount.Some? && vnode.Some? ==>
                exists i :: 0 <= i < |recent| && recent[i] == vnode.value
                            && Meant(keys, recent[i], Key(mount.value, hash), differs)
                            && forall j | 0 <= j < i :: !Meant(keys, recent[j], Key(mount.value, hash), differs)
      ensures mount.Some? ==>
                (vnode.Some? <==> exists v :: v in recent && v in keys && keys[v].mount == mount.value && keys[v].hash == hash
                                              && (differs.None? || !differs.value(v)))
      ensures mount.Some? && vnode.Some? ==>
                var v := vnode.value;
                v in recent && v in keys && keys[v].mount == mount.value && keys[v].hash == hash
                && (differs.None? || !differs.value(v))
    {
      if mount.None? {
        return EINVAL, None;
      }
      ghost var k := Key(mount.value, hash);
      FirstFound(recent, keys, k, differs);
      FirstInBucket(seeds, recent, keys, k, differs);
      var list := buckets[BucketIndex(seeds, Key(mount.value, hash))];
      BucketMembers(seeds, recent, keys, BucketIndex(seeds, k));
      var n := 0;
      assert list[0..] == list;
      while n < |list|
        invariant n <= |list| && First(list[n..], keys, k, differs) == First(recent, keys, k, differs)
      {
        assert list[n..][1..] == list[n + 1..] && list[n] in list;
        var cur := list[n];
        n := n + 1;
        if keys[cur].hash != hash || keys[cur].mount != mount.value {
          continue;
        }
        if differs.Some? && differs.value(cur) {
          continue;
        }
        return LOS_OK, Some(cur);
      }
      return LOS_NOK, None;
    }

    /** VfsHashInsert of a vnode that is on no bucket. */
    method VfsHashInsert(vnode: Option<VId>, hash: Word) returns (code: Status)
      requires Valid() && (vnode.Some? ==> vnode.value in hooks && hooks[vnode.value] != Hung)
      modifies this, buckets
      ensures Valid()
      ensures vnode.None? ==> code == EINVAL && keys == old(keys) && recent == old(recent) && hooks == old(hooks)
      ensures vnode.Some? ==>
                && code == LOS_OK && recent == [vnode.value] + old(recent) && hooks == old(hooks)[vnode.value := Hung]
                && vnode.value in old(keys) && keys == old(keys)[vnode.value := old(keys)[vnode.value].(hash := hash)]
      ensures vnode.Some? ==>
                var b := (hash + seeds(keys[vnode.value].mount)) % 0x1_0000_0000 % 128;
                buckets[..] == old(buckets[..])[b := [vnode.value] + old(buckets[b])]
    {
      if vnode.None? {
        return EINVAL;
      }
      var v := vnode.value;
      var k := keys[v].(hash := hash);
      forall b | 0 <= b < VNODE_HASH_BUCKETS
        ensures OfBucket(seeds, [v] + recent, keys[v := k], b)
             == if b == BucketIndex(seeds, k) then [v] + buckets[b] else buckets[b]
      {
        KeyElsewhere(seeds, recent, keys, v, k, b);
        assert ([v] + recent)[1..] == recent;
      }
      keys := keys[v := k];
      buckets[BucketIndex(seeds, k)] := [v] + buckets[BucketIndex(seeds, k)];
      recent, hooks := [v] + recent, hooks[v := Hung];
      code := LOS_OK;
    }

    /** LOS_ListDelete of the `hashEntry`, which takes the vnode off its bucket if it is on one. */
    method Unhook(v: VId)
      requires Valid() && v in hooks && hooks[v] != Cut
      modifies this`recent, this`hooks, buckets
      ensures Valid() && recent == Keep(old(recent), {v}) && hooks == old(hooks)[v := Cut]
    {
      ghost var was := buckets[..];
      var b := BucketIndex(seeds, keys[v]);
      buckets[b] := Keep(buckets[b], {v});
      forall c | 0 <= c < VNODE_HASH_BUCKETS ensures buckets[c] == OfBucket(seeds, Keep(recent, {v}), keys, c) {
        BucketKeep(seeds, recent, keys, {v}, c);
        BucketMembers(seeds, recent, keys, c);
        if c != b {
          KeepNone(was[c], {v});
        }
      }
      KeepMembers(recent, {v});
      KeepNoDup(recent, {v});
      recent, hooks := Keep(recent, {v}), hooks[v := Cut];
    }

    /** VfsHashRemove; it leaves NULL links, so only an insertion may follow. */
    method VfsHashRemove(vnode: Option<VId>)
      requires Valid() && (vnode.Some? ==> vnode.value in hooks && hooks[vnode.value] != Cut)
      modifies this`recent, this`hooks, buckets
      ensures Valid() && (vnode.None? ==> recent == old(recent) && hooks == old(hooks))
      ensures vnode.Some? ==> recent == Keep(old(recent), {vnode.value}) && hooks == old(hooks)[vnode.value := Cut]
    {
      if vnode.None? {
        return;
      }
      Unhook(vnode.value);
    }

    /** The part of VnodeFree that concerns the hash: the vnode goes, whether it was hashed or not. */
    method FreeVnode(v: VId)
      requires Valid() && v in hooks && hooks[v] != Cut
      modifies this, buckets
      ensures Valid() && recent == Keep(old(recent), {v}) && keys == old(keys) - {v} && hooks == old(hooks) - {v}
    {
      Unhook(v);
      KeepMembers(old(recent), {v});
      forall b | 0 <= b < VNODE_HASH_BUCKETS
        ensures OfBucket(seeds, recent, keys - {v}, b) == OfBucket(seeds, recent, keys, b)
      {
        KeyElsewhere(seeds, recent, keys - {v}, v, keys[v], b);
        assert (keys - {v})[v := keys[v]] == keys;
      }
      keys, hooks := keys - {v}, hooks - {v};
    }
  }
}
