/**
 The path cache as `fs/vfs/path_cache.c` keeps it: list heads and link words in memory.
 Every operation is proved to do to the three rings what `PathCache` says it does.
 */
module PathCacheTable {
  import opened Fnv
  import opened Lists
  import opened PathCache

  /** The link words: a ring head, or one of the three `LIST_ENTRY` fields of an entry. */
  datatype Link = Head(ring: Ring) | HashEntry(e: EId) | ChildEntry(e: EId) | ParentEntry(e: EId)

  function Hook(r: Ring, e: EId): Link
  {
    match r
    case Bucket(_) => HashEntry(e)
    case Children(_) => ChildEntry(e)
    case Parents(_) => ParentEntry(e)
  }

  ghost function Hooks(r: Ring, s: seq<EId>): seq<Link>
  {
    seq(|s|, i requires 0 <= i < |s| => Hook(r, s[i]))
  }

  /** The rings in memory are those of the model, each entry by the field meant for that ring. */
  ghost predicate Threads(links: map<Link, seq<Link>>, rings: map<Ring, seq<EId>>)
  {
    && (forall l | l in links :: l.Head? && l.ring in rings)
    && (forall r | r in rings :: Head(r) in links && links[Head(r)] == Hooks(r, rings[r]))
  }

  /** An entry that is on no ring through some field has that field unlinked. */
  lemma LooseHook(links: map<Link, seq<Link>>, rings: map<Ring, seq<EId>>, r: Ring, e: EId)
    requires Threads(links, rings)
    requires forall q | q in rings && Hook(q, e) == Hook(r, e) :: e !in rings[q]
    ensures Loose(links, Hook(r, e))
  {
    forall h, i: nat | h in links && i <= |links[h]| ensures Cell(links, h, i) != Hook(r, e) {
      if i > 0 {
        assert links[h] == Hooks(h.ring, rings[h.ring]);
        assert Cell(links, h, i) == Hook(h.ring, rings[h.ring][i - 1]);
        assert rings[h.ring][i - 1] in rings[h.ring];
      }
    }
  }

  lemma {:induction false} KeepOne(s: seq<EId>, i: nat)
    requires Recent(s) && i < |s|
    ensures Keep(s, {s[i]}) == RemoveAt(s, i)
  {
    var rest := s[1..];
    if i == 0 {
      assert forall j | 0 <= j < |rest| :: rest[j] == s[j + 1];
      KeepNone(rest, {s[0]});
    } else {
      assert rest[i - 1] == s[i] && s[0] > s[i];
      KeepOne(rest, i - 1);
      assert RemoveAt(s, i) == [s[0]] + RemoveAt(rest, i - 1);
    }
  }

  lemma {:induction false} KeepAll<T>(s: seq<T>, drop: set<T>)
    requires forall x | x in s :: x in drop
    ensures Keep(s, drop) == []
  {
    if s != [] {
      assert forall x | x in s[1..] :: x in s;
      KeepAll(s[1..], drop);
    }
  }

  /** A new entry is on no ring yet, and `Insert` puts it first on three of them. */
  lemma InsertRings(c: Cache, x: Entry)
    requires Consistent(c) && Children(x.parent) in c.rings && Parents(x.child) in c.rings
    ensures forall r | r in c.rings :: c.serial !in c.rings[r]
    ensures var b, e := Bucket(c.hash(x.name, x.parent)), c.serial;
            && b in c.rings
            && Insert(c, x) == Cache(c.entries[e := x], Insert(c, x).rings, e + 1, c.hash)
            && Insert(c, x).rings == c.rings[Children(x.parent) := [e] + c.rings[Children(x.parent)]]
                                            [Parents(x.child) := [e] + c.rings[Parents(x.child)]]
                                            [b := [e] + c.rings[b]]
  {
    forall r | r in c.rings ensures c.serial !in c.rings[r] {
      assert Holds(c, r);
    }
  }

  /** An entry is on its three rings, and `Drop` takes it off these and no others. */
  lemma DropRings(c: Cache, e: EId)
    requires Consistent(c) && e in c.entries
    ensures var x := c.entries[e];
            var b, p, d := Bucket(c.hash(x.name, x.parent)), Parents(x.child), Children(x.parent);
            && b in c.rings && p in c.rings && d in c.rings
            && e in c.rings[b] && e in c.rings[p] && e in c.rings[d]
            && Recent(c.rings[b]) && Recent(c.rings[p]) && Recent(c.rings[d])
            && Drop(c, {e}).rings == c.rings[b := Keep(c.rings[b], {e})]
                                            [p := Keep(c.rings[p], {e})]
                                            [d := Keep(c.rings[d], {e})]
  {
    var x := c.entries[e];
    var b, p, d := Bucket(c.hash(x.name, x.parent)), Parents(x.child), Children(x.parent);
    assert Holds(c, b) && Holds(c, p) && Holds(c, d);
    forall r | r in c.rings && r != b && r != p && r != d ensures Keep(c.rings[r], {e}) == c.rings[r] {
      assert Holds(c, r);
      KeepNone(c.rings[r], {e});
    }
    ThreeRings(c, e, b, p, d);
  }

  lemma ThreeRings(c: Cache, e: EId, b: Ring, p: Ring, d: Ring)
    requires b in c.rings && p in c.rings && d in c.rings && b != p && p != d && d != b
    requires forall r | r in c.rings && r != b && r != p && r != d :: Keep(c.rings[r], {e}) == c.rings[r]
    ensures Drop(c, {e}).rings == c.rings[b := Keep(c.rings[b], {e})]
                                         [p := Keep(c.rings[p], {e})]
                                         [d := Keep(c.rings[d], {e})]
  {
  }

  /** Rings that touch no entry are empty. */
  lemma NothingLeft(c: Cache, v: VId)
    requires Consistent(c) && Touching(c, v) == {} && Children(v) in c.rings && Parents(v) in c.rings
    ensures c.rings[Children(v)] == [] && c.rings[Parents(v)] == []
  {
    assert Holds(c, Children(v)) && Holds(c, Parents(v));
    assert forall e | e in c.entries :: e !in Touching(c, v);
    FirstMember(c.rings[Children(v)]);
    FirstMember(c.rings[Parents(v)]);
  }

  lemma FirstMember<T>(s: seq<T>)
    ensures s != [] ==> s[0] in s
  {
  }

  /** Without entries, empty buckets are consistent. */
  lemma EmptyConsistent(c: Cache)
    requires c.entries == map[] && c.hash == BucketOf && (forall r | r in c.rings :: c.rings[r] == [])
    requires forall r :: r in c.rings <==> r.Bucket? && r.index < MAX_PATH_CACHE_SIZE
    ensures Consistent(c)
  {
    assert forall r | r in c.rings :: Holds(c, r);
  }

  // ----- what is asked of the path cache -----

  /** A vnode is allocated or freed; a name is cached or its entry freed. */
  datatype Request = New(v: VId) | Gone(v: VId) | Named(x: Entry, memory: bool) | Unnamed(e: EId)

  /** Names are cached between vnodes in use; an address in use is not allocated. */
  predicate Legal(c: Cache, r: Request)
  {
    match r
    case New(v) => Children(v) !in c.rings && Parents(v) !in c.rings
    case Gone(v) => Children(v) in c.rings && Parents(v) in c.rings
    case Named(x, _) => Children(x.parent) in c.rings && Parents(x.child) in c.rings
    case Unnamed(e) => e in c.entries
  }

  function Effect(c: Cache, r: Request): Cache
  {
    match r
    case New(v) => Open(c, v)
    case Gone(v) => Close(Drop(c, Touching(c, v)), v)
    case Named(x, memory) => if memory then Insert(c, x) else c
    case Unnamed(e) => Drop(c, {e})
  }

  ghost predicate LegalAll(c: Cache, rs: seq<Request>)
    decreases |rs|
  {
    rs == [] || (Legal(c, rs[0]) && LegalAll(Effect(c, rs[0]), rs[1..]))
  }

  ghost function EffectAll(c: Cache, rs: seq<Request>): Cache
    decreases |rs|
  {
    if rs == [] then c else EffectAll(Effect(c, rs[0]), rs[1..])
  }

  /** A vnode that is freed leaves its address for another one. */
  lemma Recycled(c: Cache, v: VId)
    requires Legal(c, Gone(v))
    ensures Legal(Effect(c, Gone(v)), New(v))
  {
  }

  class Table {
    const links: LinkHeap<Link>
    const hash: Hashing
    var entries: map<EId, Entry>
    var serial: EId
    ghost var rings: map<Ring, seq<EId>>

    ghost function Model(): Cache
      reads this
    {
      Cache(entries, rings, serial, hash)
    }

    ghost predicate Valid()
      reads this, links
    {
      links.Valid() && Threads(links.rings, rings) && Consistent(Model())
    }

    /** PathCacheInit */
    constructor ()
      ensures Valid() && fresh(links) && hash == BucketOf && entries == map[]
      ensures forall r :: r in rings <==> r.Bucket? && r.index < 512
      ensures forall name, v :: hash(name, v) == NameHash(name, v) % 512
    {
      hide Consistent, WellFormed, BucketOf;
      links := new LinkHeap();
      hash, entries, serial, rings := BucketOf, map[], 0, map[];
      new;
      for i := 0 to MAX_PATH_CACHE_SIZE
        invariant links.Valid() && Threads(links.rings, rings) && fresh(links)
        invariant hash == BucketOf && entries == map[] && serial == 0
        invariant forall r :: r in rings <==> r.Bucket? && r.index < i
        invariant forall r | r in rings :: rings[r] == []
      {
        Found(Bucket(i));
      }
      EmptyConsistent(Model());
      BucketsAre();
    }

    /** LOS_ListInit of a ring head. */
    method Found(r: Ring)
      requires links.Valid() && Threads(links.rings, rings) && r !in rings
      modifies this`rings, links
      ensures links.Valid() && Threads(links.rings, rings) && rings == old(rings)[r := []]
    {
      forall h, i: nat | h in links.rings && i <= |links.rings[h]| ensures Cell(links.rings, h, i) != Head(r) {
        assert links.rings[h] == Hooks(h.ring, rings[h.ring]);
      }
      links.Init(Head(r));
      rings := rings[r := []];
      assert Hooks(r, []) == [];
    }

    /** The ring heads of a new vnode, as VnodeAlloc initialises them. */
    method OpenVnode(v: VId)
      requires Valid() && Children(v) !in rings && Parents(v) !in rings
      modifies this, links
      ensures Valid() && Model() == Open(old(Model()), v)
    {
      ghost var c := Model();
      assert Touching(c, v) == {};
      OpenConsistent(c, v);
      Found(Parents(v));
      Found(Children(v));
      assert Model() == Open(c, v);
    }

    /** LOS_ListAdd of an entry's field to the ring head `r`. */
    method Hang(r: Ring, e: EId)
      requires links.Valid() && Threads(links.rings, rings) && r in rings
      requires forall q | q in rings && Hook(q, e) == Hook(r, e) :: e !in rings[q]
      modifies this`rings, links
      ensures links.Valid() && Threads(links.rings, rings)
      ensures rings == old(rings)[r := [e] + old(rings)[r]]
    {
      LooseHook(links.rings, rings, r, e);
      assert InsertAt(Hooks(r, rings[r]), 0, Hook(r, e)) == Hooks(r, [e] + rings[r]);
      links.Add(Head(r), Hook(r, e), Head(r), 0);
      rings := rings[r := [e] + rings[r]];
    }

    /** LOS_ListDelete of an entry's field. */
    method Unhang(r: Ring, e: EId)
      requires links.Valid() && Threads(links.rings, rings) && r in rings && e in rings[r] && Recent(rings[r])
      modifies this`rings, links
      ensures links.Valid() && Threads(links.rings, rings)
      ensures rings == old(rings)[r := Keep(old(rings)[r], {e})]
    {
      ghost var i :| 0 <= i < |rings[r]| && rings[r][i] == e;
      KeepOne(rings[r], i);
      assert RemoveAt(Hooks(r, rings[r]), i) == Hooks(r, RemoveAt(rings[r], i));
      links.Delete(Hook(r, e), Head(r), i);
      rings := rings[r := RemoveAt(rings[r], i)];
    }

    /** PathCacheAlloc; `memory` says whether `zalloc` finds memory for the entry. */
    method PathCacheAlloc(parent: VId, child: VId, name: Name, memory: bool) returns (pc: Option<EId>)
      requires Valid() && Children(parent) in rings && Parents(child) in rings
      modifies this, links
      ensures Valid()
      ensures pc == if memory then Some(old(serial)) else None
      ensures Model() == if memory then Insert(old(Model()), Entry(parent, child, name)) else old(Model())
      ensures memory ==>
                var e, b := old(serial), Bucket(hash(name, parent));
                && b in old(rings) && entries == old(entries)[e := Entry(parent, child, name)] && serial == e + 1
                && rings == old(rings)[Children(parent) := [e] + old(rings)[Children(parent)]]
                                      [Parents(child) := [e] + old(rings)[Parents(child)]]
                                      [b := [e] + old(rings)[b]]
    {
      if !memory {
        return None;
      }
      hide Consistent, Threads, WellFormed, Insert;
      ghost var c := Model();
      var x, e := Entry(parent, child, name), serial;
      InsertRings(c, x);
      InsertConsistent(c, x);
      HangAll(x, e);
      entries, serial := entries[e := x], e + 1;
      assert Model() == Insert(c, x);
      pc := Some(e);
    }

    method HangAll(x: Entry, e: EId)
      requires links.Valid() && Threads(links.rings, rings)
      requires forall r | r in rings :: e !in rings[r]
      requires Children(x.parent) in rings && Parents(x.child) in rings && Bucket(hash(x.name, x.parent)) in rings
      modifies this`rings, links
      ensures links.Valid() && Threads(links.rings, rings)
      ensures var b := Bucket(hash(x.name, x.parent));
              rings == old(rings)[Children(x.parent) := [e] + old(rings)[Children(x.parent)]]
                                 [Parents(x.child) := [e] + old(rings)[Parents(x.child)]]
                                 [b := [e] + old(rings)[b]]
    {
      hide Threads, WellFormed;
      Hang(Children(x.parent), e);
      Hang(Parents(x.child), e);
      Hang(Bucket(hash(x.name, x.parent)), e);
    }

    /** PathCacheFree of an allocated entry. */
    method PathCacheFree(e: EId)
      requires Valid() && e in entries
      modifies this, links
      ensures Valid() && Model() == Drop(old(Model()), {e})
      ensures entries == old(entries) - {e}
    {
      hide Consistent, Threads, WellFormed, Recent;
      ghost var c := Model();
      var x := entries[e];
      DropRings(c, e);
      DropConsistent(c, {e});
      UnhangAll(x, e);
      entries := entries - {e};
      assert Model() == Drop(c, {e});
    }

    method UnhangAll(x: Entry, e: EId)
      requires links.Valid() && Threads(links.rings, rings)
      requires var b, p, d := Bucket(hash(x.name, x.parent)), Parents(x.child), Children(x.parent);
               && b in rings && p in rings && d in rings
               && e in rings[b] && e in rings[p] && e in rings[d]
               && Recent(rings[b]) && Recent(rings[p]) && Recent(rings[d])
      modifies this`rings, links
      ensures links.Valid() && Threads(links.rings, rings)
      ensures var b, p, d := Bucket(hash(x.name, x.parent)), Parents(x.child), Children(x.parent);
              rings == old(rings)[b := Keep(old(rings)[b], {e})]
                                 [p := Keep(old(rings)[p], {e})]
                                 [d := Keep(old(rings)[d], {e})]
    {
      Unhang(Bucket(hash(x.name, x.parent)), e);
      Unhang(Parents(x.child), e);
      Unhang(Children(x.parent), e);
    }

    /** The first item of a ring in memory is the first entry of the ring, or the head. */
    lemma FirstItem(r: Ring)
      requires Valid() && r in rings
      ensures Head(r) in links.next
      ensures rings[r] == [] ==> links.next[Head(r)] == Head(r)
      ensures rings[r] != [] ==> links.next[Head(r)] == Hook(r, rings[r][0])
    {
      NextItem(links.rings, links.next, links.prev, Head(r), 0);
    }

    /** The item after item `i` of a ring in memory. */
    lemma LaterItem(r: Ring, i: nat)
      requires Valid() && r in rings && i < |rings[r]|
      ensures Hook(r, rings[r][i]) in links.next
      ensures links.next[Hook(r, rings[r][i])]
           == if i + 1 < |rings[r]| then Hook(r, rings[r][i + 1]) else Head(r)
    {
      NextItem(links.rings, links.next, links.prev, Head(r), i);
    }

    method FreeItem(r: Ring, item: Link, ghost c: Cache, ghost n: nat) returns (e: EId, nextItem: Link)
      requires Consistent(c) && r in c.rings && n < |c.rings[r]|
      requires Valid() && Model() == Freed(c, r, n) && item == Hook(r, c.rings[r][n])
      modifies this, links
      ensures Valid() && Model() == Freed(c, r, n + 1) && e == c.rings[r][n]
      ensures nextItem == if n + 1 < |c.rings[r]| then Hook(r, c.rings[r][n + 1]) else Head(r)
    {
      hide Consistent, Threads, WellFormed;
      FreedNext(c, r, n);
      LaterItem(r, 0);
      nextItem := links.next[item];
      e := item.e;
      PathCacheFree(e);
    }

    /**
     FreeChildPathCache and FreeParentPathCache: the SAFE traversal of one ring of a vnode
     that frees every entry it meets.
     */
    method FreeRing(r: Ring) returns (visited: seq<EId>)
      requires Valid() && r in rings
      modifies this, links
      ensures Valid() && visited == old(rings)[r]
      ensures Model() == Drop(old(Model()), Elems(old(rings)[r]))
    {
      visited := [];
      ghost var c, ring, n: nat := Model(), rings[r], 0;
      FreedNone(c, r);
      FirstItem(r);
      var item := links.next[Head(r)];
      while item != Head(r)
        invariant n <= |ring| && visited == ring[..n]
        invariant Valid() && Model() == Freed(c, r, n)
        invariant item == if n < |ring| then Hook(r, ring[n]) else Head(r)
        decreases |ring| - n
      {
        var e, nextItem := FreeItem(r, item, c, n);
        TakeNext(ring, n);
        visited := visited + [e];
        item := nextItem;
        n := n + 1;
      }
      TakeNext(ring, n);
    }

    /** VnodePathCacheFree */
    method VnodePathCacheFree(v: VId)
      requires Valid() && Parents(v) in rings && Children(v) in rings
      modifies this, links
      ensures Valid() && Model() == Drop(old(Model()), Touching(old(Model()), v))
      ensures forall e | e in old(entries) ::
                if old(entries)[e].parent == v || old(entries)[e].child == v then e !in entries
                else e in entries && entries[e] == old(entries)[e]
      ensures forall e | e in entries :: e in old(entries)
    {
      FreeBothRings(Model(), v);
      var up := FreeRing(Parents(v));
      var down := FreeRing(Children(v));
    }

    /** What a directory's child ring yields for a name: the entry made last, if there is one. */
    lemma FoundRecent(parent: VId, name: Name)
      requires Valid() && Children(parent) in rings
      ensures var found := Find(entries, rings[Children(parent)], parent, name);
              && (found.Some? ==> found.value in entries && entries[found.value].parent == parent
                                  && entries[found.value].name == name)
              && forall e | e in entries && entries[e].parent == parent && entries[e].name == name ::
                   found.Some? && e <= found.value
    {
      assert Holds(Model(), Children(parent));
      FindRecent(entries, rings[Children(parent)], parent, name);
    }

    /** PathCacheLookup: a scan of one hash bucket, which sees what the directory holds. */
    method PathCacheLookup(parent: VId, name: Name) returns (vnode: Option<VId>)
      requires Valid() && Children(parent) in rings
      ensures var found := Find(entries, rings[Children(parent)], parent, name);
              vnode == if found.Some? && found.value in entries then Some(entries[found.value].child) else None
      ensures if forall e | e in entries :: !(entries[e].parent == parent && entries[e].name == name) then vnode == None
              else exists e :: e in entries && entries[e].parent == parent && entries[e].name == name
                               && (forall d | d in entries :: entries[d].parent == parent && entries[d].name == name ==> d <= e)
                               && vnode == Some(entries[e].child)
    {
      FoundRecent(parent, name);
      var r := Bucket(hash(name, parent));
      BucketAgreesWithDirectory(Model(), parent, name);
      ghost var ring, n: nat := rings[r], 0;
      assert Holds(Model(), r);
      assert ring[0..] == ring;
      FirstItem(r);
      var item := links.next[Head(r)];
      while item != Head(r)
        invariant n <= |ring| && item == if n < |ring| then Hook(r, ring[n]) else Head(r)
        invariant Find(entries, ring, parent, name) == Find(entries, ring[n..], parent, name)
        decreases |ring| - n
      {
        assert ring[n] in ring && ring[n..][1..] == ring[n + 1..];
        if Matches(entries[item.e], parent, name) {
          return Some(entries[item.e].child);
        }
        LaterItem(r, n);
        item := links.next[item];
        n := n + 1;
      }
      vnode := None;
    }

    /** The memory of an empty ring head is cleared with the vnode it lies in. */
    method Lose(r: Ring)
      requires links.Valid() && Threads(links.rings, rings) && r in rings && rings[r] == []
      modifies this`rings, links
      ensures links.Valid() && Threads(links.rings, rings) && rings == old(rings) - {r}
    {
      assert links.rings[Head(r)] == Hooks(r, []) == [];
      links.Retire(Head(r));
      rings := rings - {r};
    }

    /**
     What VnodeFree does to the path cache: VnodePathCacheFree, and then `memset_s` or `free` of
     the vnode with its two ring heads.  The address may be used for a new vnode after that.
     */
    method CloseVnode(v: VId)
      requires Valid() && Parents(v) in rings && Children(v) in rings
      modifies this, links
      ensures Valid() && Model() == Close(Drop(old(Model()), Touching(old(Model()), v)), v)
      ensures Children(v) !in rings && Parents(v) !in rings
    {
      hide Threads, Consistent, Touching;
      FreeBothRings(Model(), v);
      VnodePathCacheFree(v);
      LoseBoth(v);
    }

    method LoseBoth(v: VId)
      requires Valid() && Parents(v) in rings && Children(v) in rings && Touching(Model(), v) == {}
      modifies this`rings, links
      ensures Valid() && Model() == Close(old(Model()), v) && Children(v) !in rings && Parents(v) !in rings
    {
      ghost var c := Model();
      hide Threads, Consistent, Touching, WellFormed;
      NothingLeft(c, v);
      CloseConsistent(c, v);
      Lose(Children(v));
      Lose(Parents(v));
      assert rings == c.rings - {Children(v), Parents(v)};
      assert Model() == Close(c, v);
    }

    // ----- all runs -----

    /** Any legal sequence of requests does to the rings in memory what it does to the model. */
    method PerformAll(rs: seq<Request>)
      requires Valid() && LegalAll(Model(), rs)
      modifies this, links
      ensures Valid() && Model() == EffectAll(old(Model()), rs)
    {
      hide Consistent, Threads;
      ghost var c := Model();
      assert rs[0..] == rs;
      for i := 0 to |rs|
        invariant Valid() && LegalAll(Model(), rs[i..]) && EffectAll(c, rs) == EffectAll(Model(), rs[i..])
      {
        assert rs[i..][0] == rs[i] && rs[i..][1..] == rs[i + 1..];
        Perform(rs[i]);
      }
    }

    method Perform(r: Request)
      requires Valid() && Legal(Model(), r)
      modifies this, links
      ensures Valid() && Model() == Effect(old(Model()), r)
    {
      hide Consistent, Threads;
      match r {
        case New(v) => OpenVnode(v);
        case Gone(v) => CloseVnode(v);
        case Named(x, memory) =>
          var pc := PathCacheAlloc(x.parent, x.child, x.name, memory);
        case Unnamed(e) => PathCacheFree(e);
      }
    }
  }
}
