/**
 The path cache of `fs/vfs/path_cache.c`: entries (parent vnode, name) -> child vnode, each
 threaded on three rings at once: a hash bucket, the parent's child ring and the child's
 parent ring.
 */
module PathCache {
  import opened Fnv
  import opened Lists

  // a pointer to a vnode
  type VId = Word
  // entries are numbered in the order of their allocation
  type EId = nat
  type Name = Octets

  datatype Option<+T> = None | Some(value: T)

  datatype Entry = Entry(parent: VId, child: VId, name: Name)

  datatype Ring = Bucket(index: nat) | Children(vnode: VId) | Parents(vnode: VId)

  const MAX_PATH_CACHE_SIZE: nat := 512

  /** NameHash masked with the (power of two) table size less one. */
  function BucketOf(name: Name, parent: VId): nat
  {
    NameHash(name, parent) % MAX_PATH_CACHE_SIZE
  }

  lemma BucketsAre()
    ensures forall name, v :: BucketOf(name, v) == NameHash(name, v) % 512
  {
  }

  // which bucket a name in a directory belongs in; `BucketOf` in the kernel
  type Hashing = (Name, VId) -> nat

  /** The three rings an entry belongs on. */
  predicate On(hash: Hashing, x: Entry, r: Ring)
  {
    match r
    case Bucket(b) => b == hash(x.name, x.parent)
    case Children(v) => v == x.parent
    case Parents(v) => v == x.child
  }

  /** The rings by their members, in link order, and the entries that are allocated. */
  datatype Cache = Cache(entries: map<EId, Entry>, rings: map<Ring, seq<EId>>, serial: EId, hash: Hashing)

  /** Strictly descending: the most recent entry first, and no entry twice. */
  predicate Recent(s: seq<EId>)
  {
    forall i, j | 0 <= i < j < |s| :: s[i] > s[j]
  }

  ghost predicate Holds(c: Cache, r: Ring)
    requires r in c.rings
  {
    && Recent(c.rings[r])
    && forall e :: e in c.rings[r] <==> e in c.entries && On(c.hash, c.entries[e], r)
  }

  /**
   Every ring holds exactly the entries that belong on it, most recent first; every entry
   belongs on three rings that exist.  The three indexes thus describe one set of entries.
   */
  ghost predicate Consistent(c: Cache)
  {
    && (forall e | e in c.entries :: e < c.serial)
    && (forall r {:trigger Holds(c, r)} | r in c.rings :: Holds(c, r))
    && (forall e | e in c.entries :: var x := c.entries[e];
          Children(x.parent) in c.rings && Parents(x.child) in c.rings)
    && (forall name, v :: Bucket(c.hash(name, v)) in c.rings)
  }

  // ----- what the operations do -----

  function Insert(c: Cache, x: Entry): Cache
  {
    Cache(c.entries[c.serial := x],
          map r | r in c.rings :: if On(c.hash, x, r) then [c.serial] + c.rings[r] else c.rings[r],
          c.serial + 1, c.hash)
  }

  function Drop(c: Cache, es: set<EId>): Cache
  {
    c.(entries := c.entries - es, rings := map r | r in c.rings :: Keep(c.rings[r], es))
  }

  function Touching(c: Cache, v: VId): set<EId>
  {
    set e | e in c.entries && (c.entries[e].parent == v || c.entries[e].child == v)
  }

  /** LOS_ListInit of the two ring heads inside a vnode. */
  function Open(c: Cache, v: VId): Cache
  {
    c.(rings := c.rings[Parents(v) := []][Children(v) := []])
  }

  /** The ring heads vanish with their vnode. */
  function Close(c: Cache, v: VId): Cache
  {
    c.(rings := c.rings - {Children(v), Parents(v)})
  }

  predicate Matches(x: Entry, parent: VId, name: Name)
  {
    x.parent == parent && x.name == name
  }

  /** The first entry along `s` for a name in a directory. */
  function Find(entries: map<EId, Entry>, s: seq<EId>, parent: VId, name: Name): Option<EId>
  {
    if s == [] then None
    else if s[0] in entries && Matches(entries[s[0]], parent, name) then Some(s[0])
    else Find(entries, s[1..], parent, name)
  }

  // ----- laws -----

  lemma {:induction false} KeepMembers<T>(s: seq<T>, drop: set<T>)
    ensures forall x :: x in Keep(s, drop) <==> x in s && x !in drop
  {
    if s != [] {
      KeepMembers(s[1..], drop);
      assert s == [s[0]] + s[1..];
    }
  }

  lemma {:induction false} KeepRecent(s: seq<EId>, drop: set<EId>)
    requires Recent(s)
    ensures Recent(Keep(s, drop))
  {
    if s != [] {
      KeepRecent(s[1..], drop);
      KeepMembers(s[1..], drop);
      var k := Keep(s[1..], drop);
      forall j | 0 <= j < |k| ensures s[0] > k[j] {
        assert k[j] in s[1..];
      }
    }
  }

  lemma InsertRecent(s: seq<EId>, e: EId)
    requires Recent(s) && forall d | d in s :: d < e
    ensures Recent([e] + s) && forall d :: d in [e] + s <==> d == e || d in s
  {
    var t := [e] + s;
    forall i, j | 0 <= i < j < |t| ensures t[i] > t[j] {
      assert s[j - 1] in s;
    }
  }

  lemma InsertHolds(c: Cache, x: Entry, r: Ring)
    requires Consistent(c) && r in c.rings
    ensures Holds(Insert(c, x), r)
  {
    assert Holds(c, r);
    assert forall e | e in c.rings[r] :: e in c.entries && e < c.serial;
    if On(c.hash, x, r) {
      InsertRecent(c.rings[r], c.serial);
    }
  }

  /** Inserting an entry keeps the three indexes consistent. */
  lemma InsertConsistent(c: Cache, x: Entry)
    requires Consistent(c) && Children(x.parent) in c.rings && Parents(x.child) in c.rings
    ensures Consistent(Insert(c, x))
  {
    forall r | r in c.rings ensures Holds(Insert(c, x), r) {
      InsertHolds(c, x, r);
    }
  }

  /** Dropping any set of entries keeps the three indexes consistent. */
  lemma DropConsistent(c: Cache, es: set<EId>)
    requires Consistent(c)
    ensures Consistent(Drop(c, es))
  {
    var c' := Drop(c, es);
    forall r | r in c'.rings ensures Holds(c', r) {
      assert Holds(c, r);
      KeepMembers(c.rings[r], es);
      KeepRecent(c.rings[r], es);
    }
  }

  lemma OpenConsistent(c: Cache, v: VId)
    requires Consistent(c) && Touching(c, v) == {}
    ensures Consistent(Open(c, v))
  {
    var c' := Open(c, v);
    forall r | r in c'.rings ensures Holds(c', r) {
      if r in c.rings {
        assert Holds(c, r);
      }
      assert forall e | e in c.entries :: e !in Touching(c, v);
    }
  }

  lemma CloseConsistent(c: Cache, v: VId)
    requires Consistent(c) && Touching(c, v) == {}
    ensures Consistent(Close(c, v))
  {
    var c' := Close(c, v);
    forall r | r in c'.rings ensures Holds(c', r) {
      assert Holds(c, r);
    }
    assert forall e | e in c.entries :: e !in Touching(c, v);
  }

  lemma {:induction false} KeepTwice<T>(s: seq<T>, a: set<T>, b: set<T>)
    ensures Keep(Keep(s, a), b) == Keep(s, a + b)
  {
    if s != [] {
      KeepTwice(s[1..], a, b);
      if s[0] !in a {
        assert ([s[0]] + Keep(s[1..], a))[1..] == Keep(s[1..], a);
      }
    }
  }

  lemma {:induction false} KeepNone<T>(s: seq<T>, drop: set<T>)
    requires forall x | x in s :: x !in drop
    ensures Keep(s, drop) == s
  {
    if s != [] {
      assert forall x | x in s[1..] :: x in s;
      KeepNone(s[1..], drop);
    }
  }

  /** Dropping entries one after the other drops their union. */
  lemma DropTwice(c: Cache, a: set<EId>, b: set<EId>)
    ensures Drop(Drop(c, a), b) == Drop(c, a + b)
  {
    forall r | r in c.rings ensures Drop(Drop(c, a), b).rings[r] == Drop(c, a + b).rings[r] {
      KeepTwice(c.rings[r], a, b);
    }
    assert Drop(Drop(c, a), b).rings == Drop(c, a + b).rings;
    assert c.entries - a - b == c.entries - (a + b);
  }

  /** Along a ring, the search finds the most recent matching member, if there is one. */
  lemma {:induction false} FindRecent(entries: map<EId, Entry>, s: seq<EId>, parent: VId, name: Name)
    requires Recent(s)
    ensures var r := Find(entries, s, parent, name);
            && (r.Some? ==> r.value in s && r.value in entries && Matches(entries[r.value], parent, name))
            && forall e | e in s && e in entries && Matches(entries[e], parent, name) :: r.Some? && e <= r.value
  {
    if s != [] {
      assert s == [s[0]] + s[1..];
      assert forall e | e in s[1..] :: e in s && s[0] > e;
      FindRecent(entries, s[1..], parent, name);
    }
  }

  /**
   Searching the hash bucket of a name finds the same entry as searching the directory's
   child ring.
   */
  lemma BucketAgreesWithDirectory(c: Cache, parent: VId, name: Name)
    requires Consistent(c) && Children(parent) in c.rings
    ensures Bucket(c.hash(name, parent)) in c.rings
    ensures Find(c.entries, c.rings[Bucket(c.hash(name, parent))], parent, name)
         == Find(c.entries, c.rings[Children(parent)], parent, name)
  {
    assert Holds(c, Bucket(c.hash(name, parent))) && Holds(c, Children(parent));
    FindRecent(c.entries, c.rings[Bucket(c.hash(name, parent))], parent, name);
    FindRecent(c.entries, c.rings[Children(parent)], parent, name);
  }

  // ----- freeing a ring entry by entry -----

  ghost function Elems<T>(s: seq<T>): set<T>
  {
    set x | x in s
  }

  /** The cache after the first `n` entries of the ring `r` have been freed. */
  ghost function Freed(c: Cache, r: Ring, n: nat): Cache
    requires r in c.rings && n <= |c.rings[r]|
  {
    Drop(c, Elems(c.rings[r][..n]))
  }

  lemma FreedNone(c: Cache, r: Ring)
    requires Consistent(c) && r in c.rings
    ensures Freed(c, r, 0) == c
  {
    assert Elems(c.rings[r][..0]) == {};
    forall q | q in c.rings ensures Keep(c.rings[q], {}) == c.rings[q] {
      KeepNone(c.rings[q], {});
    }
    assert Drop(c, {}).rings == c.rings && c.entries - {} == c.entries;
  }

  lemma {:induction false} KeepRest(s: seq<EId>, n: nat)
    requires Recent(s) && n <= |s|
    ensures Keep(s, Elems(s[..n])) == s[n..]
  {
    var drop := Elems(s[..n]);
    if n == 0 {
      KeepNone(s, drop);
    } else {
      assert s[0] in s[..n];
      var rest, gone := s[1..], Elems(s[1..][..n - 1]);
      KeepRest(rest, n - 1);
      assert drop == gone + {s[0]} by {
        assert s[..n] == [s[0]] + rest[..n - 1];
      }
      assert forall x | x in rest :: x != s[0];
      KeepSame(rest, gone, drop);
    }
  }

  lemma {:induction false} KeepSame<T>(s: seq<T>, a: set<T>, b: set<T>)
    requires forall x | x in s :: x in a <==> x in b
    ensures Keep(s, a) == Keep(s, b)
  {
    if s != [] {
      assert forall x | x in s[1..] :: x in s;
      KeepSame(s[1..], a, b);
    }
  }

  /** The traversal meets the ring's entries one by one; each is still there when it is met. */
  lemma FreedNext(c: Cache, r: Ring, n: nat)
    requires Consistent(c) && r in c.rings && n < |c.rings[r]|
    ensures Freed(c, r, n).rings[r] == c.rings[r][n..]
    ensures c.rings[r][n] in Freed(c, r, n).entries
    ensures Drop(Freed(c, r, n), {c.rings[r][n]}) == Freed(c, r, n + 1)
  {
    var ring := c.rings[r];
    assert Holds(c, r);
    KeepRest(ring, n);
    assert ring[n] in ring && ring[n] !in Elems(ring[..n]);
    DropTwice(c, Elems(ring[..n]), {ring[n]});
    assert ring[..n + 1] == ring[..n] + [ring[n]];
    assert Elems(ring[..n + 1]) == Elems(ring[..n]) + {ring[n]};
  }

  /** Freeing the parent ring and then the child ring of a vnode frees all that touches it. */
  lemma FreeBothRings(c: Cache, v: VId)
    requires Consistent(c) && Parents(v) in c.rings && Children(v) in c.rings
    ensures var half := Drop(c, Elems(c.rings[Parents(v)]));
            && Children(v) in half.rings
            && Drop(half, Elems(half.rings[Children(v)])) == Drop(c, Touching(c, v))
    ensures Touching(Drop(c, Touching(c, v)), v) == {}
  {
    var up := Elems(c.rings[Parents(v)]);
    var half := Drop(c, up);
    var down := Elems(half.rings[Children(v)]);
    assert Holds(c, Parents(v)) && Holds(c, Children(v));
    DropTwice(c, up, down);
    KeepMembers(c.rings[Children(v)], up);
    assert up + down == Touching(c, v);
  }
}
