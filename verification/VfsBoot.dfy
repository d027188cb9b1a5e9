/**
 How the namespace comes about: creating and naming devfs vnodes, making them directories, and
 mounting the root of a file system.  These steps do change what names mean, in one place each.
 */
module VfsBoot {
  import opened Lists
  import opened PathCache
  import opened VfsState
  import opened VfsNames
  import opened VfsSteps
  import opened VfsGrowth

  // ----- a name for a devfs vnode -----

  /** The namespace with one more entry, at the front of its directory. */
  ghost function WithEntry(names: Names, x: Entry): Names
    requires x.parent in names.kids
  {
    names.(kids := names.kids[x.parent := [x] + names.kids[x.parent]])
  }

  lemma InsertAddsKid(c: Cache, x: Entry)
    requires Consistent(c) && Children(x.parent) in c.rings
    ensures Kids(Insert(c, x), x.parent) == [x] + Kids(c, x.parent)
  {
    assert Holds(c, Children(x.parent));
    var ring, d := c.rings[Children(x.parent)], Insert(c, x);
    assert d.rings[Children(x.parent)] == [c.serial] + ring;
    var kids := Kids(d, x.parent);
    assert |kids| == |ring| + 1 && kids[0] == x;
    forall i | 0 <= i < |ring| ensures kids[i + 1] == Kids(c, x.parent)[i] {
      assert ring[i] in ring && d.rings[Children(x.parent)][i + 1] == ring[i];
    }
    assert kids[1..] == Kids(c, x.parent);
    assert kids == [x] + kids[1..];
  }

  lemma EntryKids(c: Cache, virt: seq<VId>, x: Entry)
    requires Consistent(c) && x.parent in virt && forall d | d in virt :: Children(d) in c.rings
    ensures KidsMap(Insert(c, x), virt) == KidsMap(c, virt)[x.parent := [x] + Kids(c, x.parent)]
  {
    InsertAddsKid(c, x);
    forall d | d in virt && d != x.parent ensures Kids(Insert(c, x), d) == Kids(c, d) {
      InsertKeepsKids(c, x, d);
    }
  }

  /** Naming a devfs vnode in a devfs directory adds that name and changes no other. */
  lemma EntryValid(fs: Fs, s: State, x: Entry)
    requires Valid(fs, s) && x.parent in s.virt && x.child in s.virt
    ensures Valid(fs, CacheName(s, x)) && x.parent in NamesOf(s).kids
    ensures NamesOf(CacheName(s, x)) == WithEntry(NamesOf(s), x)
  {
    VirtualLive(s, x.parent);
    VirtualLive(s, x.child);
    AgreedValid(fs, s, x);
    VirtualDomains(fs, s);
    hide Pool, Hashed, Coherent, Mounted, MountMap, KidsMap, KindMap, Consistent, Insert;
    EntryKids(s.cache, s.virt, x);
    EntryParent(s.cache, s.virt, x);
  }

  lemma EntryParent(c: Cache, virt: seq<VId>, x: Entry)
    requires x.parent in virt && forall d | d in virt :: Children(d) in c.rings
    ensures x.parent in KidsMap(c, virt) && KidsMap(c, virt)[x.parent] == Kids(c, x.parent)
  {
  }

  /** The new name leads to the new vnode, and hides an older entry of the same name. */
  lemma EntryFound(fs: Fs, names: Names, x: Entry, d: VId, name: Name)
    requires x.parent in names.kids
    ensures Child(fs, WithEntry(names, x), Device(d), name)
         == if d == x.parent && name == x.name then Some(Device(x.child)) else Child(fs, names, Device(d), name)
  {
    if d == x.parent {
      assert ([x] + names.kids[d])[1..] == names.kids[d];
    }
  }

  // ----- types, mount flags -----

  /** All but the type and the mount fields. */
  predicate SameCore(x: Vnode, y: Vnode)
  {
    y.(kind := x.kind, newMount := x.newMount, flagNew := x.flagNew, flagOrigin := x.flagOrigin) == x
  }

  /** `t` differs from `s` in the types of devfs vnodes and in the mount fields of vnodes only. */
  ghost predicate Relabels(s: State, t: State)
  {
    && t == s.(vnodes := t.vnodes, mounts := t.mounts) && t.vnodes.Keys == s.vnodes.Keys
    && (forall v | v in s.vnodes :: SameCore(s.vnodes[v], t.vnodes[v]))
    && (forall v | v in s.free && v in s.vnodes :: t.vnodes[v] == s.vnodes[v])
    && (forall v | v in s.hashed && v in s.vnodes :: t.vnodes[v].kind == s.vnodes[v].kind)
  }

  lemma SameSize<K, V>(a: map<K, V>, b: map<K, V>)
    requires a.Keys == b.Keys
    ensures |a| == |b|
  {
    assert |a| == |a.Keys| && |b| == |b.Keys|;
  }

  lemma RelabelPool(s: State, t: State)
    requires Pool(s) && Relabels(s, t)
    ensures Pool(t)
  {
    SameSize(s.vnodes, t.vnodes);
  }

  lemma RelabelFile(s: State, t: State, v: VId)
    requires Relabels(s, t)
    ensures FileOf(t, v) == FileOf(s, v) && (Named(t, v) <==> Named(s, v)) && (Live(t, v) <==> Live(s, v))
  {
    assert v in s.vnodes ==> SameCore(s.vnodes[v], t.vnodes[v]);
  }

  lemma RelabelHashed(s: State, t: State)
    requires Pool(s) && Cached(s) && Hashed(s) && Relabels(s, t)
    ensures Cached(t) && Hashed(t)
  {
    RelabelCached(s, t);
    hide Cached;
    assert forall v | v in s.hashed :: SameCore(s.vnodes[v], t.vnodes[v]);
  }

  lemma RelabelCached(s: State, t: State)
    requires Cached(s) && Relabels(s, t)
    ensures Cached(t)
  {
    hide Consistent;
    forall v ensures Live(t, v) <==> Live(s, v) {
      RelabelFile(s, t, v);
    }
  }

  lemma RelabelAgrees(fs: Fs, s: State, t: State, x: Entry)
    requires Pool(s) && Hashed(s) && Pool(t) && Hashed(t) && Relabels(s, t) && Agrees(fs, s, x)
    ensures Agrees(fs, t, x)
  {
    if x.parent !in s.virt {
      assert SameCore(s.vnodes[x.parent], t.vnodes[x.parent]) && SameCore(s.vnodes[x.child], t.vnodes[x.child]);
    }
  }

  lemma RelabelCoherent(fs: Fs, s: State, t: State)
    requires Pool(s) && Hashed(s) && Pool(t) && Hashed(t) && Coherent(fs, s) && Relabels(s, t)
    ensures Coherent(fs, t)
  {
    forall e | e in t.cache.entries ensures Agrees(fs, t, t.cache.entries[e]) {
      RelabelAgrees(fs, s, t, s.cache.entries[e]);
    }
    forall v | v in t.hashed ensures t.vnodes[v].kind == fs.kind(t.vnodes[v].origin.value, t.vnodes[v].hash) {
      assert SameCore(s.vnodes[v], t.vnodes[v]);
    }
  }

  lemma RelabelKeeps(fs: Fs, s: State, t: State)
    requires Valid(fs, s) && Relabels(s, t)
    ensures Pool(t) && Cached(t) && Hashed(t) && Coherent(fs, t)
  {
    hide Pool, Cached, Hashed, Coherent, Mounted, Relabels;
    RelabelPool(s, t);
    RelabelHashed(s, t);
    RelabelCoherent(fs, s, t);
  }

  /** The type of a devfs vnode is set. */
  function WithKind(s: State, v: VId, kind: VType): State
    requires v in s.vnodes
  {
    s.(vnodes := s.vnodes[v := s.vnodes[v].(kind := kind)])
  }

  lemma KindRelabels(s: State, v: VId, kind: VType)
    requires Pool(s) && Hashed(s) && v in s.virt
    ensures Relabels(s, WithKind(s, v, kind))
  {
    assert v !in s.active && v !in s.free && v !in s.hashed;
  }

  lemma KindMounted(s: State, v: VId, kind: VType)
    requires Pool(s) && Hashed(s) && Mounted(s) && v in s.virt
    requires Pool(WithKind(s, v, kind)) && Hashed(WithKind(s, v, kind))
    ensures Mounted(WithKind(s, v, kind))
  {
    var t := WithKind(s, v, kind);
    forall m | m in t.mounts ensures MountOk(t, m) {
      assert MountOk(s, m);
    }
    assert forall w :: Live(t, w) <==> Live(s, w);
  }

  lemma KindsUpdate(vnodes: map<VId, Vnode>, virt: seq<VId>, v: VId, x: Vnode)
    requires v in virt && forall d | d in virt :: d in vnodes
    ensures KindMap(vnodes[v := x], virt) == KindMap(vnodes, virt)[v := x.kind]
  {
  }

  lemma RelabelMounts(s: State, t: State)
    requires Relabels(s, t) && t.mounts == s.mounts
    ensures MountMap(t) == MountMap(s)
  {
    forall m | m in s.mounts ensures SameEnds(s, t, m) {
      RelabelFile(s, t, s.mounts[m].covered);
      RelabelFile(s, t, s.mounts[m].beCovered);
    }
    SameMounts(s, t);
  }

  lemma KindValid(fs: Fs, s: State, v: VId, kind: VType)
    requires Valid(fs, s) && v in s.virt
    ensures v in s.vnodes && Valid(fs, WithKind(s, v, kind))
    ensures NamesOf(WithKind(s, v, kind)) == NamesOf(s).(kinds := NamesOf(s).kinds[v := kind])
  {
    var t := WithKind(s, v, kind);
    KindRelabels(s, v, kind);
    RelabelKeeps(fs, s, t);
    KindMounted(s, v, kind);
    RelabelMounts(s, t);
    KindsUpdate(s.vnodes, s.virt, v, s.vnodes[v].(kind := kind));
    hide Coherent, Mounted, Hashed, Relabels, MountMap, KindMap, KidsMap;
  }

  // ----- mounting -----

  /** The mount `m` of the file system with the root vnode `root` covers `d`. */
  function MountOn(s: State, m: MId, d: VId, root: VId): State
    requires d in s.vnodes && root in s.vnodes
  {
    var point := s.vnodes[d := s.vnodes[d].(newMount := Some(m), flagOrigin := true)];
    s.(mounts := s.mounts[m := Mount(root, d)],
       vnodes := if s.vnodes[root].dev then point else point[root := point[root].(flagNew := true)])
  }

  lemma MountRelabels(fs: Fs, s: State, m: MId, d: VId, root: VId)
    requires Valid(fs, s) && Named(s, d) && Named(s, root)
    ensures d in s.vnodes && root in s.vnodes && Relabels(s, MountOn(s, m, d, root))
  {
    assert d in s.vnodes && root in s.vnodes && d !in s.free && root !in s.free;
    PointRelabels(s, m, d, root);
  }

  lemma PointRelabels(s: State, m: MId, d: VId, root: VId)
    requires d in s.vnodes && root in s.vnodes && d !in s.free && root !in s.free
    ensures Relabels(s, MountOn(s, m, d, root))
  {
    assert MountOn(s, m, d, root).vnodes.Keys == s.vnodes.Keys;
  }

  lemma MountStays(s: State, m: MId, d: VId, root: VId, k: MId)
    requires Pool(s) && Hashed(s) && Named(s, d) && Named(s, root) && d in s.vnodes && root in s.vnodes
    requires k in s.mounts && k != m && MountOk(s, k) && !s.vnodes[d].flagOrigin
    requires Pool(MountOn(s, m, d, root)) && Hashed(MountOn(s, m, d, root))
    ensures MountOk(MountOn(s, m, d, root), k)
  {
    hide MountOn, Pool, Hashed;
    var x := s.mounts[k];
    NamedVnode(s, x.covered);
    NamedVnode(s, x.beCovered);
    MountNamed(s, m, d, root);
    MountMounts(s, m, d, root, k);
    MountFlags(s, m, d, root, x.beCovered);
    if s.vnodes[x.covered].flagNew {
      MountNews(s, m, d, root, x.covered);
    }
    NamedVnode(MountOn(s, m, d, root), x.covered);
    NamedVnode(MountOn(s, m, d, root), x.beCovered);
  }

  lemma NamedVnode(s: State, v: VId)
    requires Pool(s) && Hashed(s) && Named(s, v)
    ensures v in s.vnodes
  {
  }

  lemma MountNews(s: State, m: MId, d: VId, root: VId, v: VId)
    requires d in s.vnodes && root in s.vnodes && v in s.vnodes && s.vnodes[v].flagNew
    ensures MountOn(s, m, d, root).vnodes[v].flagNew
  {
  }

  lemma MountMounts(s: State, m: MId, d: VId, root: VId, k: MId)
    requires d in s.vnodes && root in s.vnodes && k in s.mounts && k != m
    ensures k in MountOn(s, m, d, root).mounts && MountOn(s, m, d, root).mounts[k] == s.mounts[k]
  {
  }

  lemma MountNamed(s: State, m: MId, d: VId, root: VId)
    requires d in s.vnodes && root in s.vnodes
    ensures var t := MountOn(s, m, d, root); t.virt == s.virt && t.hashed == s.hashed
  {
  }

  lemma MountAdds(s: State, m: MId, d: VId, root: VId)
    requires Pool(s) && Hashed(s) && Named(s, d) && Named(s, root) && d in s.vnodes && root in s.vnodes
    requires Pool(MountOn(s, m, d, root)) && Hashed(MountOn(s, m, d, root))
    ensures MountOk(MountOn(s, m, d, root), m)
  {
  }

  lemma MountFlags(s: State, m: MId, d: VId, root: VId, v: VId)
    requires d in s.vnodes && root in s.vnodes && v in s.vnodes
    ensures var x, y := s.vnodes[v], MountOn(s, m, d, root).vnodes[v];
            (v != d ==> y.flagOrigin == x.flagOrigin && y.newMount == x.newMount) && (v == d ==> y.newMount == Some(m))
  {
  }

  lemma MountsOk(s: State, m: MId, d: VId, root: VId)
    requires Pool(s) && Hashed(s) && Mounted(s) && Named(s, d) && Named(s, root) && m !in s.mounts
    requires d in s.vnodes && root in s.vnodes && !s.vnodes[d].flagOrigin
    requires Pool(MountOn(s, m, d, root)) && Hashed(MountOn(s, m, d, root))
    ensures Mounted(MountOn(s, m, d, root))
  {
    var t := MountOn(s, m, d, root);
    forall k | k in t.mounts ensures MountOk(t, k) {
      if k != m {
        assert MountOk(s, k);
        MountStays(s, m, d, root, k);
      } else {
        MountAdds(s, m, d, root);
      }
    }
    forall v | Live(t, v) && t.vnodes[v].flagOrigin
      ensures var n := t.vnodes[v].newMount; n.Some? && n.value in t.mounts && t.mounts[n.value].beCovered == v
    {
      assert Live(s, v);
      MountFlags(s, m, d, root, v);
    }
  }

  lemma MountMapGrows(s: State, m: MId, d: VId, root: VId)
    requires d in s.vnodes && root in s.vnodes && Relabels(s, MountOn(s, m, d, root))
    ensures MountMap(MountOn(s, m, d, root)) == MountMap(s)[m := (FileOf(s, d), FileOf(s, root))]
  {
    var t := MountOn(s, m, d, root);
    forall v ensures FileOf(t, v) == FileOf(s, v) {
      RelabelFile(s, t, v);
    }
  }

  lemma MountKinds(s: State, m: MId, d: VId, root: VId)
    requires Pool(s) && d in s.vnodes && root in s.vnodes
    ensures MountOn(s, m, d, root).vnodes.Keys == s.vnodes.Keys
    ensures KindMap(MountOn(s, m, d, root).vnodes, s.virt) == KindMap(s.vnodes, s.virt)
  {
    var t := MountOn(s, m, d, root);
    assert t.vnodes.Keys == s.vnodes.Keys;
    assert forall v | v in s.vnodes :: t.vnodes[v].kind == s.vnodes[v].kind;
    assert forall v | v in s.virt :: v in s.vnodes;
    hide MountOn, Pool;
    SameKinds(s.vnodes, s.virt, t.vnodes, s.virt);
  }

  /** Mounting adds one mount to the namespace and changes nothing else. */
  lemma MountValid(fs: Fs, s: State, m: MId, d: VId, root: VId)
    requires Valid(fs, s) && Named(s, d) && Named(s, root) && m !in s.mounts && d in s.vnodes && !s.vnodes[d].flagOrigin
    ensures root in s.vnodes && Valid(fs, MountOn(s, m, d, root))
    ensures var names := NamesOf(s);
            NamesOf(MountOn(s, m, d, root)) == names.(mounts := names.mounts[m := (FileOf(s, d), FileOf(s, root))])
  {
    hide Pool, Cached, Hashed, Coherent, Mounted, Relabels, MountMap, KindMap, KidsMap, Named, FileOf;
    MountRelabels(fs, s, m, d, root);
    RelabelKeeps(fs, s, MountOn(s, m, d, root));
    MountsOk(s, m, d, root);
    MountMapGrows(s, m, d, root);
    MountKinds(s, m, d, root);
  }

  /** What a lookup sees of it: the mounted root instead of the mount point. */
  lemma MountCrossed(names: Names, m: MId, f: File, root: File)
    requires forall k | k in names.mounts :: names.mounts[k].0 != f
    ensures var mounted := names.(mounts := names.mounts[m := (f, root)]);
            Cross(mounted, f) == root
  {
    var mounted := names.(mounts := names.mounts[m := (f, root)]);
    assert m in mounted.mounts && mounted.mounts[m].0 == f;
  }

  // ----- the end of a mount -----

  /** The mount point is no mount point any more (ForceUmountDev); its root vnode stays flagged. */
  function MountEnded(s: State, m: MId): State
    requires m in s.mounts && s.mounts[m].beCovered in s.vnodes
  {
    var d := s.mounts[m].beCovered;
    s.(mounts := s.mounts - {m}, vnodes := s.vnodes[d := s.vnodes[d].(newMount := None, flagOrigin := false)])
  }

  lemma EndRelabels(s: State, m: MId)
    requires Pool(s) && m in s.mounts && s.mounts[m].beCovered in s.vnodes && s.mounts[m].beCovered !in s.free
    ensures Relabels(s, MountEnded(s, m))
  {
    assert MountEnded(s, m).vnodes.Keys == s.vnodes.Keys;
  }

  lemma OtherMountStays(s: State, m: MId, k: MId)
    requires Pool(s) && Hashed(s) && m in s.mounts && k in s.mounts && k != m && MountOk(s, m) && MountOk(s, k)
    requires s.mounts[m].beCovered in s.vnodes && Pool(MountEnded(s, m)) && Hashed(MountEnded(s, m))
    ensures MountOk(MountEnded(s, m), k)
  {
  }

  lemma EndMounted(s: State, m: MId)
    requires Pool(s) && Hashed(s) && Mounted(s) && m in s.mounts && s.mounts[m].beCovered in s.vnodes
    requires Pool(MountEnded(s, m)) && Hashed(MountEnded(s, m))
    ensures Mounted(MountEnded(s, m))
  {
    var t, d := MountEnded(s, m), s.mounts[m].beCovered;
    assert MountOk(s, m);
    forall k | k in t.mounts ensures MountOk(t, k) {
      assert MountOk(s, k);
      OtherMountStays(s, m, k);
    }
    forall v | Live(t, v) && t.vnodes[v].flagOrigin
      ensures var n := t.vnodes[v].newMount; n.Some? && n.value in t.mounts && t.mounts[n.value].beCovered == v
    {
      assert Live(s, v) && v != d;
    }
  }

  lemma EndMountMap(s: State, m: MId)
    requires m in s.mounts && s.mounts[m].beCovered in s.vnodes && Relabels(s, MountEnded(s, m))
    ensures MountMap(MountEnded(s, m)) == MountMap(s) - {m}
  {
    var t := MountEnded(s, m);
    forall v ensures FileOf(t, v) == FileOf(s, v) {
      RelabelFile(s, t, v);
    }
  }

  lemma EndKinds(s: State, m: MId)
    requires Pool(s) && m in s.mounts && s.mounts[m].beCovered in s.vnodes
    ensures MountEnded(s, m).vnodes.Keys == s.vnodes.Keys
    ensures KindMap(MountEnded(s, m).vnodes, s.virt) == KindMap(s.vnodes, s.virt)
  {
    var t := MountEnded(s, m);
    assert t.vnodes.Keys == s.vnodes.Keys;
    assert forall v | v in s.vnodes :: t.vnodes[v].kind == s.vnodes[v].kind;
  }

  lemma MountEndsLive(fs: Fs, s: State, m: MId)
    requires Valid(fs, s) && m in s.mounts
    ensures s.mounts[m].beCovered in s.vnodes && s.mounts[m].beCovered !in s.free
  {
    assert MountOk(s, m);
  }

  /** Ending a mount takes that one mount out of the namespace and changes nothing else. */
  lemma EndValid(fs: Fs, s: State, m: MId)
    requires Valid(fs, s) && m in s.mounts
    ensures s.mounts[m].beCovered in s.vnodes && Valid(fs, MountEnded(s, m))
    ensures NamesOf(MountEnded(s, m)) == NamesOf(s).(mounts := NamesOf(s).mounts - {m})
  {
    hide Pool, Cached, Hashed, Coherent, Mounted, Relabels, MountMap, KindMap, KidsMap, FileOf;
    MountEndsLive(fs, s, m);
    EndRelabels(s, m);
    RelabelKeeps(fs, s, MountEnded(s, m));
    EndMounted(s, m);
    EndMountMap(s, m);
    EndKinds(s, m);
  }

  // ----- the end of a devfs vnode -----

  function WithoutChild(kids: seq<Entry>, v: VId): seq<Entry>
  {
    if kids == [] then []
    else (if kids[0].child == v then [] else [kids[0]]) + WithoutChild(kids[1..], v)
  }

  /** The namespace without the devfs vnode `v`, its entries, and the names that led to it. */
  ghost function Without(names: Names, v: VId): Names
  {
    Names(map d | d in names.kids && d != v :: WithoutChild(names.kids[d], v), names.kinds - {v}, names.mounts)
  }

  ghost function EntriesOf(entries: map<EId, Entry>, ring: seq<EId>): seq<Entry>
    requires forall e | e in ring :: e in entries
  {
    seq(|ring|, i requires 0 <= i < |ring| => assert ring[i] in ring; entries[ring[i]])
  }

  lemma EntriesFirst(entries: map<EId, Entry>, ring: seq<EId>)
    requires ring != [] && forall e | e in ring :: e in entries
    ensures ring[0] in entries && forall e | e in ring[1..] :: e in entries
    ensures EntriesOf(entries, ring) == [entries[ring[0]]] + EntriesOf(entries, ring[1..])
  {
    assert ring == [ring[0]] + ring[1..];
  }

  lemma {:induction false} KeepEntries(entries: map<EId, Entry>, ring: seq<EId>, es: set<EId>, v: VId)
    requires forall e | e in ring :: e in entries && (e in es <==> entries[e].child == v)
    ensures forall e | e in Keep(ring, es) :: e in entries - es
    ensures EntriesOf(entries - es, Keep(ring, es)) == WithoutChild(EntriesOf(entries, ring), v)
  {
    KeepMembers(ring, es);
    if ring != [] {
      var rest := ring[1..];
      assert ring == [ring[0]] + rest;
      KeepEntries(entries, rest, es, v);
      KeepMembers(rest, es);
      EntriesFirst(entries, ring);
      if ring[0] !in es {
        EntriesFirst(entries - es, Keep(ring, es));
        assert Keep(ring, es)[1..] == Keep(rest, es);
      }
    }
  }

  lemma KidsWithout(c: Cache, v: VId, d: VId)
    requires Consistent(c) && Children(d) in c.rings && d != v
    ensures var gone := Close(Drop(c, Touching(c, v)), v);
            Children(d) in gone.rings && Kids(gone, d) == WithoutChild(Kids(c, d), v)
  {
    assert Holds(c, Children(d));
    var ring, es := c.rings[Children(d)], Touching(c, v);
    var gone := Close(Drop(c, es), v);
    KeepEntries(c.entries, ring, es, v);
    assert forall i | 0 <= i < |ring| :: ring[i] in ring;
    assert Kids(c, d) == EntriesOf(c.entries, ring);
    assert gone.rings[Children(d)] == Keep(ring, es) && gone.entries == c.entries - es;
    assert forall i | 0 <= i < |Keep(ring, es)| :: Keep(ring, es)[i] in Keep(ring, es);
    assert Kids(gone, d) == EntriesOf(gone.entries, Keep(ring, es));
  }

  lemma FreedVirtual(s: State, v: VId)
    requires Pool(s) && v in s.virt
    ensures var t := FreeVnode(s, v);
            && (forall d :: d in t.virt <==> d in s.virt && d != v)
            && (forall d | d in s.virt && d != v :: d in t.vnodes && t.vnodes[d] == s.vnodes[d])
  {
    FreeLists(s, v);
  }

  lemma KindsWithout(vnodes: map<VId, Vnode>, virt: seq<VId>, vnodes': map<VId, Vnode>, virt': seq<VId>, v: VId)
    requires (forall d | d in virt :: d in vnodes) && (forall d | d in virt' :: d in vnodes')
    requires forall d :: d in virt' <==> d in virt && d != v
    requires forall d | d in virt' :: vnodes'[d] == vnodes[d]
    ensures KindMap(vnodes', virt') == KindMap(vnodes, virt) - {v}
  {
  }

  lemma KidsMapWithout(c: Cache, virt: seq<VId>, c': Cache, virt': seq<VId>, v: VId)
    requires (forall d | d in virt :: Children(d) in c.rings) && (forall d | d in virt' :: Children(d) in c'.rings)
    requires forall d :: d in virt' <==> d in virt && d != v
    requires forall d | d in virt' :: Kids(c', d) == WithoutChild(Kids(c, d), v)
    ensures var kids := KidsMap(c, virt);
            KidsMap(c', virt') == map d | d in kids && d != v :: WithoutChild(kids[d], v)
  {
    hide Kids, WithoutChild;
  }

  /** Freeing a devfs vnode that is no end of a mount takes it and its names out of the namespace. */
  lemma FreeVirtualValid(fs: Fs, s: State, v: VId)
    requires Valid(fs, s) && v in s.virt && v in s.vnodes && NoMountEnd(s, v)
    ensures Valid(fs, FreeVnode(s, v)) && NamesOf(FreeVnode(s, v)) == Without(NamesOf(s), v)
  {
    hide Pool, Cached, Hashed, Coherent, Mounted, Kids, MountMap, Shrinks, KindMap, KidsMap, FreeVnode, WithoutChild,
         NoMountEnd, Live;
    VirtualLive(s, v);
    FreeValid(fs, s, v);
    FreeShrinks(fs, s, v);
    var t := FreeVnode(s, v);
    ShrinkMounts(s, t);
    FreedVirtual(s, v);
    VirtualKids(fs, s, v);
    VirtualDomains(fs, s);
    VirtualDomains(fs, t);
    KindsWithout(s.vnodes, s.virt, t.vnodes, t.virt, v);
    KidsMapWithout(s.cache, s.virt, t.cache, t.virt, v);
  }

  lemma VirtualLive(s: State, v: VId)
    requires v in s.virt
    ensures Live(s, v)
  {
  }

  lemma VirtualDomains(fs: Fs, s: State)
    requires Valid(fs, s)
    ensures forall d | d in s.virt :: d in s.vnodes && Children(d) in s.cache.rings
  {
  }

  lemma VirtualKids(fs: Fs, s: State, v: VId)
    requires Valid(fs, s) && v in s.virt && v in s.vnodes
    ensures forall d | d in s.virt && d != v ::
              Children(d) in s.cache.rings && Children(d) in FreeVnode(s, v).cache.rings
              && Kids(FreeVnode(s, v).cache, d) == WithoutChild(Kids(s.cache, d), v)
  {
    forall d | d in s.virt && d != v
      ensures Children(d) in s.cache.rings && Children(d) in FreeVnode(s, v).cache.rings
              && Kids(FreeVnode(s, v).cache, d) == WithoutChild(Kids(s.cache, d), v)
    {
      KidsWithout(s.cache, v, d);
    }
  }

  /** No list but the virtual one has the vnode, and it is counted no more. */
  lemma FreedDevice(fs: Fs, s: State, v: VId)
    requires Valid(fs, s) && v in s.virt && v in s.vnodes
    ensures FreeVnode(s, v).total == s.total - 1 && FreeVnode(s, v).active == Keep(s.active, {v})
  {
  }

  // ----- listing a devfs directory -----

  function NamesIn(kids: seq<Entry>): (names: seq<Name>)
    ensures |names| == |kids| && forall i | 0 <= i < |kids| :: names[i] == kids[i].name
  {
    seq(|kids|, i requires 0 <= i < |kids| => kids[i].name)
  }

  /** The child ring has the names of the namespace, in order. */
  lemma RingNames(fs: Fs, s: State, d: VId)
    requires Valid(fs, s) && d in s.virt
    ensures Children(d) in s.cache.rings && d in NamesOf(s).kids
    ensures var ring, kids := s.cache.rings[Children(d)], NamesIn(NamesOf(s).kids[d]);
            && |kids| == |ring|
            && forall i | 0 <= i < |ring| :: ring[i] in s.cache.entries && kids[i] == s.cache.entries[ring[i]].name
  {
    var ring := s.cache.rings[Children(d)];
    assert Holds(s.cache, Children(d));
    assert forall i | 0 <= i < |ring| :: ring[i] in ring;
  }

  /** Freeing a devfs vnode keeps the invariant exactly if the vnode is no end of a mount. */
  lemma DeviceFreed(fs: Fs, s: State, v: VId)
    requires Valid(fs, s) && v in s.virt && v in s.vnodes
    ensures Valid(fs, FreeVnode(s, v)) <==> NoMountEnd(s, v)
    ensures NoMountEnd(s, v) ==> NamesOf(FreeVnode(s, v)) == Without(NamesOf(s), v)
  {
    hide Cached, Coherent, FreeVnode, Without, NamesOf, Mounted;
    if NoMountEnd(s, v) {
      FreeVirtualValid(fs, s, v);
    } else {
      var m :| m in s.mounts && (s.mounts[m].covered == v || s.mounts[m].beCovered == v);
      DanglingMount(fs, s, v, m);
    }
  }

  /** A mount whose end is freed dangles. */
  lemma DanglingMount(fs: Fs, s: State, v: VId, m: MId)
    requires Valid(fs, s) && v in s.virt && v in s.vnodes
    requires m in s.mounts && (s.mounts[m].covered == v || s.mounts[m].beCovered == v)
    ensures !Valid(fs, FreeVnode(s, v))
  {
    var t := FreeVnode(s, v);
    FreeLists(s, v);
    assert v !in t.virt && v !in t.hashed;
    if Valid(fs, t) {
      EndsNamed(fs, t, m);
    }
  }

  lemma EndsNamed(fs: Fs, s: State, m: MId)
    requires Valid(fs, s) && m in s.mounts
    ensures Named(s, s.mounts[m].covered) && Named(s, s.mounts[m].beCovered)
  {
    assert MountOk(s, m);
  }
}
