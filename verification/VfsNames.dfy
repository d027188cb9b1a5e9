/**
 What the names mean: the namespace that the file systems, the devfs directories and the
 mounts define, and the agreement of the path cache with it.
 */
module VfsNames {
  import opened Fnv
  import opened PathCache
  import opened VfsState

  /** The identity of a file: an inode of a mounted file system, or a devfs vnode itself. */
  datatype File = Inode(mount: MId, ino: Word) | Device(vnode: VId)

  /** A file system as its Lookup sees it, and whether the caller may search a directory. */
  datatype Fs = Fs(lookup: (MId, Word, Name) -> Option<Word>, kind: (MId, Word) -> VType, exec: File -> bool)

  function FileOf(s: State, v: VId): File
  {
    if v !in s.vnodes || s.vnodes[v].dev || s.vnodes[v].origin.None? then Device(v)
    else Inode(s.vnodes[v].origin.value, s.vnodes[v].hash)
  }

  /** Vnodes that stand for a file: all but those just allocated and not yet filled in. */
  predicate Named(s: State, v: VId)
  {
    v in s.virt || v in s.hashed
  }

  /** An entry under a devfs directory leads to a devfs vnode; any other is what Lookup says. */
  ghost predicate Agrees(fs: Fs, s: State, x: Entry)
    requires Pool(s) && Hashed(s)
  {
    if x.parent in s.virt then x.child in s.virt
    else
      && x.parent in s.hashed && x.child in s.hashed
      && s.vnodes[x.child].origin == s.vnodes[x.parent].origin
      && fs.lookup(s.vnodes[x.parent].origin.value, s.vnodes[x.parent].hash, x.name) == Some(s.vnodes[x.child].hash)
  }

  ghost predicate Coherent(fs: Fs, s: State)
    requires Pool(s) && Hashed(s)
  {
    && (forall e | e in s.cache.entries :: Agrees(fs, s, s.cache.entries[e]))
    && (forall v | v in s.hashed :: s.vnodes[v].kind == fs.kind(s.vnodes[v].origin.value, s.vnodes[v].hash))
  }

  ghost predicate MountOk(s: State, m: MId)
    requires Pool(s) && Hashed(s) && m in s.mounts
  {
    var x := s.mounts[m];
    && Named(s, x.beCovered) && Named(s, x.covered)
    && s.vnodes[x.beCovered].flagOrigin && s.vnodes[x.beCovered].newMount == Some(m)
    && (x.covered in s.virt || s.vnodes[x.covered].flagNew)
  }

  /** Mount points and mounts refer to each other; a mounted root is flagged against reclaim. */
  ghost predicate Mounted(s: State)
    requires Pool(s) && Hashed(s)
  {
    && (forall m {:trigger MountOk(s, m)} | m in s.mounts :: MountOk(s, m))
    && (forall v | Live(s, v) && s.vnodes[v].flagOrigin ::
          var n := s.vnodes[v].newMount; n.Some? && n.value in s.mounts && s.mounts[n.value].beCovered == v)
  }

  /** All that the vnode layer keeps true between its operations. */
  ghost predicate Valid(fs: Fs, s: State)
  {
    Pool(s) && Cached(s) && Hashed(s) && Coherent(fs, s) && Mounted(s)
  }

  // ----- the namespace -----

  /** The entries of a devfs directory, which is nothing but its child ring. */
  ghost function Kids(c: Cache, d: VId): seq<Entry>
    requires Children(d) in c.rings
  {
    var ring := c.rings[Children(d)];
    seq(|ring|, i requires 0 <= i < |ring| => if ring[i] in c.entries then c.entries[ring[i]] else Entry(d, d, []))
  }

  /** The part of the namespace that lives in the vnode layer: devfs and the mounts. */
  datatype Names = Names(kids: map<VId, seq<Entry>>, kinds: map<VId, VType>, mounts: map<MId, (File, File)>)

  ghost function KidsMap(c: Cache, virt: seq<VId>): map<VId, seq<Entry>>
    requires forall d | d in virt :: Children(d) in c.rings
  {
    map d | d in virt :: Kids(c, d)
  }

  ghost function KindMap(vnodes: map<VId, Vnode>, virt: seq<VId>): map<VId, VType>
    requires forall d | d in virt :: d in vnodes
  {
    map d | d in virt :: vnodes[d].kind
  }

  ghost function MountMap(s: State): map<MId, (File, File)>
  {
    map m | m in s.mounts :: (FileOf(s, s.mounts[m].beCovered), FileOf(s, s.mounts[m].covered))
  }

  ghost function NamesOf(s: State): Names
    requires Pool(s) && Cached(s)
  {
    Names(KidsMap(s.cache, s.virt), KindMap(s.vnodes, s.virt), MountMap(s))
  }

  /** The namespace with one more devfs vnode, which has neither a name nor entries yet. */
  ghost function Grown(names: Names, v: VId): Names
  {
    names.(kids := names.kids[v := []], kinds := names.kinds[v := Unknown])
  }

  function FirstKid(kids: seq<Entry>, name: Name): Option<VId>
  {
    if kids == [] then None
    else if kids[0].name == name then Some(kids[0].child)
    else FirstKid(kids[1..], name)
  }

  /** The directory entry `name` of `f`, if there is one. */
  ghost function Child(fs: Fs, names: Names, f: File, name: Name): Option<File>
  {
    match f
    case Inode(m, i) =>
      (match fs.lookup(m, i, name)
       case None => None
       case Some(j) => Some(Inode(m, j)))
    case Device(d) =>
      if d !in names.kids then None else
        match FirstKid(names.kids[d], name)
        case None => None
        case Some(c) => Some(Device(c))
  }

  ghost predicate IsDir(fs: Fs, names: Names, f: File)
  {
    match f
    case Inode(m, i) => fs.kind(m, i) == Dir
    case Device(d) => d in names.kinds && names.kinds[d] == Dir
  }

  /** The root of the file system mounted on `f`, or `f` itself. */
  ghost function Cross(names: Names, f: File): File
  {
    if m :| m in names.mounts && names.mounts[m].0 == f then names.mounts[m].1 else f
  }
}
