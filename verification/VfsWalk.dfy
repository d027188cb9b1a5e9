/**
 Path names and the walk that defines what a path means, without any cache: the path is split
 at the slashes and each component is looked up in the namespace.
 */
module VfsWalk {
  import opened Fnv
  import opened PathCache
  import opened VfsState
  import opened VfsNames

  type Path = Octets

  const SLASH: Octet := 0x2f

  datatype Code = OK | ENOENT | ENOTDIR | EACCES | ENOMEM | EBUSY

  // ----- components -----

  /** The number of octets before the first slash. */
  function NameLen(p: Path): nat
    ensures NameLen(p) <= |p|
  {
    if p == [] || p[0] == SLASH then 0 else 1 + NameLen(p[1..])
  }

  /** The components of a path: the maximal runs of octets other than the slash. */
  function Split(p: Path): seq<Name>
    decreases |p|
  {
    if p == [] then []
    else if p[0] == SLASH then Split(p[1..])
    else [p[..NameLen(p)]] + Split(p[NameLen(p)..])
  }

  predicate Trailing(p: Path)
  {
    p != [] && p[|p| - 1] == SLASH
  }

  /** No component is longer than NAME_MAX. */
  predicate Short(p: Path)
  {
    forall n | n in Split(p) :: |n| <= 255
  }

  lemma {:induction false} NameEnd(p: Path, n: nat)
    requires n <= |p| && (forall i: nat | i < n :: p[i] != SLASH) && (n < |p| ==> p[n] == SLASH)
    ensures NameLen(p) == n
  {
    if n > 0 {
      NameEnd(p[1..], n - 1);
    }
  }

  lemma {:induction false} SplitSkip(p: Path, n: nat)
    requires n <= |p| && forall i: nat | i < n :: p[i] == SLASH
    ensures Split(p) == Split(p[n..])
  {
    if n > 0 {
      SplitSkip(p[1..], n - 1);
      assert p[1..][n - 1..] == p[n..];
    } else {
      assert p[0..] == p;
    }
  }

  /**
   What the components are: of nothing, none; slashes in front do not matter; a name reaches up to
   the first slash or the end.
   */
  lemma SplitLaw(name: Name, rest: Path)
    requires name != [] && 0x2f !in name
    ensures Split([]) == [] && Split([0x2f] + rest) == Split(rest)
    ensures Split(name) == [name] && Split(name + ([0x2f] + rest)) == [name] + Split(rest)
    ensures !Trailing([]) && !Trailing(rest + name) && Trailing(rest + [0x2f])
  {
    var p := name + ([0x2f] + rest);
    NameEnd(name, |name|);
    assert name[..|name|] == name && name[|name|..] == [];
    NameEnd(p, |name|);
    assert p[..|name|] == name && p[|name|..] == [0x2f] + rest && ([0x2f] + rest)[1..] == rest;
    assert (rest + name)[|rest| + |name| - 1] == name[|name| - 1];
  }

  /** The path of the given names, with `gaps[i]` slashes before the i-th name and the rest of the gaps at the end. */
  function Joined(names: seq<Name>, gaps: seq<nat>): Path
    requires |gaps| == |names| + 1
    decreases |names|
  {
    seq(gaps[0], _ => 0x2f) + if names == [] then [] else names[0] + Joined(names[1..], gaps[1..])
  }

  /** Names that can stand in a path, with a slash or more between any two. */
  predicate Joinable(names: seq<Name>, gaps: seq<nat>)
  {
    && |gaps| == |names| + 1 && (forall n | n in names :: n != [] && 0x2f !in n)
    && (forall i | 0 < i < |names| :: gaps[i] >= 1)
  }

  lemma {:induction false} SplitGap(n: nat, p: Path)
    ensures Split(seq(n, _ => 0x2f) + p) == Split(p)
  {
    SplitSkip(seq(n, _ => 0x2f) + p, n);
    assert (seq(n, _ => 0x2f as Octet) + p)[n..] == p;
  }

  lemma {:induction false} NameFirst(name: Name, p: Path)
    requires name != [] && 0x2f !in name && (p != [] ==> p[0] == 0x2f)
    ensures Split(name + p) == [name] + Split(p)
  {
    NameEnd(name + p, |name|);
    assert (name + p)[..|name|] == name && (name + p)[|name|..] == p;
  }

  /** Splitting a joined path gives the names back; slashes at its ends and doubled ones do not matter. */
  lemma {:induction false} SplitJoined(names: seq<Name>, gaps: seq<nat>)
    requires Joinable(names, gaps)
    ensures Split(Joined(names, gaps)) == names
    ensures Trailing(Joined(names, gaps)) <==> gaps[|names|] > 0
    decreases |names|
  {
    if names != [] {
      var p := Joined(names[1..], gaps[1..]);
      assert forall n | n in names[1..] :: n in names;
      SplitJoined(names[1..], gaps[1..]);
      assert names[0] in names && gaps[1..][|names| - 1] == gaps[|names|];
      if |names| > 1 {
        assert p[0] == 0x2f;
      }
      SplitGap(gaps[0], names[0] + p);
      NameFirst(names[0], p);
      JoinedEnd(names, gaps);
    } else {
      SplitGap(gaps[0], []);
      assert Joined(names, gaps) == seq(gaps[0], _ => 0x2f) + [];
    }
  }

  lemma JoinedEnd(names: seq<Name>, gaps: seq<nat>)
    requires Joinable(names, gaps) && names != []
    requires Trailing(Joined(names[1..], gaps[1..])) <==> gaps[|names|] > 0
    ensures Trailing(Joined(names, gaps)) <==> gaps[|names|] > 0
  {
    var p := Joined(names[1..], gaps[1..]);
    var path := Joined(names, gaps);
    assert names[0] in names;
    assert path == seq(gaps[0], _ => 0x2f) + (names[0] + p);
    if p == [] {
      assert path[|path| - 1] == names[0][|names[0]| - 1];
    } else {
      assert path[|path| - 1] == p[|p| - 1];
    }
  }

  /** Every path is the join of its components. */
  lemma {:induction false} JoinedSplit(p: Path) returns (gaps: seq<nat>)
    ensures Joinable(Split(p), gaps) && p == Joined(Split(p), gaps)
    decreases |p|
  {
    hide Joined;
    if p == [] {
      gaps := [0];
      JoinedNone();
    } else if p[0] == SLASH {
      var more := JoinedSplit(p[1..]);
      gaps := more[0 := more[0] + 1];
      OneMoreSlash(Split(p[1..]), more);
      assert p == [p[0]] + p[1..];
    } else {
      var n := NameLen(p);
      NameIs(p);
      var more := JoinedSplit(p[n..]);
      gaps := [0] + more;
      OneMoreName(p[..n], Split(p[n..]), more);
      assert p == p[..n] + p[n..];
    }
  }

  lemma JoinedNone()
    ensures Joined([], [0]) == []
  {
  }

  lemma OneMoreSlash(names: seq<Name>, gaps: seq<nat>)
    requires Joinable(names, gaps)
    ensures Joined(names, gaps[0 := gaps[0] + 1]) == [0x2f] + Joined(names, gaps)
    ensures Joinable(names, gaps[0 := gaps[0] + 1])
  {
    var more := gaps[0 := gaps[0] + 1];
    assert more[1..] == gaps[1..];
    assert seq(more[0], _ => 0x2f as Octet) == [0x2f] + seq(gaps[0], _ => 0x2f);
  }

  lemma OneMoreName(name: Name, names: seq<Name>, gaps: seq<nat>)
    requires Joinable(names, gaps) && name != [] && 0x2f !in name
    requires Joined(names, gaps) != [] ==> Joined(names, gaps)[0] == 0x2f
    ensures Joined([name] + names, [0] + gaps) == name + Joined(names, gaps)
    ensures Joinable([name] + names, [0] + gaps)
  {
    assert ([name] + names)[1..] == names && ([0] + gaps)[1..] == gaps;
    assert seq(0, _ => 0x2f as Octet) + (name + Joined(names, gaps)) == name + Joined(names, gaps);
    if names != [] {
      JoinedHead(names, gaps);
    }
  }

  /** Without a gap in front, the path starts with its first name. */
  lemma JoinedHead(names: seq<Name>, gaps: seq<nat>)
    requires Joinable(names, gaps) && names != []
    ensures Joined(names, gaps) != [] && (Joined(names, gaps)[0] == 0x2f <==> gaps[0] > 0)
  {
    assert names[0] in names && names[0][0] in names[0];
    if gaps[0] == 0 {
      assert Joined(names, gaps)[0] == names[0][0];
    }
  }

  lemma {:induction false} NameIs(p: Path)
    requires p != [] && p[0] != SLASH
    ensures 0 < NameLen(p) <= |p| && 0x2f !in p[..NameLen(p)] && (NameLen(p) < |p| ==> p[NameLen(p)] == 0x2f)
  {
    if |p| > 1 && p[1] != SLASH {
      NameIs(p[1..]);
      assert p[..NameLen(p)] == [p[0]] + p[1..][..NameLen(p[1..])];
    }
  }

  // ----- the walk without a cache -----

  /** A result code, and the file that the caller gets to see. */
  datatype Outcome = Outcome(code: Code, file: Option<File>)

  /**
   Follow `comps` from `f`.  Every directory on the way must be one and be searchable; a mount
   is crossed as soon as its mount point is reached.  If only the last component is missing,
   the caller gets its directory; a trailing slash asks for one directory more.
   */
  ghost function Walk(fs: Fs, names: Names, f: File, comps: seq<Name>, trailing: bool): Outcome
    decreases |comps|
  {
    if !IsDir(fs, names, f) then Denied(fs, f, ENOTDIR)
    else if comps == [] then Outcome(OK, Some(f))
    else
      var last := |comps| == 1 && !trailing;
      match Child(fs, names, f, comps[0])
      case None => if last then Outcome(ENOENT, Some(f)) else Denied(fs, f, ENOENT)
      case Some(g) =>
        var h := Cross(names, g);
        if last then Outcome(OK, Some(h))
        else if !fs.exec(h) then Outcome(EACCES, None)
        else Walk(fs, names, h, comps[1..], trailing)
  }

  /** An error before the end of the path; a directory that may not be searched hides it. */
  ghost function Denied(fs: Fs, f: File, code: Code): Outcome
  {
    Outcome(if fs.exec(f) then code else EACCES, None)
  }

  /**
   What the namespace is: for an inode, what the file system says; for a devfs vnode, the first entry
   with that name on its child ring.  A file on which one mount only sits is crossed to its root.
   */
  lemma {:induction false} NamespaceMeans(fs: Fs, names: Names, m: MId, i: Word, d: VId, f: File, name: Name)
    ensures fs.lookup(m, i, name).None? ==> Child(fs, names, Inode(m, i), name) == None
    ensures forall j | fs.lookup(m, i, name) == Some(j) :: Child(fs, names, Inode(m, i), name) == Some(Inode(m, j))
    ensures IsDir(fs, names, Inode(m, i)) <==> fs.kind(m, i) == Dir
    ensures IsDir(fs, names, Device(d)) <==> d in names.kinds && names.kinds[d] == Dir
    ensures d in names.kids ==> var kids := names.kids[d];
              if forall k | 0 <= k < |kids| :: kids[k].name != name then Child(fs, names, Device(d), name) == None
              else exists k :: 0 <= k < |kids| && kids[k].name == name && (forall j | 0 <= j < k :: kids[j].name != name)
                               && Child(fs, names, Device(d), name) == Some(Device(kids[k].child))
    ensures (forall p | p in names.mounts :: names.mounts[p].0 != f) ==> Cross(names, f) == f
    ensures forall p | p in names.mounts && names.mounts[p].0 == f ::
              (forall q | q in names.mounts && names.mounts[q].0 == f :: q == p) ==> Cross(names, f) == names.mounts[p].1
  {
    if d in names.kids {
      FirstKidIs(names.kids[d], name);
    }
  }

  /** How the state of the vnode layer makes up the namespace, and which file a vnode stands for. */
  lemma NamesMean(fs: Fs, s: State, v: VId, m: MId)
    requires Valid(fs, s)
    ensures var names := NamesOf(s);
            && (v in s.virt ==>
                  && FileOf(s, v) == Device(v) && v in s.vnodes && v in names.kinds && names.kinds[v] == s.vnodes[v].kind
                  && Children(v) in s.cache.rings && v in names.kids
                  && |names.kids[v]| == |s.cache.rings[Children(v)]|
                  && forall k | 0 <= k < |names.kids[v]| ::
                       s.cache.rings[Children(v)][k] in s.cache.entries
                       && names.kids[v][k] == s.cache.entries[s.cache.rings[Children(v)][k]])
            && (v in s.hashed ==>
                  && v in s.vnodes && s.vnodes[v].origin.Some?
                  && FileOf(s, v) == Inode(s.vnodes[v].origin.value, s.vnodes[v].hash))
            && (v !in s.virt ==> v !in names.kids && v !in names.kinds)
            && (m in names.mounts <==> m in s.mounts)
            && (m in s.mounts ==> names.mounts[m] == (FileOf(s, s.mounts[m].beCovered), FileOf(s, s.mounts[m].covered)))
  {
    hide Coherent, Mounted;
    if v in s.virt {
      assert Holds(s.cache, Children(v));
      var ring := s.cache.rings[Children(v)];
      assert forall k | 0 <= k < |ring| :: ring[k] in ring;
    }
  }

  lemma {:induction false} FirstKidIs(kids: seq<Entry>, name: Name)
    ensures if forall k | 0 <= k < |kids| :: kids[k].name != name then FirstKid(kids, name) == None
            else exists k :: 0 <= k < |kids| && kids[k].name == name && (forall j | 0 <= j < k :: kids[j].name != name)
                             && FirstKid(kids, name) == Some(kids[k].child)
  {
    if kids != [] && kids[0].name != name {
      var rest := kids[1..];
      FirstKidIs(rest, name);
      if k :| 0 <= k < |rest| && rest[k].name == name && (forall j | 0 <= j < k :: rest[j].name != name)
              && FirstKid(rest, name) == Some(rest[k].child) {
        assert kids[k + 1] == rest[k] && forall j | 1 <= j < k + 1 :: kids[j] == rest[j - 1];
      } else {
        assert forall j | 1 <= j < |kids| :: kids[j] == rest[j - 1];
      }
    }
  }

  /** The files that the components lead through from `f`, mounts crossed, as far as the walk gets. */
  ghost predicate Chain(fs: Fs, names: Names, f: File, comps: seq<Name>, files: seq<File>)
  {
    && 1 <= |files| <= |comps| + 1 && files[0] == f
    && (forall i | 0 <= i < |files| - 1 ::
          && IsDir(fs, names, files[i]) && (i > 0 ==> fs.exec(files[i]))
          && Child(fs, names, files[i], comps[i]).Some?
          && files[i + 1] == Cross(names, Child(fs, names, files[i], comps[i]).value))
  }

  /**
   What the outcome of a walk means.  The walk ends at the file `h` that `k` components lead to.  A
   last component without a slash behind it is all right, whatever it is.  Other files must be
   searchable (EACCES; the first one only if something else is wrong with it) and directories
   (ENOTDIR); then the walk is at its end, or the next component does not exist (ENOENT), where the
   last one without a slash behind it leaves its directory as the result.
   */
  lemma {:induction false} WalkMeans(fs: Fs, names: Names, f: File, comps: seq<Name>, trailing: bool)
    returns (files: seq<File>)
    ensures Chain(fs, names, f, comps, files)
    ensures var k := |files| - 1;
            var h, dir, search := files[k], IsDir(fs, names, files[k]), fs.exec(files[k]);
            var walk := Walk(fs, names, f, comps, trailing);
            if k == |comps| && k > 0 && !trailing then walk == Outcome(OK, Some(h))
            else if k > 0 && !search then walk == Outcome(EACCES, None)
            else if !dir then walk == Outcome(if search then ENOTDIR else EACCES, None)
            else if k == |comps| then walk == Outcome(OK, Some(h))
            else
              && Child(fs, names, h, comps[k]).None?
              && walk == if k == |comps| - 1 && !trailing then Outcome(ENOENT, Some(h))
                         else Outcome(if search then ENOENT else EACCES, None)
    decreases |comps|
  {
    files := [f];
    if IsDir(fs, names, f) && comps != [] && Child(fs, names, f, comps[0]).Some? {
      var h := Cross(names, Child(fs, names, f, comps[0]).value);
      if (|comps| == 1 && !trailing) || !fs.exec(h) {
        files := [f, h];
      } else {
        hide Child, Cross, IsDir;
        var more := WalkMeans(fs, names, h, comps[1..], trailing);
        files := [f] + more;
        ChainLonger(fs, names, f, comps, h, more);
      }
    }
  }

  lemma ChainLonger(fs: Fs, names: Names, f: File, comps: seq<Name>, h: File, files: seq<File>)
    requires comps != [] && Chain(fs, names, h, comps[1..], files) && IsDir(fs, names, f) && fs.exec(h)
    requires Child(fs, names, f, comps[0]).Some? && h == Cross(names, Child(fs, names, f, comps[0]).value)
    ensures Chain(fs, names, f, comps, [f] + files)
  {
    hide Child, Cross, IsDir;
  }

  // ----- vnodes and files -----

  /** A file has at most one vnode. */
  lemma FileInjective(s: State, v: VId, w: VId)
    requires Pool(s) && Hashed(s) && Named(s, v) && Named(s, w) && FileOf(s, v) == FileOf(s, w)
    ensures v == w
  {
  }

  lemma FilesApart(s: State, v: VId, w: VId)
    requires Pool(s) && Hashed(s) && v in s.hashed && w in s.hashed && v != w
    ensures FileOf(s, v) != FileOf(s, w)
  {
  }

  /** ConvertVnodeIfMounted */
  function Converted(s: State, v: VId): VId
  {
    if v in s.vnodes && s.vnodes[v].flagOrigin && s.vnodes[v].newMount.Some?
       && s.vnodes[v].newMount.value in s.mounts
    then s.mounts[s.vnodes[v].newMount.value].covered else v
  }

  /** Stepping from a mount point vnode to the mounted root is crossing the mount. */
  lemma ConvertCrosses(fs: Fs, s: State, v: VId)
    requires Valid(fs, s) && Named(s, v)
    ensures Named(s, Converted(s, v))
    ensures FileOf(s, Converted(s, v)) == Cross(NamesOf(s), FileOf(s, v))
  {
    var names, f := NamesOf(s), FileOf(s, v);
    forall m | m in names.mounts && names.mounts[m].0 == f
      ensures s.vnodes[v].flagOrigin && s.vnodes[v].newMount == Some(m)
    {
      assert MountOk(s, m);
      FileInjective(s, v, s.mounts[m].beCovered);
    }
    if s.vnodes[v].flagOrigin {
      var m := s.vnodes[v].newMount.value;
      assert MountOk(s, m);
      assert names.mounts[m].0 == f;
    }
  }

  lemma {:induction false} FirstKidFound(c: Cache, ring: seq<EId>, kids: seq<Entry>, d: VId, name: Name)
    requires |ring| == |kids|
    requires forall i | 0 <= i < |ring| :: ring[i] in c.entries && c.entries[ring[i]] == kids[i] && kids[i].parent == d
    ensures var found := Find(c.entries, ring, d, name);
            && (found.None? <==> FirstKid(kids, name).None?)
            && (found.Some? ==> found.value in c.entries && FirstKid(kids, name) == Some(c.entries[found.value].child))
  {
    if ring != [] {
      FirstKidFound(c, ring[1..], kids[1..], d, name);
    }
  }

  /** In a devfs directory, the cache search is the directory search. */
  lemma KidsFound(s: State, d: VId, name: Name)
    requires Pool(s) && Cached(s) && d in s.virt
    ensures var found := Find(s.cache.entries, s.cache.rings[Children(d)], d, name);
            && (found.None? <==> FirstKid(NamesOf(s).kids[d], name).None?)
            && (found.Some? ==> found.value in s.cache.entries)
            && (found.Some? ==> FirstKid(NamesOf(s).kids[d], name) == Some(s.cache.entries[found.value].child))
  {
    assert Holds(s.cache, Children(d));
    var ring := s.cache.rings[Children(d)];
    assert forall i | 0 <= i < |ring| :: ring[i] in ring;
    FirstKidFound(s.cache, ring, Kids(s.cache, d), d, name);
  }

  /** A directory vnode is a directory of the namespace. */
  lemma DirKinds(fs: Fs, s: State, v: VId)
    requires Valid(fs, s) && Named(s, v)
    ensures s.vnodes[v].kind == Dir <==> IsDir(fs, NamesOf(s), FileOf(s, v))
  {
  }

  /**
   A cache hit is right: the cached vnode is the file that the namespace has under that name.
   In a devfs directory a miss is right as well.
   */
  lemma CacheIsRight(fs: Fs, s: State, v: VId, name: Name)
    requires Valid(fs, s) && Named(s, v)
    ensures var found := Find(s.cache.entries, s.cache.rings[Children(v)], v, name);
            && (found.Some? ==>
                  && found.value in s.cache.entries && Named(s, s.cache.entries[found.value].child)
                  && Child(fs, NamesOf(s), FileOf(s, v), name) == Some(FileOf(s, s.cache.entries[found.value].child)))
            && (found.None? && v in s.virt ==> Child(fs, NamesOf(s), FileOf(s, v), name).None?)
  {
    assert Holds(s.cache, Children(v));
    FindRecent(s.cache.entries, s.cache.rings[Children(v)], v, name);
    var found := Find(s.cache.entries, s.cache.rings[Children(v)], v, name);
    if found.Some? {
      assert Agrees(fs, s, s.cache.entries[found.value]);
    }
    if v in s.virt {
      KidsFound(s, v, name);
    }
  }
}
