/** Freeing the vnodes of a mount that goes: VnodeInUseIter, then VnodeFreeAll. */
module VfsUnmount {
  import opened PathCache
  import opened VfsState
  import opened VfsNames
  import opened VfsReclaim

  predicate Blocks(m: MId, x: Vnode)
  {
    x.origin == Some(m) && (x.useCount > 0 || x.flagOrigin)
  }

  /** What VnodeInUseIter looks for. */
  predicate InUse(s: State, m: MId)
  {
    exists v :: v in s.active && v in s.vnodes && Blocks(m, s.vnodes[v])
  }

  /** The mount is in use exactly if a vnode of it is referred to or is a mount point. */
  lemma InUseMeans(s: State, m: MId)
    ensures InUse(s, m) <==> exists v :: v in s.active && v in s.vnodes && s.vnodes[v].origin == Some(m)
                                         && (s.vnodes[v].useCount > 0 || s.vnodes[v].flagOrigin)
  {
    if InUse(s, m) {
      var v :| v in s.active && v in s.vnodes && Blocks(m, s.vnodes[v]);
    }
    if v :| v in s.active && v in s.vnodes && s.vnodes[v].origin == Some(m)
            && (s.vnodes[v].useCount > 0 || s.vnodes[v].flagOrigin) {
      assert Blocks(m, s.vnodes[v]);
    }
  }

  /** What makes VnodeFreeAll give up. */
  predicate Busy(m: MId, x: Vnode)
  {
    x.origin == Some(m) && !x.flagNew && x.useCount > 0
  }

  /** The first `n` vnodes of the active list are not busy. */
  ghost predicate NoneBusy(s: State, m: MId, n: nat)
  {
    n <= |s.active| && forall i | 0 <= i < n :: s.active[i] in s.vnodes && !Busy(m, s.vnodes[s.active[i]])
  }

  /** The first busy vnode of the active list is at `n`, or `n` is the end of the list. */
  ghost predicate StopsAt(s: State, m: MId, n: nat)
  {
    NoneBusy(s, m, n) && (n < |s.active| ==> s.active[n] in s.vnodes && Busy(m, s.vnodes[s.active[n]]))
  }

  lemma NoneYet(s: State, m: MId)
    ensures NoneBusy(s, m, 0)
  {
  }

  lemma NextNotBusy(s: State, m: MId, n: nat)
    requires NoneBusy(s, m, n) && n < |s.active| && s.active[n] in s.vnodes
    ensures !Busy(m, s.vnodes[s.active[n]]) ==> NoneBusy(s, m, n + 1)
  {
  }

  /** VnodeFreeAll frees the mount's vnodes in list order, up to the first one in use. */
  ghost predicate FreedAll(s: State, t: State, m: MId, ok: bool)
  {
    exists n: nat :: StopsAt(s, m, n) && t == FreeMany(s, Passed(Unmount(m), s, n)) && (ok <==> n == |s.active|)
  }

  /**
   The vnodes of the mount that are not flagged as its root go to the free list, but from the first
   of them that is in use on all stay as they are; VnodeFreeAll succeeds if there is no such one.
   */
  lemma FreedAllMeans(s: State, t: State, m: MId, ok: bool)
    requires Pool(s) && FreedAll(s, t, m, ok)
    ensures ok <==> forall v | v in s.active && v in s.vnodes ::
                      !(s.vnodes[v].origin == Some(m) && !s.vnodes[v].flagNew && s.vnodes[v].useCount > 0)
    ensures forall j | 0 <= j < |s.active| && s.active[j] in s.vnodes ::
              var v, x := s.active[j], s.vnodes[s.active[j]];
              if x.origin == Some(m) && !x.flagNew
                 && (forall i | 0 <= i <= j && s.active[i] in s.vnodes ::
                       var y := s.vnodes[s.active[i]]; !(y.origin == Some(m) && !y.flagNew && y.useCount > 0))
              then v in t.free && v !in t.active
              else v in t.active && v in t.vnodes && t.vnodes[v] == x
  {
    hide FreeMany, Chosen, Pool;
    var n: nat :| StopsAt(s, m, n) && t == FreeMany(s, Passed(Unmount(m), s, n)) && (ok <==> n == |s.active|);
    if n < |s.active| {
      assert Busy(m, s.vnodes[s.active[n]]);
    }
    hide Passed;
    forall j | 0 <= j < |s.active| && s.active[j] in s.vnodes
      ensures var v, x := s.active[j], s.vnodes[s.active[j]];
              if j < n && x.origin == Some(m) && !x.flagNew then v in t.free && v !in t.active
              else v in t.active && v in t.vnodes && t.vnodes[v] == x
    {
      FreedUpTo(s, m, n, j);
    }
  }

  lemma FreedUpTo(s: State, m: MId, n: nat, j: nat)
    requires Pool(s) && NoneBusy(s, m, n) && j < |s.active| && s.active[j] in s.vnodes
    ensures var v, t := s.active[j], FreeMany(s, Passed(Unmount(m), s, n));
            if j < n && s.vnodes[v].origin == Some(m) && !s.vnodes[v].flagNew then v in t.free && v !in t.active
            else v in t.active && v in t.vnodes && t.vnodes[v] == s.vnodes[v]
  {
    PassedPool(Unmount(m), s, n);
    ChosenMembers(Unmount(m), s.active[..n], s.vnodes);
    FreeManyPool(s, Passed(Unmount(m), s, n));
    hide FreeMany, Chosen;
    if j < n {
      assert s.active[..n][j] == s.active[j];
      assert !Busy(m, s.vnodes[s.active[j]]);
    }
  }

  /** Nothing leads to the vnode any more, neither a name nor the vnode hash. */
  ghost predicate Forgotten(s: State, v: VId)
  {
    && v in s.free && v !in s.active && v !in s.virt && v !in s.hashed
    && forall e | e in s.cache.entries :: s.cache.entries[e].parent != v && s.cache.entries[e].child != v
  }

  lemma NotInUseDoomed(s: State, m: MId)
    requires Pool(s) && !InUse(s, m)
    ensures Doomed(s, Chosen(Unmount(m), s.active, s.vnodes))
  {
    ChosenMembers(Unmount(m), s.active, s.vnodes);
    forall v | v in Chosen(Unmount(m), s.active, s.vnodes) ensures Eligible(s.vnodes[v]) {
      assert !Blocks(m, s.vnodes[v]);
    }
  }

  /** Of a mount not in use, VnodeFreeAll frees all vnodes but the flagged ones. */
  lemma NotInUseChosen(s: State, m: MId)
    requires Pool(s) && !InUse(s, m)
    ensures forall v | v in s.active ::
              v in s.vnodes
              && (v in Chosen(Unmount(m), s.active, s.vnodes) <==> s.vnodes[v].origin == Some(m) && !s.vnodes[v].flagNew)
  {
    ChosenMembers(Unmount(m), s.active, s.vnodes);
    forall v | v in s.active ensures v in s.vnodes && !Blocks(m, s.vnodes[v]) {
    }
  }

  lemma ActiveVnodes(fs: Fs, s: State)
    requires Valid(fs, s)
    ensures forall v | v in s.active :: v in s.vnodes && Live(s, v)
  {
  }

  lemma FreedForgotten(fs: Fs, s: State, t: State, vs: seq<VId>, v: VId)
    requires Valid(fs, s) && FreedExactly(fs, s, t, vs) && v in vs && v in Reversed(vs)
    ensures Forgotten(t, v)
  {
    assert v in t.free;
    forall e | e in t.cache.entries ensures t.cache.entries[e].parent != v && t.cache.entries[e].child != v {
      EntriesLive(t, e);
    }
  }

  lemma {:induction false} ReversedMembers<T>(s: seq<T>)
    ensures forall x :: x in Reversed(s) <==> x in s
    decreases |s|
  {
    if s != [] {
      ReversedMembers(s[..|s| - 1]);
      assert s == s[..|s| - 1] + [s[|s| - 1]];
    }
  }

  lemma NotInUseGoes(s: State, t: State, m: MId, ok: bool)
    requires Pool(s) && !InUse(s, m) && FreedAll(s, t, m, ok)
    ensures ok && t == FreeMany(s, Chosen(Unmount(m), s.active, s.vnodes))
  {
    var n: nat :| StopsAt(s, m, n) && t == FreeMany(s, Passed(Unmount(m), s, n)) && (ok <==> n == |s.active|);
    if n < |s.active| {
      assert Blocks(m, s.vnodes[s.active[n]]);
    }
    PassedPrefix(Unmount(m), s, n);
  }

  /**
   The unmount protocol.  If the mount is not in use, VnodeFreeAll succeeds; no vnode of the
   mount stays active but its root; each vnode that went is free and forgotten, no other vnode
   has changed, and names mean what they meant.
   */
  lemma UnmountProtocol(fs: Fs, s: State, t: State, m: MId, ok: bool)
    requires Valid(fs, s) && !InUse(s, m) && FreedAll(s, t, m, ok)
    ensures ok && Valid(fs, t) && NamesOf(t) == NamesOf(s)
    ensures forall v | v in t.active :: v in t.vnodes && (t.vnodes[v].origin == Some(m) ==> t.vnodes[v].flagNew)
    ensures forall v | v in s.active ::
              if s.vnodes[v].origin == Some(m) && !s.vnodes[v].flagNew then Forgotten(t, v) else Intact(s, t, v)
  {
    NotInUseGoes(s, t, m, ok);
    var vs := Chosen(Unmount(m), s.active, s.vnodes);
    NotInUseDoomed(s, m);
    NotInUseChosen(s, m);
    ActiveVnodes(fs, s);
    FreeManyExact(fs, s, vs);
    FreedGone(fs, s, t, vs);
    hide Pool, Cached, Hashed, Coherent, Mounted, NamesOf, Forgotten, InUse, FreedAll, Chosen, Doomed, Intact, Live, FreedExactly;
  }

  /** What was freed is forgotten, and what is still active is as it was. */
  lemma FreedGone(fs: Fs, s: State, t: State, vs: seq<VId>)
    requires Valid(fs, s) && FreedExactly(fs, s, t, vs)
    ensures Valid(fs, t) && NamesOf(t) == NamesOf(s)
    ensures forall v | v in vs :: Forgotten(t, v)
    ensures forall v | v in s.active && v !in vs :: Intact(s, t, v)
    ensures forall v | v in t.active :: v in s.active && v !in vs && v in t.vnodes && v in s.vnodes && t.vnodes[v] == s.vnodes[v]
  {
    hide Pool, Cached, Hashed, Coherent, Mounted, NamesOf, Forgotten, Intact, Live;
    ReversedMembers(vs);
    ActiveVnodes(fs, s);
    forall v | v in vs ensures Forgotten(t, v) {
      FreedForgotten(fs, s, t, vs, v);
    }
    forall v | v in s.active && v !in vs ensures Intact(s, t, v) && v in t.vnodes && t.vnodes[v] == s.vnodes[v] {
      assert Live(s, v);
      IntactSame(s, t, v);
    }
  }

  /** The same in terms of the lists. */
  lemma UnmountedLists(fs: Fs, s: State, t: State, m: MId, ok: bool)
    requires Valid(fs, s) && !InUse(s, m) && FreedAll(s, t, m, ok)
    ensures forall v | v in s.active && v in s.vnodes ::
              if s.vnodes[v].origin == Some(m) && !s.vnodes[v].flagNew then v in t.free && v !in t.active && v !in t.hashed
              else v in t.active && v in t.vnodes && t.vnodes[v] == s.vnodes[v]
  {
    UnmountProtocol(fs, s, t, m, ok);
    hide Pool, Cached, Hashed, Coherent, Mounted, NamesOf, InUse, FreedAll;
    forall v | v in s.active && v in s.vnodes && !(s.vnodes[v].origin == Some(m) && !s.vnodes[v].flagNew)
      ensures v in t.active && v in t.vnodes && t.vnodes[v] == s.vnodes[v]
    {
      assert Intact(s, t, v);
      NotVirtual(fs, s, v);
    }
  }

  lemma NotVirtual(fs: Fs, s: State, v: VId)
    requires Valid(fs, s) && v in s.active
    ensures v !in s.virt
  {
  }

  lemma IntactSame(s: State, t: State, v: VId)
    requires Intact(s, t, v)
    ensures v in s.vnodes && v in t.vnodes && t.vnodes[v] == s.vnodes[v]
  {
  }

  /** A vnode of the mount in use, other than its root, makes VnodeFreeAll give up. */
  lemma BusyRefused(s: State, t: State, m: MId, ok: bool, v: VId)
    requires Pool(s) && FreedAll(s, t, m, ok) && v in s.active && v in s.vnodes
    requires s.vnodes[v].origin == Some(m) && !s.vnodes[v].flagNew && s.vnodes[v].useCount > 0
    ensures !ok && v in t.active && v in t.vnodes && t.vnodes[v] == s.vnodes[v]
  {
    var n: nat :| StopsAt(s, m, n) && t == FreeMany(s, Passed(Unmount(m), s, n)) && (ok <==> n == |s.active|);
    var i: nat :| i < |s.active| && s.active[i] == v;
    assert i >= n;
    PassedPool(Unmount(m), s, n);
    assert forall w | w in s.active[..n] :: w in s.active;
    ChosenMembers(Unmount(m), s.active[..n], s.vnodes);
    FreeManyPool(s, Passed(Unmount(m), s, n));
  }
}
