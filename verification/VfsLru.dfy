/**
 The order of the active list.  The log of touches has a vnode whenever VnodeAlloc puts it on the
 active list or RefreshLRU moves it; the list is in the order of the last touches.
 */
module VfsLru {
  import opened Lists
  import opened PathCache
  import opened VfsState
  import opened VfsNames
  import opened VfsSteps
  import opened VfsGrowth
  import opened VfsReclaim
  import opened VfsUnmount

  // ----- the log of touches -----

  /** When each vnode was touched last: its last position in the log. */
  ghost function LastOf(touches: seq<VId>): (last: map<VId, nat>)
    ensures forall v :: v in last <==> v in touches
    ensures forall v | v in last :: last[v] < |touches| && touches[last[v]] == v
    ensures forall v, k | v in last && last[v] < k < |touches| :: touches[k] != v
  {
    if touches == [] then map[]
    else
      var pre, v := touches[..|touches| - 1], touches[|touches| - 1];
      assert touches == pre + [v];
      LastOf(pre)[v := |pre|]
  }

  lemma LastOfTouch(touches: seq<VId>, v: VId)
    ensures LastOf(touches + [v]) == LastOf(touches)[v := |touches|]
  {
    assert (touches + [v])[..|touches|] == touches;
  }

  /** `list` is in the order in which its vnodes were last touched. */
  ghost predicate Ordered(list: seq<VId>, touches: seq<VId>)
  {
    && (forall v | v in list :: v in LastOf(touches))
    && (forall i, j | 0 <= i < j < |list| :: LastOf(touches)[list[i]] < LastOf(touches)[list[j]])
  }

  /** The first vnode was touched before all the others. */
  lemma OrderedHead(list: seq<VId>, touches: seq<VId>, w: VId)
    requires Ordered(list, touches) && list != [] && w in list[1..]
    ensures list[0] in LastOf(touches) && w in LastOf(touches) && LastOf(touches)[list[0]] < LastOf(touches)[w]
  {
    hide LastOf;
    var j :| 0 <= j < |list[1..]| && list[1..][j] == w;
    assert list[j + 1] == w && list[0] in list && w in list;
  }

  lemma OrderedCons(v: VId, some: seq<VId>, touches: seq<VId>)
    requires Ordered(some, touches) && v in LastOf(touches)
    requires forall w | w in some :: w in LastOf(touches) && LastOf(touches)[v] < LastOf(touches)[w]
    ensures Ordered([v] + some, touches)
  {
    hide LastOf;
    var t := [v] + some;
    assert forall i | 1 <= i < |t| :: t[i] == some[i - 1] && t[i] in some;
  }

  /** Leaving vnodes out behind the first one keeps the order. */
  lemma OrderedFirst(list: seq<VId>, some: seq<VId>, touches: seq<VId>)
    requires Ordered(list, touches) && list != [] && Ordered(some, touches) && forall w | w in some :: w in list[1..]
    ensures Ordered([list[0]] + some, touches)
  {
    assert list[0] in list;
    hide LastOf;
    forall w | w in some ensures w in LastOf(touches) && LastOf(touches)[list[0]] < LastOf(touches)[w] {
      OrderedHead(list, touches, w);
    }
    OrderedCons(list[0], some, touches);
  }

  lemma OrderedRest(list: seq<VId>, touches: seq<VId>)
    requires Ordered(list, touches) && list != []
    ensures Ordered(list[1..], touches)
  {
    var rest := list[1..];
    assert forall i | 0 <= i < |rest| :: rest[i] == list[i + 1];
    assert forall v | v in rest :: v in list;
  }

  lemma {:induction false} OrderedKeep(list: seq<VId>, drop: set<VId>, touches: seq<VId>)
    requires Ordered(list, touches)
    ensures Ordered(Keep(list, drop), touches)
  {
    if list != [] {
      hide Ordered;
      var rest := list[1..];
      OrderedRest(list, touches);
      OrderedKeep(rest, drop, touches);
      KeepMembers(rest, drop);
      OrderedFirst(list, Keep(rest, drop), touches);
    }
  }

  lemma {:induction false} OrderedChosen(p: Purpose, list: seq<VId>, vnodes: map<VId, Vnode>, touches: seq<VId>)
    requires Ordered(list, touches)
    ensures Ordered(Chosen(p, list, vnodes), touches)
  {
    if list != [] {
      hide Ordered;
      var rest := list[1..];
      OrderedRest(list, touches);
      OrderedChosen(p, rest, vnodes, touches);
      ChosenMembers(p, rest, vnodes);
      OrderedFirst(list, Chosen(p, rest, vnodes), touches);
    }
  }

  /**
   LRU exactness: reclaim takes the ten eligible vnodes that were touched longest ago, or all of
   them if there are fewer.
   */
  lemma VictimsOldest(s: State, touches: seq<VId>)
    requires Pool(s) && Ordered(s.active, touches)
    ensures var all := Chosen(Reclaim, s.active, s.vnodes);
            && NoDup(all) && |Victims(s)| == (if |all| < 10 then |all| else 10) && Victims(s) == all[..|Victims(s)|]
            && forall v :: v in all <==> v in s.active && v in s.vnodes && s.vnodes[v].useCount <= 0
                                         && !s.vnodes[v].flagOrigin && !s.vnodes[v].flagNew
    ensures forall v, w | v in Victims(s) && w in s.active && w in s.vnodes && s.vnodes[w].useCount <= 0
                          && !s.vnodes[w].flagOrigin && !s.vnodes[w].flagNew && w !in Victims(s) ::
              v in touches && w in touches && LastOf(touches)[v] < LastOf(touches)[w]
  {
    var all := Chosen(Reclaim, s.active, s.vnodes);
    assert Victims(s) == all[..|Victims(s)|];
    ChosenMembers(Reclaim, s.active, s.vnodes);
    OrderedChosen(Reclaim, s.active, s.vnodes, touches);
    hide Ordered, Chosen;
    forall v, w | v in Victims(s) && w in s.active && Eligible(s.vnodes[w]) && w !in Victims(s)
      ensures v in touches && w in touches && LastOf(touches)[v] < LastOf(touches)[w]
    {
      assert w in all;
      OrderedParts(all, |Victims(s)|, v, w, touches);
    }
  }

  lemma OrderedParts(all: seq<VId>, n: nat, v: VId, w: VId, touches: seq<VId>)
    requires Ordered(all, touches) && n <= |all| && v in all[..n] && w in all && w !in all[..n]
    ensures v in touches && w in touches && LastOf(touches)[v] < LastOf(touches)[w]
  {
    var i: nat :| i < n && all[i] == v;
    var j: nat :| j < |all| && all[j] == w;
    assert j >= n;
  }

  lemma OrderedTouch(list: seq<VId>, v: VId, touches: seq<VId>)
    requires Ordered(list, touches) && v !in list
    ensures Ordered(list + [v], touches + [v])
  {
    LastOfTouch(touches, v);
  }

  lemma {:induction false} FreeManyOrdered(s: State, vs: seq<VId>, touches: seq<VId>)
    requires Ordered(s.active, touches)
    ensures Ordered(FreeMany(s, vs).active, touches)
    decreases |vs|
  {
    if vs != [] {
      FreeManyOrdered(s, vs[..|vs| - 1], touches);
      OrderedKeep(FreeMany(s, vs[..|vs| - 1]).active, {vs[|vs| - 1]}, touches);
    }
  }

  /** Whatever reclaim took away, the active list stays in the order of the last touches. */
  lemma ObtainedOrdered(s: State, t: State, r: Option<VId>, memory: bool, touches: seq<VId>)
    requires Ordered(s.active, touches) && Obtained(s, t, r, memory)
    ensures Ordered(t.active, touches)
  {
    FreeManyOrdered(Missed(s), Victims(Missed(s)), touches);
  }

  /** What VnodeAlloc has achieved once the vnode it obtained is attached. */
  lemma ObtainedValid(fs: Fs, s: State, u: State, r: Option<VId>, dev: bool, memory: bool, touches: seq<VId>)
    requires Valid(fs, s) && Obtained(s, u, r, memory) && Ordered(s.active, touches)
    ensures var t := if r.Some? then Attach(u, r.value, dev) else u;
            && Allocates(s, t, r, dev, memory) && Valid(fs, t)
            && (r.Some? ==> GotVnode(fs, s, t, r.value) && (r.value in t.virt <==> dev))
            && (r.None? <==> Exhausted(s) && (s.total == MAX_VNODE_SIZE || !memory)) && (r.None? ==> t == Missed(s))
            && NamesOf(t) == (if dev && r.Some? then Grown(NamesOf(s), r.value) else NamesOf(s))
    ensures Ordered(u.active, touches)
    ensures r.Some? && dev ==> Attach(u, r.value, dev).active == u.active
    ensures r.Some? && !dev ==> Ordered(u.active + [r.value], touches + [r.value])
  {
    ObtainedOrdered(s, u, r, memory, touches);
    if r.Some? {
      AttachAllocates(s, u, r.value, dev, memory);
      AllocSucceeds(fs, s, Attach(u, r.value, dev), r.value, dev, memory);
      AllocValid(fs, s, Attach(u, r.value, dev), r, dev, memory);
      if !dev {
        LastIsNew(u.active, r.value);
        OrderedTouch(u.active, r.value, touches);
      }
    } else {
      AllocValid(fs, s, u, r, dev, memory);
    }
  }

  lemma LastIsNew<T>(s: seq<T>, x: T)
    requires NoDup(s + [x])
    ensures x !in s
  {
    assert forall i | 0 <= i < |s| :: (s + [x])[i] == s[i];
    assert (s + [x])[|s|] == x;
  }

  lemma UnmountOrdered(s: State, t: State, m: MId, ok: bool, touches: seq<VId>)
    requires Ordered(s.active, touches) && FreedAll(s, t, m, ok)
    ensures Ordered(t.active, touches)
  {
    var n: nat :| StopsAt(s, m, n) && t == FreeMany(s, Passed(Unmount(m), s, n)) && (ok <==> n == |s.active|);
    FreeManyOrdered(s, Passed(Unmount(m), s, n), touches);
  }

  lemma ClearLeaves(fs: Fs, s: State, touches: seq<VId>)
    requires Valid(fs, s) && Ordered(s.active, touches)
    ensures var t := FreeMany(s, Chosen(Reclaim, s.active, s.vnodes));
            && Valid(fs, t) && NamesOf(t) == NamesOf(s) && Ordered(t.active, touches)
            && forall v | v in t.active && v in t.vnodes :: !Eligible(t.vnodes[v])
  {
    var all := Chosen(Reclaim, s.active, s.vnodes);
    var t := FreeMany(s, all);
    ChosenMembers(Reclaim, s.active, s.vnodes);
    FreeManyExact(fs, s, all);
    FreeManyOrdered(s, all, touches);
    forall v | v in t.active && v in t.vnodes ensures !Eligible(t.vnodes[v]) {
      assert Live(s, v) && Intact(s, t, v);
    }
  }

  lemma FreeActive(fs: Fs, s: State, v: VId, touches: seq<VId>)
    requires Valid(fs, s) && v in s.active && v in s.vnodes && !s.vnodes[v].flagNew && !s.vnodes[v].flagOrigin
    requires Ordered(s.active, touches)
    ensures Valid(fs, FreeVnode(s, v)) && NamesOf(FreeVnode(s, v)) == NamesOf(s)
    ensures Ordered(FreeVnode(s, v).active, touches)
  {
    UnflaggedNoMountEnd(fs, s, v);
    FreeNames(fs, s, v);
    OrderedKeep(s.active, {v}, touches);
  }

  /** The vnode touched last is the last of the list. */
  lemma TouchedLast(list: seq<VId>, touches: seq<VId>)
    requires Ordered(list, touches) && touches != [] && touches[|touches| - 1] in list
    ensures list[|list| - 1] == touches[|touches| - 1]
  {
    var v := touches[|touches| - 1];
    var i: nat :| i < |list| && list[i] == v;
    assert LastOf(touches)[v] == |touches| - 1;
    if i < |list| - 1 {
      assert list[|list| - 1] in list;
    }
  }
}
