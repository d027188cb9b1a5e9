/**
 Intrusive doubly linked rings of `kernel/include/los_list.h`.

 One `LinkHeap` is the memory that holds every `LOS_DL_LIST` of a component: `A` is the
 type of the addresses, `next` and `prev` are the two link words stored there, and an
 address outside the maps holds NULL links.  A ring is one head with its members in
 `pstNext` order.  Several rings share the memory, and an operation on one of them must
 leave all the others alone.
 */
module Lists {

  function InsertAt<T>(s: seq<T>, i: nat, x: T): seq<T>
    requires i <= |s|
  {
    s[..i] + [x] + s[i..]
  }

  function RemoveAt<T>(s: seq<T>, i: nat): seq<T>
    requires i < |s|
  {
    s[..i] + s[i + 1..]
  }

  lemma TakeNext<T>(s: seq<T>, n: nat)
    requires n <= |s|
    ensures s[..|s|] == s
    ensures n < |s| ==> s[..n] + [s[n]] == s[..n + 1]
  {
  }

  /** The elements of `s` outside `drop`, in order. */
  function Keep<T>(s: seq<T>, drop: set<T>): seq<T>
  {
    if s == [] then [] else if s[0] in drop then Keep(s[1..], drop) else [s[0]] + Keep(s[1..], drop)
  }

  lemma Regroup<T>(a: seq<T>, b: seq<T>, c: seq<T>)
    ensures (a + b) + c == a + (b + c)
  {
  }

  lemma KeepFirst<T>(x: T, s: seq<T>, drop: set<T>)
    ensures Keep([x] + s, drop) == (if x in drop then [] else [x]) + Keep(s, drop)
  {
    assert ([x] + s)[1..] == s;
  }

  lemma {:induction false} KeepAppend<T>(s: seq<T>, t: seq<T>, drop: set<T>)
    ensures Keep(s + t, drop) == Keep(s, drop) + Keep(t, drop)
  {
    if s == [] {
      assert s + t == t;
    } else {
      hide Keep;
      var head := if s[0] in drop then [] else [s[0]];
      KeepAppend(s[1..], t, drop);
      KeepFirst(s[0], s[1..], drop);
      KeepFirst(s[0], s[1..] + t, drop);
      assert [s[0]] + s[1..] == s;
      assert [s[0]] + (s[1..] + t) == s + t;
      Regroup(head, Keep(s[1..], drop), Keep(t, drop));
    }
  }

  /** What a deleting traversal has left of `s` after its first `n` items. */
  ghost function Left<T>(s: seq<T>, n: nat, drop: set<T>): seq<T>
    requires n <= |s|
  {
    Keep(s[..n], drop) + s[n..]
  }

  /** While the position is inside of what is left, the traversal has items to come. */
  lemma LeftMore<T>(s: seq<T>, n: nat, drop: set<T>)
    requires n <= |s| && |Keep(s[..n], drop)| < |Left(s, n, drop)|
    ensures n < |s|
  {
  }

  lemma LeftEnds<T>(s: seq<T>, drop: set<T>)
    ensures Left(s, 0, drop) == s && Left(s, |s|, drop) == Keep(s, drop)
  {
    assert s[..|s|] == s && s[0..] == s;
  }

  lemma LeftStep<T>(s: seq<T>, n: nat, drop: set<T>)
    requires n < |s|
    ensures var k := |Keep(s[..n], drop)|;
            && |Left(s, n, drop)| == k + |s| - n && Left(s, n, drop)[k] == s[n]
            && (k + 1 < |Left(s, n, drop)| <==> n + 1 < |s|)
            && (n + 1 < |s| ==> Left(s, n, drop)[k + 1] == s[n + 1])
            && Left(s, n + 1, drop) == if s[n] in drop then RemoveAt(Left(s, n, drop), k) else Left(s, n, drop)
  {
    KeepAppend(s[..n], [s[n]], drop);
    KeepOnly(s[n], drop);
    hide Keep, RemoveAt;
    assert s[..n + 1] == s[..n] + [s[n]] && s[n..] == [s[n]] + s[n + 1..];
    Middle(Keep(s[..n], drop), s[n], s[n + 1..]);
  }

  lemma KeepOnly<T>(x: T, drop: set<T>)
    ensures Keep([x], drop) == if x in drop then [] else [x]
  {
  }

  /** An item in the middle of a list: where it is, and the list without it. */
  lemma Middle<T>(a: seq<T>, x: T, b: seq<T>)
    ensures var s := a + ([x] + b);
            && |s| == |a| + 1 + |b| && s[|a|] == x && RemoveAt(s, |a|) == a + b
            && (b != [] ==> s[|a| + 1] == b[0])
    ensures (a + [x]) + b == a + ([x] + b) && a + [] == a
  {
  }

  /** The elements of `s` in `take`, the last one first: what moving them one by one to a head yields. */
  ghost function Taken<T>(s: seq<T>, take: set<T>): seq<T>
  {
    if s == [] then []
    else (if s[|s| - 1] in take then [s[|s| - 1]] else []) + Taken(s[..|s| - 1], take)
  }

  lemma MoveStart<T>(ring: seq<T>, onto: seq<T>, doomed: set<T>)
    ensures Left(ring, 0, doomed) == ring && Taken(ring[..0], doomed) == [] && [] + onto == onto && ring[..0] == []
  {
    LeftEnds(ring, doomed);
  }

  lemma TakenNext<T>(s: seq<T>, n: nat, take: set<T>)
    requires n < |s|
    ensures Taken(s[..n + 1], take) == (if s[n] in take then [s[n]] else []) + Taken(s[..n], take)
  {
    assert s[..n + 1][..n] == s[..n] && s[..n + 1][n] == s[n];
  }

  /**
   Position `i` on the closed walk around the ring of `h`: the head at 0, then the members,
   then the head again.
   */
  ghost function Cell<A>(rings: map<A, seq<A>>, h: A, i: nat): A
    requires h in rings && i <= |rings[h]| + 1
  {
    if i == 0 || i == |rings[h]| + 1 then h else rings[h][i - 1]
  }

  /** No address occurs twice, neither within a ring nor in two of them. */
  ghost predicate Apart<A(!new)>(rings: map<A, seq<A>>)
  {
    forall g, h, i: nat, j: nat | g in rings && h in rings && i <= |rings[g]| && j <= |rings[h]| ::
      Cell(rings, g, i) == Cell(rings, h, j) ==> g == h && i == j
  }

  ghost predicate Joined<A>(next: map<A, A>, prev: map<A, A>, a: A, b: A)
  {
    a in next && next[a] == b && b in prev && prev[b] == a
  }

  ghost predicate JoinedAt<A>(rings: map<A, seq<A>>, h: A, next: map<A, A>, prev: map<A, A>, i: nat)
    requires h in rings && i <= |rings[h]|
  {
    Joined(next, prev, Cell(rings, h, i), Cell(rings, h, i + 1))
  }

  /** The link words along one ring agree with its walk, in both directions. */
  ghost predicate Linked<A(!new)>(rings: map<A, seq<A>>, h: A, next: map<A, A>, prev: map<A, A>)
    requires h in rings
  {
    forall i: nat | i <= |rings[h]| :: JoinedAt(rings, h, next, prev, i)
  }

  /** `a` is on no ring. */
  ghost predicate Loose<A(!new)>(rings: map<A, seq<A>>, a: A)
  {
    forall h, i: nat | h in rings && i <= |rings[h]| :: Cell(rings, h, i) != a
  }

  ghost predicate WellFormed<A(!new)>(rings: map<A, seq<A>>, next: map<A, A>, prev: map<A, A>)
  {
    && Apart(rings)
    && forall h | h in rings :: Linked(rings, h, next, prev)
  }

  lemma InitKeeps<A(!new)>(rings: map<A, seq<A>>, next: map<A, A>, prev: map<A, A>, a: A)
    requires WellFormed(rings, next, prev) && Loose(rings, a)
    ensures WellFormed(rings[a := []], next[a := a], prev[a := a])
  {
    var r, next', prev' := rings[a := []], next[a := a], prev[a := a];
    assert a in rings ==> Cell(rings, a, 0) == a;
    assert forall h, i: nat | h in rings && i <= |rings[h]| + 1 :: Cell(r, h, i) == Cell(rings, h, i);
    forall h | h in r ensures Linked(r, h, next', prev') {
      if h in rings {
        forall i: nat | i <= |r[h]|
          ensures JoinedAt(r, h, next', prev', i)
        {
          assert JoinedAt(rings, h, next, prev, i);
          assert Cell(rings, h, |rings[h]| + 1) == Cell(rings, h, 0);
        }
      }
    }
  }

  lemma RetireLinks<A(!new)>(rings: map<A, seq<A>>, next: map<A, A>, prev: map<A, A>, a: A, h: A, i: nat)
    requires WellFormed(rings, next, prev) && a in rings && rings[a] == [] && h in rings && h != a && i <= |rings[h]|
    ensures JoinedAt(rings - {a}, h, next - {a}, prev - {a}, i)
  {
    assert JoinedAt(rings, h, next, prev, i);
    assert Cell(rings, a, 0) == a;
    assert Cell(rings, h, i) != a;
    assert Cell(rings, h, |rings[h]| + 1) == Cell(rings, h, 0);
    assert Cell(rings, h, i + 1) != a;
  }

  /** A ring without members disappears with its head. */
  lemma RetireKeeps<A(!new)>(rings: map<A, seq<A>>, next: map<A, A>, prev: map<A, A>, a: A)
    requires WellFormed(rings, next, prev) && a in rings && rings[a] == []
    ensures WellFormed(rings - {a}, next - {a}, prev - {a}) && Loose(rings - {a}, a)
  {
    var r := rings - {a};
    assert Cell(rings, a, 0) == a;
    forall h, i: nat | h in r && i <= |r[h]| ensures Cell(r, h, i) == Cell(rings, h, i) != a {
    }
    forall h | h in r ensures Linked(r, h, next - {a}, prev - {a}) {
      forall i: nat | i <= |r[h]| ensures JoinedAt(r, h, next - {a}, prev - {a}, i) {
        RetireLinks(rings, next, prev, a, h, i);
      }
    }
  }

  /** Where the positions of a ring go when `node` is put behind position `i`. */
  lemma InsertCells<A(!new)>(rings: map<A, seq<A>>, h: A, i: nat, node: A, g: A, k: nat)
    requires h in rings && i <= |rings[h]| && g in rings
    requires k <= |rings[g]| + if g == h then 2 else 1
    ensures var r := rings[h := InsertAt(rings[h], i, node)];
            Cell(r, g, k) == if g != h || k <= i then Cell(rings, g, k)
                             else if k == i + 1 then node else Cell(rings, g, k - 1)
  {
  }

  lemma AddApart<A(!new)>(rings: map<A, seq<A>>, h: A, i: nat, node: A)
    requires Apart(rings) && Loose(rings, node)
    requires h in rings && i <= |rings[h]|
    ensures Apart(rings[h := InsertAt(rings[h], i, node)])
  {
    var r := rings[h := InsertAt(rings[h], i, node)];
    forall f, g, j: nat, k: nat | f in r && g in r && j <= |r[f]| && k <= |r[g]| && Cell(r, f, j) == Cell(r, g, k)
      ensures f == g && j == k
    {
      InsertCells(rings, h, i, node, f, j);
      InsertCells(rings, h, i, node, g, k);
    }
  }

  lemma AddLinks<A(!new)>(rings: map<A, seq<A>>, next: map<A, A>, prev: map<A, A>, h: A, i: nat, node: A, g: A, k: nat)
    requires WellFormed(rings, next, prev) && Loose(rings, node)
    requires h in rings && i <= |rings[h]| && g in rings
    requires k <= |rings[g]| + if g == h then 1 else 0
    ensures var r := rings[h := InsertAt(rings[h], i, node)];
            var list, after := Cell(rings, h, i), Cell(rings, h, i + 1);
            Joined(next[node := after][list := node], prev[node := list][after := node], Cell(r, g, k), Cell(r, g, k + 1))
  {
    InsertCells(rings, h, i, node, g, k);
    InsertCells(rings, h, i, node, g, k + 1);
    assert Cell(rings, g, |rings[g]| + 1) == Cell(rings, g, 0) && Cell(rings, h, |rings[h]| + 1) == Cell(rings, h, 0);
    if g != h || k < i {
      assert JoinedAt(rings, g, next, prev, k);
    } else if k > i + 1 {
      assert JoinedAt(rings, g, next, prev, k - 1);
    }
  }

  lemma AddKeeps<A(!new)>(rings: map<A, seq<A>>, next: map<A, A>, prev: map<A, A>, h: A, i: nat, node: A)
    requires WellFormed(rings, next, prev) && Loose(rings, node)
    requires h in rings && i <= |rings[h]|
    ensures var list, after := Cell(rings, h, i), Cell(rings, h, i + 1);
            WellFormed(rings[h := InsertAt(rings[h], i, node)],
                       next[node := after][list := node], prev[node := list][after := node])
  {
    var r := rings[h := InsertAt(rings[h], i, node)];
    var list, after := Cell(rings, h, i), Cell(rings, h, i + 1);
    var next', prev' := next[node := after][list := node], prev[node := list][after := node];
    AddApart(rings, h, i, node);
    forall g | g in r ensures Linked(r, g, next', prev') {
      forall k: nat | k <= |r[g]| ensures JoinedAt(r, g, next', prev', k) {
        AddLinks(rings, next, prev, h, i, node, g, k);
      }
    }
  }

  /** Unlinking a member undoes its insertion: it is loose again and the rest stays apart. */
  lemma DeleteApart<A(!new)>(r: map<A, seq<A>>, rings: map<A, seq<A>>, h: A, i: nat, node: A)
    requires Apart(rings)
    requires h in r && i <= |r[h]| && rings == r[h := InsertAt(r[h], i, node)]
    ensures Loose(r, node) && Apart(r)
  {
    forall f, j: nat | f in r && j <= |r[f]| ensures Cell(r, f, j) != node {
      InsertCells(r, h, i, node, f, if f == h && j > i then j + 1 else j);
      assert Cell(rings, h, i + 1) == node;
    }
    forall f, g, j: nat, k: nat | f in r && g in r && j <= |r[f]| && k <= |r[g]| && Cell(r, f, j) == Cell(r, g, k)
      ensures f == g && j == k
    {
      InsertCells(r, h, i, node, f, if f == h && j > i then j + 1 else j);
      InsertCells(r, h, i, node, g, if g == h && k > i then k + 1 else k);
    }
  }

  lemma DeleteLinks<A(!new)>(r: map<A, seq<A>>, rings: map<A, seq<A>>, next: map<A, A>, prev: map<A, A>,
                             h: A, i: nat, node: A, g: A, k: nat)
    requires WellFormed(rings, next, prev) && Apart(r) && Loose(r, node)
    requires h in r && i <= |r[h]| && rings == r[h := InsertAt(r[h], i, node)]
    requires g in r && k <= |r[g]|
    ensures var x, y := Cell(r, h, i), Cell(r, h, i + 1);
            Joined(next[x := y] - {node}, prev[y := x] - {node}, Cell(r, g, k), Cell(r, g, k + 1))
  {
    assert Cell(r, g, |r[g]| + 1) == Cell(r, g, 0) && Cell(r, h, |r[h]| + 1) == Cell(r, h, 0);
    var d := if g == h && k > i then 1 else 0;
    if g != h || k != i {
      InsertCells(r, h, i, node, g, k + d);
      InsertCells(r, h, i, node, g, k + d + 1);
      assert JoinedAt(rings, g, next, prev, k + d);
    }
  }

  lemma DeleteKeeps<A(!new)>(rings: map<A, seq<A>>, next: map<A, A>, prev: map<A, A>, h: A, i: nat)
    requires WellFormed(rings, next, prev)
    requires h in rings && i < |rings[h]|
    ensures var node := rings[h][i];
            var r := rings[h := RemoveAt(rings[h], i)];
            && Loose(r, node)
            && Joined(next, prev, Cell(r, h, i), node) && Joined(next, prev, node, Cell(r, h, i + 1))
            && WellFormed(r, next[Cell(r, h, i) := Cell(r, h, i + 1)] - {node},
                          prev[Cell(r, h, i + 1) := Cell(r, h, i)] - {node})
  {
    var node := rings[h][i];
    var r := rings[h := RemoveAt(rings[h], i)];
    assert InsertAt(r[h], i, node) == rings[h];
    assert rings == r[h := InsertAt(r[h], i, node)];
    DeleteApart(r, rings, h, i, node);
    assert JoinedAt(rings, h, next, prev, i);
    assert JoinedAt(rings, h, next, prev, i + 1);
    var x, y := Cell(r, h, i), Cell(r, h, i + 1);
    var next', prev' := next[x := y] - {node}, prev[y := x] - {node};
    forall g | g in r ensures Linked(r, g, next', prev') {
      forall k: nat | k <= |r[g]| ensures JoinedAt(r, g, next', prev', k) {
        DeleteLinks(r, rings, next, prev, h, i, node, g, k);
      }
    }
  }

  /** One ring put into another behind position `i`, its head included as a member. */
  function Splice<A>(rings: map<A, seq<A>>, h: A, i: nat, n: A): map<A, seq<A>>
    requires h in rings && n in rings && i <= |rings[h]|
  {
    (rings - {n})[h := rings[h][..i] + ([n] + rings[n]) + rings[h][i..]]
  }

  /** Which ring and which position a position of the spliced rings comes from. */
  ghost function Source<A>(rings: map<A, seq<A>>, h: A, i: nat, n: A, g: A, k: nat): (A, nat)
    requires n in rings
  {
    if g != h || k <= i then (g, k) else if k <= i + 1 + |rings[n]| then (n, k - i - 1) else (h, k - |rings[n]| - 1)
  }

  lemma SpliceCells<A(!new)>(rings: map<A, seq<A>>, h: A, i: nat, n: A, g: A, k: nat)
    requires h in rings && n in rings && h != n && i <= |rings[h]| && g in rings && g != n
    requires k <= |Splice(rings, h, i, n)[g]| + 1
    ensures |Splice(rings, h, i, n)[g]| == |rings[g]| + if g == h then |rings[n]| + 1 else 0
    ensures var (f, j) := Source(rings, h, i, n, g, k);
            f in rings && j <= |rings[f]| + 1 && Cell(Splice(rings, h, i, n), g, k) == Cell(rings, f, j)
  {
    var r := Splice(rings, h, i, n);
    if g == h && i < k <= i + 1 + |rings[n]| {
      assert r[h][i..i + 1 + |rings[n]|] == [n] + rings[n];
      assert r[h][k - 1] == ([n] + rings[n])[k - 1 - i];
    } else if g == h && k > i {
      assert r[h][i + 1 + |rings[n]|..] == rings[h][i..];
    }
  }

  lemma SpliceApart<A(!new)>(rings: map<A, seq<A>>, h: A, i: nat, n: A)
    requires Apart(rings) && h in rings && n in rings && h != n && i <= |rings[h]|
    ensures Apart(Splice(rings, h, i, n))
  {
    var r := Splice(rings, h, i, n);
    forall f, g, j: nat, k: nat | f in r && g in r && j <= |r[f]| && k <= |r[g]| && Cell(r, f, j) == Cell(r, g, k)
      ensures f == g && j == k
    {
      SpliceCells(rings, h, i, n, f, j);
      SpliceCells(rings, h, i, n, g, k);
    }
  }

  lemma SpliceLinks<A(!new)>(rings: map<A, seq<A>>, next: map<A, A>, prev: map<A, A>, h: A, i: nat, n: A, g: A, k: nat)
    requires WellFormed(rings, next, prev) && h in rings && n in rings && h != n && i <= |rings[h]|
    requires g in rings && g != n && k <= |Splice(rings, h, i, n)[g]|
    ensures var list, after, tail := Cell(rings, h, i), Cell(rings, h, i + 1), Cell(rings, n, |rings[n]|);
            var r := Splice(rings, h, i, n);
            Joined(next[list := n][tail := after], prev[n := list][after := tail], Cell(r, g, k), Cell(r, g, k + 1))
  {
    SpliceCells(rings, h, i, n, g, k);
    SpliceCells(rings, h, i, n, g, k + 1);
    var (f, j) := Source(rings, h, i, n, g, k);
    assert Cell(rings, f, |rings[f]| + 1) == Cell(rings, f, 0) && Cell(rings, h, |rings[h]| + 1) == Cell(rings, h, 0);
    assert Cell(rings, n, 0) == n;
    if g != h || (k != i && k != i + 1 + |rings[n]|) {
      assert JoinedAt(rings, f, next, prev, j);
    }
  }

  lemma SpliceKeeps<A(!new)>(rings: map<A, seq<A>>, next: map<A, A>, prev: map<A, A>, h: A, i: nat, n: A)
    requires WellFormed(rings, next, prev) && h in rings && n in rings && h != n && i <= |rings[h]|
    ensures var list, after, tail := Cell(rings, h, i), Cell(rings, h, i + 1), Cell(rings, n, |rings[n]|);
            WellFormed(Splice(rings, h, i, n), next[list := n][tail := after], prev[n := list][after := tail])
  {
    var r, list, after, tail := Splice(rings, h, i, n), Cell(rings, h, i), Cell(rings, h, i + 1), Cell(rings, n, |rings[n]|);
    var next', prev' := next[list := n][tail := after], prev[n := list][after := tail];
    SpliceApart(rings, h, i, n);
    forall g | g in r ensures Linked(r, g, next', prev') {
      forall k: nat | k <= |r[g]| ensures JoinedAt(r, g, next', prev', k) {
        SpliceLinks(rings, next, prev, h, i, n, g, k);
      }
    }
  }

  /** The item a traversal of `ring` meets after `i` others; the head ends it. */
  ghost function Item<A>(ring: seq<A>, h: A, i: nat): A
  {
    if i < |ring| then ring[i] else h
  }

  /** Following `next` from the head or from an item leads to the item after it. */
  lemma NextItem<A(!new)>(rings: map<A, seq<A>>, next: map<A, A>, prev: map<A, A>, h: A, i: nat)
    requires WellFormed(rings, next, prev) && h in rings
    ensures h in next && next[h] == Item(rings[h], h, 0)
    ensures Item(rings[h], h, i) in next
    ensures i < |rings[h]| ==> rings[h][i] != h && next[rings[h][i]] == Item(rings[h], h, i + 1)
  {
    assert JoinedAt(rings, h, next, prev, 0);
    if i < |rings[h]| {
      assert JoinedAt(rings, h, next, prev, i + 1);
      assert Cell(rings, h, i + 1) != Cell(rings, h, 0);
    }
  }

  class LinkHeap<A(==, !new)> {
    var next: map<A, A>
    var prev: map<A, A>
    ghost var rings: map<A, seq<A>>

    ghost predicate Valid()
      reads this
    {
      WellFormed(rings, next, prev)
    }

    constructor ()
      ensures Valid() && rings == map[]
    {
      next, prev, rings := map[], map[], map[];
    }

    /** LOS_ListInit */
    method Init(a: A)
      requires Valid() && Loose(rings, a)
      modifies this
      ensures Valid() && rings == old(rings)[a := []]
    {
      InitKeeps(rings, next, prev, a);
      next, prev := next[a := a], prev[a := a];
      rings := rings[a := []];
    }

    /** The memory of an empty ring's head is cleared or given back. */
    method Retire(a: A)
      requires Valid() && a in rings && rings[a] == []
      modifies this
      ensures Valid() && rings == old(rings) - {a} && Loose(rings, a)
    {
      RetireKeeps(rings, next, prev, a);
      next, prev := next - {a}, prev - {a};
      rings := rings - {a};
    }

    /** LOS_ListAdd: link `node` behind `list`, which is the head `h` (`i == 0`) or its `i`-th member. */
    method Add(list: A, node: A, ghost h: A, ghost i: nat)
      requires Valid() && Loose(rings, node)
      requires h in rings && i <= |rings[h]| && Cell(rings, h, i) == list
      modifies this
      ensures Valid() && rings == old(rings)[h := InsertAt(old(rings)[h], i, node)]
      ensures list in next && node in prev && next[list] == node && prev[node] == list
      ensures rings[h] == old(rings)[h][..i] + [node] + old(rings)[h][i..]
    {
      AddKeeps(rings, next, prev, h, i, node);
      assert JoinedAt(rings, h, next, prev, i);
      var after := next[list];
      assert Cell(rings, h, |rings[h]| + 1) == Cell(rings, h, 0) && after != node;
      next := next[node := after];
      prev := prev[node := list];
      prev := prev[after := node];
      next := next[list := node];
      rings := rings[h := InsertAt(rings[h], i, node)];
    }

    /** LOS_ListTailInsert */
    method TailInsert(h: A, node: A)
      requires Valid() && Loose(rings, node) && h in rings
      modifies this
      ensures Valid() && rings == old(rings)[h := old(rings)[h] + [node]]
    {
      assert JoinedAt(rings, h, next, prev, |rings[h]|);
      assert InsertAt(rings[h], |rings[h]|, node) == rings[h] + [node];
      Add(prev[h], node, h, |rings[h]|);
    }

    /** LOS_ListDelete: the node alone is given, its ring is found through its links. */
    method Delete(node: A, ghost h: A, ghost i: nat)
      requires Valid() && h in rings && i < |rings[h]| && rings[h][i] == node
      modifies this
      ensures Valid() && rings == old(rings)[h := RemoveAt(old(rings)[h], i)] && Loose(rings, node)
      ensures rings[h] == old(rings)[h][..i] + old(rings)[h][i + 1..] && node !in next && node !in prev
    {
      DeleteKeeps(rings, next, prev, h, i);
      prev := prev[next[node] := prev[node]];
      next := next[prev[node] := next[node]];
      next := next - {node};
      prev := prev - {node};
      rings := rings[h := RemoveAt(rings[h], i)];
    }

    /**
     LOS_ListAddList: the ring of `newList` goes behind `oldList`, which is the head `h` (`i == 0`)
     or its `i`-th member; the head of the new ring becomes a member like the others.
     */
    method AddList(oldList: A, newList: A, ghost h: A, ghost i: nat)
      requires Valid() && h in rings && newList in rings && h != newList
      requires i <= |rings[h]| && Cell(rings, h, i) == oldList
      modifies this
      ensures Valid() && rings == Splice(old(rings), h, i, newList)
    {
      SpliceKeeps(rings, next, prev, h, i, newList);
      assert JoinedAt(rings, h, next, prev, i) && JoinedAt(rings, newList, next, prev, |rings[newList]|);
      assert Cell(rings, newList, |rings[newList]| + 1) == newList;
      var oldListHead, newListTail := next[oldList], prev[newList];
      next := next[oldList := newList];
      prev := prev[newList := oldList];
      prev := prev[oldListHead := newListTail];
      next := next[newListTail := oldListHead];
      rings := Splice(rings, h, i, newList);
    }

    /** LOS_ListEmpty */
    method Empty(h: A) returns (empty: bool)
      requires Valid() && h in rings
      ensures empty <==> rings[h] == []
    {
      assert JoinedAt(rings, h, next, prev, 0);
      assert rings[h] != [] ==> Cell(rings, h, 1) != Cell(rings, h, 0);
      empty := next[h] == h;
    }

    /** The body of a SAFE traversal: the successor is read first, then the item may be deleted. */
    method Visit(h: A, item: A, doomed: set<A>, ghost ring: seq<A>, ghost n: nat) returns (nextItem: A)
      requires Valid() && h in rings && n < |ring| && item == ring[n] && rings[h] == Left(ring, n, doomed)
      modifies this
      ensures Valid() && rings == old(rings)[h := Left(ring, n + 1, doomed)]
      ensures nextItem == Item(ring, h, n + 1) && (item in doomed ==> Loose(rings, item))
    {
      LeftStep(ring, n, doomed);
      ghost var k := |Keep(ring[..n], doomed)|;
      NextItem(rings, next, prev, h, k);
      nextItem := next[item];
      if item in doomed {
        Delete(item, h, k);
      }
    }

    /** The same with a body that moves the item to the front of the ring of another head. */
    method VisitMove(h: A, target: A, item: A, doomed: set<A>, ghost ring: seq<A>, ghost n: nat)
      returns (nextItem: A, moved: bool)
      requires Valid() && h in rings && target in rings && h != target
      requires n < |ring| && item == ring[n] && rings[h] == Left(ring, n, doomed)
      modifies this
      ensures Valid() && nextItem == Item(ring, h, n + 1) && moved == (item in doomed)
      ensures rings == old(rings)[h := Left(ring, n + 1, doomed)]
                                 [target := (if moved then [item] else []) + old(rings)[target]]
    {
      ghost var before := rings[target];
      nextItem := Visit(h, item, doomed, ring, n);
      moved := item in doomed;
      if moved {
        assert InsertAt(before, 0, item) == [item] + before;
        Add(target, item, target, 0);
      } else {
        assert [] + before == before;
      }
    }

    /**
     The traversal of VnodeReclaimLru and VnodeFree at the level of the links: up to `limit` doomed
     items are deleted and put on another ring through the very link words that the traversal
     runs along.  `n` items were visited, each once and in order.
     */
    method MoveWhile(h: A, target: A, doomed: set<A>, limit: nat) returns (count: nat, visited: seq<A>)
      requires Valid() && h in rings && target in rings && h != target && limit > 0
      modifies this
      ensures Valid() && visited <= old(rings)[h]
      ensures count == |Taken(visited, doomed)| <= limit && (count == limit || visited == old(rings)[h])
      ensures rings == old(rings)[h := Left(old(rings)[h], |visited|, doomed)]
                                 [target := Taken(visited, doomed) + old(rings)[target]]
    {
      ghost var ring, onto, n: nat := rings[h], rings[target], 0;
      count, visited := 0, [];
      MoveStart(ring, onto, doomed);
      NextItem(rings, next, prev, h, 0);
      var item := next[h];
      while item != h && count < limit
        invariant n <= |ring| && visited == ring[..n] && count == |Taken(visited, doomed)| <= limit
        invariant Valid() && rings == old(rings)[h := Left(ring, n, doomed)][target := Taken(visited, doomed) + onto]
        invariant item == Item(ring, h, n)
        decreases |ring| - n
      {
        TakeNext(ring, n);
        TakenNext(ring, n, doomed);
        Regroup(if ring[n] in doomed then [ring[n]] else [], Taken(visited, doomed), onto);
        visited := visited + [item];
        var moved;
        item, moved := VisitMove(h, target, item, doomed, ring, n);
        if moved {
          count := count + 1;
        }
        n := n + 1;
      }
      TakeNext(ring, n);
      if n < |ring| && item == h {
        LeftStep(ring, n, doomed);
        NextItem(rings, next, prev, h, |Keep(ring[..n], doomed)|);
      }
    }

    /**
     LOS_DL_LIST_FOR_EACH_ENTRY_SAFE with a body that deletes the items in `doomed`.  Every
     item of the ring is visited once, in order, although deleted items lose their links
     while the traversal is under way.
     */
    method DeleteWhile(h: A, doomed: set<A>) returns (visited: seq<A>)
      requires Valid() && h in rings
      modifies this
      ensures Valid() && visited == old(rings)[h]
      ensures rings == old(rings)[h := Keep(old(rings)[h], doomed)]
    {
      visited := [];
      ghost var ring, n: nat := rings[h], 0;
      LeftEnds(ring, doomed);
      NextItem(rings, next, prev, h, 0);
      var item := next[h];
      while item != h
        invariant n <= |ring| && visited == ring[..n]
        invariant Valid() && rings == old(rings)[h := Left(ring, n, doomed)]
        invariant item == Item(ring, h, n)
        decreases |ring| - n
      {
        TakeNext(ring, n);
        visited := visited + [item];
        item := Visit(h, item, doomed, ring, n);
        n := n + 1;
      }
      TakeNext(ring, n);
      if n < |ring| {
        LeftStep(ring, n, doomed);
        NextItem(rings, next, prev, h, |Keep(ring[..n], doomed)|);
      }
    }
  }
}
