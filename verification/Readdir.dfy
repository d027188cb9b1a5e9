/** Reading a devfs directory page by page (VnodeReaddir in `fs/vfs/vnode.c`). */
module Readdir {
  import opened PathCache

  datatype Dirent = Dirent(name: Name, off: nat)

  datatype Reply = Count(n: nat) | NoDirectory | NameTooLong

  /** The directory as it should be listed: every name, with its position. */
  function Listing(kids: seq<Name>): (r: seq<Dirent>)
    ensures |r| == |kids| && forall i | 0 <= i < |kids| :: r[i] == Dirent(kids[i], i)
  {
    seq(|kids|, i requires 0 <= i < |kids| => Dirent(kids[i], i))
  }

  /** Where a page that starts at `pos` ends; a count below one reads one entry all the same. */
  function PageEnd(size: nat, pos: nat, count: int): (end: nat)
    ensures pos <= size ==> pos <= end <= size
    ensures pos < size ==> pos < end
  {
    var want := if count < 1 then 1 else count;
    if pos + want <= size then pos + want else size
  }

  function Page(kids: seq<Name>, pos: nat, count: int): seq<Dirent>
  {
    if pos < |kids| then Listing(kids)[pos..PageEnd(|kids|, pos, count)] else []
  }

  /** A page has as many entries as asked for, one at least, or as many as are left. */
  lemma PageIs(kids: seq<Name>, pos: nat, count: int)
    ensures var want := if count < 1 then 1 else count;
            var n := if pos > |kids| then 0 else if want < |kids| - pos then want else |kids| - pos;
            && |Page(kids, pos, count)| == n
            && (forall j | 0 <= j < n :: Page(kids, pos, count)[j] == Dirent(kids[pos + j], pos + j))
            && PageEnd(|kids|, pos, count) == if pos > |kids| then |kids| else pos + n
  {
  }

  /** The pages that successive calls with the given counts deliver, one after the other. */
  function Pages(kids: seq<Name>, pos: nat, counts: seq<int>): seq<Dirent>
    decreases |counts|
  {
    if counts == [] then []
    else Page(kids, pos, counts[0]) + Pages(kids, PageEnd(|kids|, pos, counts[0]), counts[1..])
  }

  function EndOfPages(kids: seq<Name>, pos: nat, counts: seq<int>): nat
    decreases |counts|
  {
    if counts == [] then pos else EndOfPages(kids, PageEnd(|kids|, pos, counts[0]), counts[1..])
  }

  lemma Join(s: seq<Dirent>, a: nat, b: nat, c: nat)
    requires a <= b <= c <= |s|
    ensures s[a..b] + s[b..c] == s[a..c]
  {
  }

  /** The pages are a gapless part of the listing, from the first position to the last. */
  lemma {:induction false} PagesAreListing(kids: seq<Name>, pos: nat, counts: seq<int>)
    requires pos <= |kids|
    ensures pos <= EndOfPages(kids, pos, counts) <= |kids|
    ensures Pages(kids, pos, counts) == Listing(kids)[pos..EndOfPages(kids, pos, counts)]
    ensures |counts| >= |kids| - pos ==> EndOfPages(kids, pos, counts) == |kids|
    decreases |counts|
  {
    if counts != [] {
      hide Listing;
      PagesAreListing(kids, PageEnd(|kids|, pos, counts[0]), counts[1..]);
      Join(Listing(kids), pos, PageEnd(|kids|, pos, counts[0]), EndOfPages(kids, pos, counts));
    }
  }

  /** Enough calls list the directory exactly once, in order; the next call returns nothing. */
  lemma PagingListsAll(kids: seq<Name>, counts: seq<int>, next: int)
    requires |counts| >= |kids|
    ensures Pages(kids, 0, counts) == Listing(kids)
    ensures Page(kids, EndOfPages(kids, 0, counts), next) == []
  {
    PagesAreListing(kids, 0, counts);
    assert Listing(kids)[0..|kids|] == Listing(kids);
  }

  /** The first `cnt` slots hold the entries from `pos` on, the others are as they were. */
  ghost predicate Filled(kids: seq<Name>, pos: nat, cnt: nat, was: seq<Dirent>, slots: seq<Dirent>)
  {
    && |slots| == |was| && cnt <= |was| && (cnt == 0 || pos + cnt <= |kids|)
    && (forall j | 0 <= j < cnt :: slots[j] == Dirent(kids[pos + j], pos + j))
    && (forall j | cnt <= j < |was| :: slots[j] == was[j])
  }

  lemma FillNone(kids: seq<Name>, pos: nat, was: seq<Dirent>)
    ensures Filled(kids, pos, 0, was, was)
  {
  }

  lemma FillNext(kids: seq<Name>, pos: nat, cnt: nat, was: seq<Dirent>, slots: seq<Dirent>)
    requires Filled(kids, pos, cnt, was, slots) && cnt < |was| && pos + cnt < |kids|
    ensures cnt < |slots| && Filled(kids, pos, cnt + 1, was, slots[cnt := Dirent(kids[pos + cnt], pos + cnt)])
  {
  }

  lemma FilledPage(kids: seq<Name>, pos: nat, cnt: nat, was: seq<Dirent>, slots: seq<Dirent>, count: int)
    requires Filled(kids, pos, cnt, was, slots)
    requires if pos < |kids| then pos + cnt == PageEnd(|kids|, pos, count) else cnt == 0
    ensures |Page(kids, pos, count)| == cnt <= |was| && slots == Page(kids, pos, count) + was[cnt..]
  {
  }

  class DirStream {
    var position: nat
    var readCnt: int
    // fd_dir, and the size of its d_name
    const page: array<Dirent>
    const nameSize: nat

    constructor (page: array<Dirent>, nameSize: nat)
      ensures position == 0 && this.page == page && this.nameSize == nameSize
    {
      position, readCnt, this.page, this.nameSize := 0, 0, page, nameSize;
    }

    /** Whether strncpy_s accepts every name of a part of the directory. */
    ghost predicate Fits(kids: seq<Name>, a: nat, b: nat)
    {
      forall i | a <= i < b && i < |kids| :: |kids[i]| < nameSize
    }
  }

  /**
   VnodeReaddir; `kids` are the names along the child ring.  A position past the end is set back
   to the end; a name that does not fit spoils the page and leaves the position alone.
   */
  method VnodeReaddir(kids: seq<Name>, dir: DirStream?) returns (reply: Reply)
    requires dir != null ==> dir.page.Length >= 1 && dir.page.Length >= dir.readCnt
    modifies dir, if dir == null then {} else {dir.page}
    ensures dir == null ==> reply == NoDirectory
    ensures dir != null ==>
              && dir.readCnt == old(dir.readCnt)
              && var pos, end := old(dir.position), PageEnd(|kids|, old(dir.position), dir.readCnt);
                 if dir.Fits(kids, pos, end) then
                   var page := Page(kids, pos, dir.readCnt);
                   && reply == Count(|page|) && |page| <= dir.page.Length && dir.position == end
                   && dir.page[..] == page + old(dir.page[..])[|page|..]
                 else reply == NameTooLong && dir.position == pos
    ensures dir != null ==>
              var pos, want := old(dir.position), if dir.readCnt < 1 then 1 else dir.readCnt;
              var n := if pos > |kids| then 0 else if want < |kids| - pos then want else |kids| - pos;
              if forall i | pos <= i < pos + n :: |kids[i]| < dir.nameSize then
                && reply == Count(n) && n <= dir.page.Length && dir.position == (if pos > |kids| then |kids| else pos + n)
                && (forall j | 0 <= j < n :: dir.page[j] == Dirent(kids[pos + j], pos + j))
                && (forall j | n <= j < dir.page.Length :: dir.page[j] == old(dir.page[j]))
              else reply == NameTooLong && dir.position == pos
  {
    if dir == null {
      return NoDirectory;
    }
    PageIs(kids, dir.position, dir.readCnt);
    hide Page, PageEnd, Listing;
    reply := ReadEntries(kids, dir);
  }

  /** The loop of VnodeReaddir along the child ring. */
  method ReadEntries(kids: seq<Name>, dir: DirStream) returns (reply: Reply)
    requires dir.page.Length >= 1 && dir.page.Length >= dir.readCnt
    modifies dir, dir.page
    ensures dir.readCnt == old(dir.readCnt)
    ensures var pos, end := old(dir.position), PageEnd(|kids|, old(dir.position), dir.readCnt);
            if dir.Fits(kids, pos, end) then
              var page := Page(kids, pos, dir.readCnt);
              && reply == Count(|page|) && |page| <= dir.page.Length && dir.position == end
              && dir.page[..] == page + old(dir.page[..])[|page|..]
            else reply == NameTooLong && dir.position == pos
  {
    hide Page, Listing, Filled;
    var cnt, i := 0, 0;
    ghost var pos, was := dir.position, dir.page[..];
    ghost var end := PageEnd(|kids|, pos, dir.readCnt);
    FillNone(kids, pos, was);
    while i < |kids|
      invariant i <= |kids| && dir.position == pos && dir.readCnt == old(dir.readCnt)
      invariant i <= pos ==> cnt == 0
      invariant i > pos ==> cnt == i - pos && i <= end && cnt < dir.readCnt
      invariant dir.Fits(kids, pos, i) && cnt <= |was| == dir.page.Length
      invariant Filled(kids, pos, cnt, was, dir.page[..])
    {
      if i < dir.position {
        i := i + 1;
        continue;
      }
      var idx := i - dir.position;
      if |kids[i]| >= dir.nameSize {
        return NameTooLong;
      }
      ghost var now := dir.page[..];
      FillNext(kids, pos, cnt, was, dir.page[..]);
      dir.page[idx] := Dirent(kids[i], i);
      assert dir.page[..] == now[idx := Dirent(kids[i], i)];
      i := i + 1;
      cnt := cnt + 1;
      if cnt >= dir.readCnt {
        break;
      }
    }
    FilledPage(kids, pos, cnt, was, dir.page[..], dir.readCnt);
    dir.position := i;
    reply := Count(cnt);
  }

  /** The names all fit, so that no part of the directory is refused. */
  lemma AllFit(kids: seq<Name>, dir: DirStream, a: nat, b: nat)
    requires forall i | 0 <= i < |kids| :: |kids[i]| < dir.nameSize
    ensures dir.Fits(kids, a, b)
  {
  }

  lemma PagesNext(kids: seq<Name>, pos: nat, counts: seq<int>, i: nat)
    requires i < |counts|
    ensures Pages(kids, pos, counts[..i + 1])
         == Pages(kids, pos, counts[..i]) + Page(kids, EndOfPages(kids, pos, counts[..i]), counts[i])
    ensures EndOfPages(kids, pos, counts[..i + 1]) == PageEnd(|kids|, EndOfPages(kids, pos, counts[..i]), counts[i])
    decreases i
  {
    if i > 0 {
      var rest := counts[1..];
      assert rest[..i - 1] == counts[..i][1..] && rest[..i] == counts[..i + 1][1..] && rest[i - 1] == counts[i];
      PagesNext(kids, PageEnd(|kids|, pos, counts[0]), rest, i - 1);
    } else {
      assert counts[..1][1..] == [] && counts[..0] == [];
    }
  }

  /**
   A directory that nobody changes is read by successive calls, each for as many entries as the
   caller then asks for.  Enough calls, from the beginning, list it exactly once and in order.
   */
  method ListAll(kids: seq<Name>, dir: DirStream, counts: seq<int>) returns (entries: seq<Dirent>)
    requires dir.page.Length >= 1 && forall c | c in counts :: c <= dir.page.Length
    requires forall i | 0 <= i < |kids| :: |kids[i]| < dir.nameSize
    modifies dir, dir.page
    ensures entries == Pages(kids, old(dir.position), counts)
    ensures dir.position == EndOfPages(kids, old(dir.position), counts)
    ensures old(dir.position) <= |kids| ==>
              && old(dir.position) + |entries| == dir.position <= |kids|
              && (forall j | 0 <= j < |entries| :: entries[j] == Dirent(kids[old(dir.position) + j], old(dir.position) + j))
              && (|counts| >= |kids| - old(dir.position) ==> dir.position == |kids|)
    ensures old(dir.position) == 0 && |counts| >= |kids| ==> entries == Listing(kids)
  {
    hide Page, PageEnd, Pages, EndOfPages, Listing;
    ghost var pos := dir.position;
    entries := [];
    PagesNone(kids, pos, counts);
    for i := 0 to |counts|
      invariant entries == Pages(kids, pos, counts[..i]) && dir.position == EndOfPages(kids, pos, counts[..i])
    {
      assert counts[i] in counts;
      PagesNext(kids, pos, counts, i);
      AllFit(kids, dir, dir.position, PageEnd(|kids|, dir.position, counts[i]));
      dir.readCnt := counts[i];
      var reply := VnodeReaddir(kids, dir);
      entries := entries + dir.page[..reply.n];
    }
    assert counts[..|counts|] == counts;
    if pos <= |kids| {
      PagesMean(kids, pos, counts);
    }
    if pos == 0 && |counts| >= |kids| {
      PagingListsAll(kids, counts, 1);
    }
  }

  lemma PagesMean(kids: seq<Name>, pos: nat, counts: seq<int>)
    requires pos <= |kids|
    ensures var ps := Pages(kids, pos, counts);
            && pos + |ps| == EndOfPages(kids, pos, counts) <= |kids|
            && (forall j | 0 <= j < |ps| :: ps[j] == Dirent(kids[pos + j], pos + j))
            && (|counts| >= |kids| - pos ==> EndOfPages(kids, pos, counts) == |kids|)
  {
    PagesAreListing(kids, pos, counts);
  }

  lemma PagesNone(kids: seq<Name>, pos: nat, counts: seq<int>)
    ensures Pages(kids, pos, counts[..0]) == [] && EndOfPages(kids, pos, counts[..0]) == pos
  {
  }
}
