/** Group credentials of a process (`syscall/process_syscall.c`, with LOSCFG_SECURITY_CAPABILITY). */
module Groups {
  import opened PathCache

  const OS_GROUPS_NUMBER_MAX: int := 256

  datatype Code = OK | EPERM | EINVAL | EFAULT | ENOMEM

  /** Only the first occurrence of the old group is replaced. */
  function ReplaceFirst(s: seq<int>, a: int, b: int): seq<int>
  {
    if s == [] then [] else if s[0] == a then [b] + s[1..] else [s[0]] + ReplaceFirst(s[1..], a, b)
  }

  lemma {:induction false} ReplaceFirstAt(s: seq<int>, a: int, b: int, n: nat)
    requires n < |s| && s[n] == a && forall i | 0 <= i < n :: s[i] != a
    ensures ReplaceFirst(s, a, b) == s[n := b]
  {
    if n > 0 {
      ReplaceFirstAt(s[1..], a, b, n - 1);
    }
  }

  /** Every place but the first with the old group is as it was. */
  lemma {:induction false} ReplaceFirstEach(s: seq<int>, a: int, b: int)
    ensures |ReplaceFirst(s, a, b)| == |s|
    ensures forall i | 0 <= i < |s| ::
              ReplaceFirst(s, a, b)[i] == if s[i] == a && a !in s[..i] then b else s[i]
  {
    if s != [] && s[0] != a {
      var rest := s[1..];
      ReplaceFirstEach(rest, a, b);
      forall i | 0 < i < |s| ensures a in s[..i] <==> a in rest[..i - 1] {
        assert s[..i] == [s[0]] + rest[..i - 1];
      }
    }
  }

  /** One occurrence of the old group becomes the new one; all else keeps its place and number. */
  lemma {:induction false} ReplaceFirstCounts(s: seq<int>, a: int, b: int)
    requires a in s
    ensures multiset(ReplaceFirst(s, a, b)) == multiset(s) - multiset{a} + multiset{b}
  {
    assert s == [s[0]] + s[1..];
    if s[0] != a {
      ReplaceFirstCounts(s[1..], a, b);
    }
  }

  lemma ReplaceFirstMeans(s: seq<int>, a: int, b: int)
    requires exists i :: 0 <= i < |s| && s[i] == a
    ensures |ReplaceFirst(s, a, b)| == |s|
    ensures forall i | 0 <= i < |s| :: ReplaceFirst(s, a, b)[i] == if s[i] == a && a !in s[..i] then b else s[i]
    ensures multiset(ReplaceFirst(s, a, b)) == multiset(s) - multiset{a} + multiset{b}
  {
    ReplaceFirstEach(s, a, b);
    ReplaceFirstCounts(s, a, b);
  }

  /** A group list with the own group in it. */
  function WithGid(list: seq<int>, gid: int): (r: seq<int>)
    ensures gid in r && list <= r && forall g | g in r :: g in list || g == gid
  {
    if gid in list then list else list + [gid]
  }

  /** The group asked for is `g`, or any. */
  predicate Agrees(asked: int, g: int)
  {
    asked == -1 || asked == g
  }

  datatype Op =
    | SetGid(gid: int)
    | SetResGid(rgid: int, egid: int, sgid: int)
    | SetGroups(size: int, list: Option<seq<int>>, mem1: bool, mem2: bool)

  class Process {
    var gid: int
    var effGid: int
    var groups: array<int>
    var groupNumber: nat
    // IsCapPermit(CAP_SETGID)
    var capSetGid: bool

    /** What every operation keeps: one group identity, and the list holds it. */
    ghost predicate Valid()
      reads this, groups
    {
      && groupNumber == groups.Length <= OS_GROUPS_NUMBER_MAX + 1
      && gid == effGid >= 0 && (exists i :: 0 <= i < groups.Length && groups[i] == gid)
      && (forall i | 0 <= i < groups.Length :: groups[i] >= 0)
    }

    ghost function List(): seq<int>
      reads this, groups
    {
      groups[..]
    }

    constructor (gid: nat, capSetGid: bool)
      ensures Valid() && fresh(groups) && this.gid == gid && List() == [gid]
    {
      this.gid, effGid, groupNumber, this.capSetGid := gid, gid, 1, capSetGid;
      groups := new int[1][gid];
      new;
      assert groups[0] == gid;
    }

    /** SysSetGroupID */
    method SysSetGroupID(gid: int) returns (code: Code)
      requires Valid()
      modifies this, groups
      ensures Valid() && capSetGid == old(capSetGid) && groups == old(groups)
      ensures code == if gid < 0 then EINVAL else if capSetGid || gid == old(this.gid) then OK else EPERM
      ensures code != OK || !capSetGid ==> this.gid == old(this.gid) && List() == old(List())
      ensures code == OK ==> this.gid == gid
      ensures code == OK && capSetGid ==> List() == ReplaceFirst(old(List()), old(this.gid), gid)
      ensures code == OK && capSetGid ==>
                && |List()| == |old(List())|
                && (forall i | 0 <= i < |List()| ::
                      List()[i] == if old(List())[i] == old(this.gid) && old(this.gid) !in old(List())[..i]
                                   then gid else old(List())[i])
                && multiset(List()) == multiset(old(List())) - multiset{old(this.gid)} + multiset{gid}
    {
      if gid < 0 {
        return EINVAL;
      }
      ReplaceFirstMeans(List(), this.gid, gid);
      hide ReplaceFirst, Valid;
      code := SetGid(gid);
    }

    method SetGid(gid: int) returns (code: Code)
      requires Valid() && gid >= 0
      modifies this, groups
      ensures Valid() && capSetGid == old(capSetGid) && groups == old(groups)
      ensures code == if capSetGid || gid == old(this.gid) then OK else EPERM
      ensures code != OK || !capSetGid ==> this.gid == old(this.gid) && List() == old(List())
      ensures code == OK ==> this.gid == gid
      ensures code == OK && capSetGid ==> List() == ReplaceFirst(old(List()), old(this.gid), gid)
    {
      code := EPERM;
      if capSetGid {
        var oldGid := this.gid;
        ghost var was := groups[..];
        this.gid, effGid := gid, gid;
        var count := 0;
        while count < groupNumber
          invariant count <= groupNumber == groups.Length && groups == old(groups) && groups[..] == was
          invariant forall i | 0 <= i < count :: was[i] != oldGid
          invariant this.gid == effGid == gid && capSetGid == old(capSetGid)
        {
          if groups[count] == oldGid {
            ReplaceFirstAt(was, oldGid, gid, count);
            groups[count] := gid;
            assert groups[..] == was[count := gid] && groups[count] == gid;
            return OK;
          }
          count := count + 1;
        }
      } else if this.gid != gid {
        return;
      }
      code := OK;
    }

    /** SysSetRealEffSaveGroupID: the three groups must agree, where -1 agrees with any. */
    method SysSetRealEffSaveGroupID(rgid: int, egid: int, sgid: int) returns (code: Code)
      requires Valid()
      modifies this, groups
      ensures Valid() && capSetGid == old(capSetGid) && groups == old(groups)
      ensures var g := if rgid != -1 then rgid else if egid != -1 then egid else sgid;
              code == if g == -1 then OK
                      else if rgid < -1 || egid < -1 || sgid < -1 then EINVAL
                      else if !Agrees(rgid, g) || !Agrees(egid, g) || !Agrees(sgid, g) then EPERM
                      else if capSetGid || g == old(this.gid) then OK else EPERM
      ensures code == OK ==> Agrees(rgid, this.gid) && Agrees(egid, this.gid) && Agrees(sgid, this.gid)
      ensures code != OK || !capSetGid || rgid == egid == sgid == -1 ==> this.gid == old(this.gid) && List() == old(List())
      ensures code == OK && capSetGid && !(rgid == egid == sgid == -1) ==>
                && |List()| == |old(List())|
                && (forall i | 0 <= i < |List()| ::
                      List()[i] == if old(List())[i] == old(gid) && old(gid) !in old(List())[..i]
                                   then gid else old(List())[i])
                && multiset(List()) == multiset(old(List())) - multiset{old(gid)} + multiset{gid}
    {
      hide ReplaceFirst, Valid;
      if rgid == -1 && egid == -1 && sgid == -1 {
        return OK;
      }
      if SetRealEffSaveGroupIDCheck(rgid, egid, sgid) != OK {
        return EINVAL;
      }
      if rgid >= 0 {
        if (egid != -1 && egid != rgid) || (sgid != -1 && sgid != rgid) {
          return EPERM;
        }
        code := SysSetGroupID(rgid);
      } else if egid >= 0 {
        if sgid != -1 && sgid != egid {
          return EPERM;
        }
        code := SysSetGroupID(egid);
      } else {
        code := SysSetGroupID(sgid);
      }
    }

    /** SetGroups: `listSize + 1` slots, the last of them for the own group if the list lacks it. */
    method SetGroups(listSize: nat, safeList: Option<seq<int>>, size: nat, memory: bool) returns (code: Code)
      requires Valid() && size <= OS_GROUPS_NUMBER_MAX && (safeList.None? ==> size == 0)
      requires safeList.Some? ==> |safeList.value| == size && forall g | g in safeList.value :: g >= 0
      requires var list := if safeList.None? then [] else safeList.value;
               listSize == if gid in list then size - 1 else size
      modifies this
      ensures Valid() && gid == old(gid) && capSetGid == old(capSetGid) && code == if memory then OK else ENOMEM
      ensures code == OK ==> fresh(groups) && List() == WithGid(if safeList.None? then [] else safeList.value, gid)
      ensures code != OK ==> groups == old(groups) && List() == old(List())
    {
      if !memory {
        return ENOMEM;
      }
      var slots := new int[listSize + 1];
      if safeList.Some? {
        var i := 0;
        while i < size
          invariant i <= size && forall j | 0 <= j < i :: slots[j] == safeList.value[j]
          modifies slots
        {
          slots[i] := safeList.value[i];
          i := i + 1;
        }
      }
      if listSize == size {
        slots[listSize] := gid;
      }
      groups, groupNumber := slots, listSize + 1;
      ghost var list := if safeList.None? then [] else safeList.value;
      assert groups[..] == WithGid(list, gid);
      assert forall i | 0 <= i < groups.Length :: groups[i] in groups[..];
      code := OK;
    }

    /** SysSetGroups; `list` is user memory, of which as many groups can be copied as it holds. */
    method SysSetGroups(size: int, list: Option<seq<int>>, mem1: bool, mem2: bool) returns (code: Code)
      requires Valid()
      modifies this
      ensures Valid() && gid == old(gid) && capSetGid == old(capSetGid)
      ensures groups == old(groups) || fresh(groups)
      ensures code == if size != 0 && list.None? then EFAULT
                      else if size < 0 || size > 256 then EINVAL
                      else if !capSetGid then EPERM
                      else if size != 0 && !mem1 then ENOMEM
                      else if size != 0 && |list.value| < size then EFAULT
                      else if size != 0 && exists i :: 0 <= i < size && list.value[i] < 0 then EINVAL
                      else if mem2 then OK else ENOMEM
      ensures code == OK ==>
                var given := if size == 0 then [] else list.value[..size];
                List() == if gid in given then given else given + [gid]
      ensures code != OK ==> groups == old(groups) && List() == old(List())
    {
      if size != 0 && list.None? {
        return EFAULT;
      }
      if size < 0 || size > OS_GROUPS_NUMBER_MAX {
        return EINVAL;
      }
      if !capSetGid {
        return EPERM;
      }
      var listSize: int, safeList: Option<seq<int>> := size, None;
      if size != 0 {
        if !mem1 {
          return ENOMEM;
        }
        if |list.value| < size {
          return EFAULT;
        }
        var copied := list.value[..size];
        safeList := Some(copied);
        var count := 0;
        while count < size
          invariant 0 <= count <= size && forall i | 0 <= i < count :: copied[i] >= 0
          invariant listSize == if gid in copied[..count] then size - 1 else size
        {
          assert copied[..count + 1] == copied[..count] + [copied[count]];
          if copied[count] == gid {
            listSize := size - 1;
          } else if copied[count] < 0 {
            assert list.value[count] < 0;
            return EINVAL;
          }
          count := count + 1;
        }
        assert copied[..size] == copied;
      }
      code := SetGroups(listSize, safeList, size, mem2);
    }

    /** GetGroups; `list` is user memory. */
    method GetGroups(size: int, list: array?<int>, memory: bool) returns (code: Code, count: nat)
      requires Valid() && list != groups
      modifies list
      ensures code == if size == 0 then OK
                      else if list == null then EFAULT
                      else if size < |List()| then EINVAL
                      else if !memory then ENOMEM
                      else if list.Length < |List()| then EFAULT else OK
      ensures code == OK ==> count == |List()| && (size != 0 ==> list[..] == List() + old(list[..])[count..])
      ensures code != OK || size == 0 ==> list != null ==> list[..] == old(list[..])
    {
      count := groupNumber;
      if size == 0 {
        return OK, count;
      } else if list == null {
        return EFAULT, count;
      } else if size < count {
        return EINVAL, count;
      }
      if !memory {
        return ENOMEM, count;
      }
      if list.Length < count {
        return EFAULT, count;
      }
      var i := 0;
      while i < count
        invariant i <= count && forall j | 0 <= j < i :: list[j] == groups[j]
        invariant forall j | i <= j < list.Length :: list[j] == old(list[j])
        invariant groups[..] == old(groups[..])
      {
        list[i] := groups[i];
        i := i + 1;
      }
      code := OK;
    }

    method Perform(op: Op) returns (code: Code)
      requires Valid()
      modifies this, groups
      ensures Valid() && capSetGid == old(capSetGid) && (groups == old(groups) || fresh(groups))
    {
      match op
      case SetGid(g) => code := SysSetGroupID(g);
      case SetResGid(r, e, s) => code := SysSetRealEffSaveGroupID(r, e, s);
      case SetGroups(size, list, mem1, mem2) => code := SysSetGroups(size, list, mem1, mem2);
    }

    /** Every run keeps the own group in the list, and real and effective group equal. */
    method PerformAll(ops: seq<Op>)
      requires Valid()
      modifies this, groups
      ensures Valid()
    {
      var i := 0;
      while i < |ops|
        invariant i <= |ops| && Valid() && (groups == old(groups) || fresh(groups))
      {
        var code := Perform(ops[i]);
        i := i + 1;
      }
    }

    /** setgroups, then getgroups into a buffer that is large enough. */
    method SetThenGet(list: seq<int>, buffer: array<int>) returns (code: Code, count: nat)
      requires Valid() && capSetGid && buffer != groups && |list| <= 256 < buffer.Length
      requires forall g | g in list :: g >= 0
      modifies this, buffer
      ensures Valid() && code == OK && gid == old(gid) && count <= buffer.Length
      ensures buffer[..count] == if gid in list then list else list + [gid]
    {
      assert list[..|list|] == list && forall i | 0 <= i < |list| :: list[i] in list;
      code := SysSetGroups(|list|, Some(list), true, true);
      code, count := GetGroups(buffer.Length, buffer, true);
      assert buffer[..count] == List();
    }
  }

  /** SetRealEffSaveGroupIDCheck */
  function SetRealEffSaveGroupIDCheck(rgid: int, egid: int, sgid: int): (code: Code)
    ensures code == OK <==> rgid >= -1 && egid >= -1 && sgid >= -1
    ensures code in {OK, EINVAL}
  {
    if rgid < 0 && rgid != -1 then EINVAL
    else if egid < 0 && egid != -1 then EINVAL
    else if sgid < 0 && sgid != -1 then EINVAL
    else OK
  }
}
