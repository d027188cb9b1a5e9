/**
 The system call table (`syscall/los_syscall.c`): a handler for each number, and the number of
 its arguments in four bits, two of them to an octet.
 */
module SyscallTable {

  const ARG_NUM_7: bv8 := 7

  /** A line of syscall_lookup.h. */
  datatype Entry = Entry(id: nat, fun: nat, nArg: bv8)

  // ----- nibbles -----

  function Nibble(octet: bv8, odd: bool): bv8
  {
    if odd then octet >> 4 else octet & 0x0f
  }

  function Placed(nArg: bv8, odd: bool): bv8
  {
    if odd then nArg << 4 else nArg
  }

  lemma PlacedIs(nArg: bv8, odd: bool)
    ensures Placed(nArg, odd) == if odd then nArg << 4 else nArg
  {
  }

  /** A count of at most 15 is added to its own nibble and does not touch the other. */
  lemma NibbleOr(octet: bv8, nArg: bv8, odd: bool)
    requires nArg <= 15
    ensures Nibble(octet, true) == octet >> 4 && Nibble(octet, false) == octet & 0x0f
    ensures Nibble(octet | Placed(nArg, odd), odd) == Nibble(octet, odd) | nArg
    ensures Nibble(octet | Placed(nArg, odd), !odd) == Nibble(octet, !odd)
  {
    if odd {
      assert (octet | (nArg << 4)) >> 4 == (octet >> 4) | nArg;
      assert (octet | (nArg << 4)) & 0x0f == octet & 0x0f;
    } else {
      assert (octet | nArg) >> 4 == octet >> 4;
      assert (octet | nArg) & 0x0f == (octet & 0x0f) | nArg;
    }
  }

  lemma NibbleZero(odd: bool)
    ensures Nibble(0, odd) == 0
  {
  }

  // ----- what the registrations amount to -----

  /** The counts registered for a number, or-ed together. */
  function Counts(regs: seq<Entry>, id: nat): bv8
  {
    if regs == [] then 0
    else
      var before := Counts(regs[..|regs| - 1], id);
      if regs[|regs| - 1].id == id then before | regs[|regs| - 1].nArg else before
  }

  /** The handler registered last for a number. */
  function Handler(regs: seq<Entry>, id: nat): nat
  {
    if regs == [] then 0
    else if regs[|regs| - 1].id == id then regs[|regs| - 1].fun
    else Handler(regs[..|regs| - 1], id)
  }

  lemma RegisterOne(regs: seq<Entry>, e: Entry, id: nat)
    ensures Counts(regs + [e], id) == if e.id == id then Counts(regs, id) | e.nArg else Counts(regs, id)
    ensures Handler(regs + [e], id) == if e.id == id then e.fun else Handler(regs, id)
  {
    assert (regs + [e])[..|regs|] == regs;
  }

  /** Two numbers that share an octet have a nibble each. */
  lemma Neighbours(a: nat, b: nat)
    requires a != b && a / 2 == b / 2
    ensures (a % 2 == 1) == !(b % 2 == 1)
  {
  }

  lemma {:induction false} CountsNone(regs: seq<Entry>, id: nat)
    requires forall e | e in regs :: e.id != id
    ensures Counts(regs, id) == 0 && Handler(regs, id) == 0
    decreases |regs|
  {
    if regs != [] {
      assert regs[|regs| - 1] in regs && forall e | e in regs[..|regs| - 1] :: e in regs;
      CountsNone(regs[..|regs| - 1], id);
    }
  }

  lemma OrSame(n: bv8)
    ensures n | n == n && 0 | n == n
  {
  }

  /** If all registrations of a number carry the same count, that is the count. */
  lemma {:induction false} CountsSame(regs: seq<Entry>, id: nat, n: bv8)
    requires (exists e :: e in regs && e.id == id) && forall e | e in regs && e.id == id :: e.nArg == n
    ensures Counts(regs, id) == n
    decreases |regs|
  {
    var pre, last := regs[..|regs| - 1], regs[|regs| - 1];
    assert regs == pre + [last] && forall e | e in pre :: e in regs;
    OrSame(n);
    assert last in regs;
    if exists e :: e in pre && e.id == id {
      CountsSame(pre, id, n);
    } else {
      CountsNone(pre, id);
    }
  }

  /** The packed table agrees with the registrations of a number. */
  ghost predicate Right(funs: seq<nat>, octets: seq<bv8>, regs: seq<Entry>, id: nat)
    requires |octets| == (|funs| + 1) / 2 && id < |funs|
  {
    funs[id] == Handler(regs, id) && Nibble(octets[id / 2], id % 2 == 1) == Counts(regs, id)
  }

  ghost predicate Faithful(funs: seq<nat>, octets: seq<bv8>, regs: seq<Entry>)
    requires |octets| == (|funs| + 1) / 2
  {
    forall id: nat | id < |funs| :: Right(funs, octets, regs, id)
  }

  lemma RegisterRight(funs: seq<nat>, octets: seq<bv8>, regs: seq<Entry>, e: Entry, id: nat)
    requires |octets| == (|funs| + 1) / 2 && id < |funs| && Right(funs, octets, regs, id) && e.nArg <= 15
    ensures e.id >= |funs| ==> Right(funs, octets, regs + [e], id)
    ensures e.id < |funs| ==>
              var k := e.id / 2;
              Right(funs[e.id := e.fun], octets[k := octets[k] | Placed(e.nArg, e.id % 2 == 1)], regs + [e], id)
  {
    hide Nibble, Placed, Counts, Handler;
    RegisterOne(regs, e, id);
    if e.id < |funs| {
      var k, odd := e.id / 2, e.id % 2 == 1;
      NibbleOr(octets[k], e.nArg, odd);
      if id != e.id && id / 2 == k {
        Neighbours(id, e.id);
      }
    }
  }

  lemma RegisterFaithful(funs: seq<nat>, octets: seq<bv8>, regs: seq<Entry>, e: Entry)
    requires |octets| == (|funs| + 1) / 2 && Faithful(funs, octets, regs) && e.nArg <= 15
    ensures e.id >= |funs| ==> Faithful(funs, octets, regs + [e])
    ensures e.id < |funs| ==>
              var k := e.id / 2;
              Faithful(funs[e.id := e.fun], octets[k := octets[k] | Placed(e.nArg, e.id % 2 == 1)], regs + [e])
  {
    hide Nibble, Placed, Right;
    var known, k := e.id < |funs|, e.id / 2;
    var funs' := if known then funs[e.id := e.fun] else funs;
    var octets' := if known then octets[k := octets[k] | Placed(e.nArg, e.id % 2 == 1)] else octets;
    forall id: nat | id < |funs'| ensures Right(funs', octets', regs + [e], id) {
      assert Right(funs, octets, regs, id);
      RegisterRight(funs, octets, regs, e, id);
    }
  }

  datatype Dispatch = BadNumber | Unsupported | Call(fun: nat, nArgs: bv8)

  class Table {
    const handle: array<nat>
    const nArgs: array<bv8>

    ghost predicate Valid()
      reads this
    {
      nArgs.Length == (handle.Length + 1) / 2 && handle as object != nArgs as object
    }

    /** The table holds what was registered, for every number. */
    ghost predicate Holds(regs: seq<Entry>)
      requires Valid()
      reads this, handle, nArgs
    {
      Faithful(handle[..], nArgs[..], regs)
    }

    /** The table of `num` (SYS_CALL_NUM) numbers, all zero. */
    constructor (num: nat)
      ensures Valid() && handle.Length == num && fresh(handle) && fresh(nArgs) && Holds([])
    {
      handle := new nat[num](_ => 0);
      nArgs := new bv8[(num + 1) / 2](_ => 0);
      new;
      NibbleZero(true);
      NibbleZero(false);
    }

    /** SYSCALL_HAND_DEF */
    method Register(e: Entry, ghost regs: seq<Entry>)
      requires Valid() && e.nArg <= 15 && Holds(regs)
      modifies handle, nArgs
      ensures Holds(regs + [e])
      ensures handle[..] == if e.id < handle.Length then old(handle[..])[e.id := e.fun] else old(handle[..])
      ensures e.id >= handle.Length ==> nArgs[..] == old(nArgs[..])
      ensures e.id < handle.Length ==>
                nArgs[..] == old(nArgs[..])[e.id / 2 := old(nArgs[e.id / 2]) | if e.id % 2 == 1 then e.nArg << 4 else e.nArg]
    {
      hide Nibble, Placed, Faithful;
      ghost var funs, octets := handle[..], nArgs[..];
      RegisterFaithful(funs, octets, regs, e);
      if e.id < handle.Length {
        var k := e.id / 2;
        PlacedIs(e.nArg, e.id % 2 == 1);
        var octet := nArgs[k] | Placed(e.nArg, e.id % 2 == 1);
        handle[e.id] := e.fun;
        nArgs[k] := octet;
        assert handle[..] == funs[e.id := e.fun] && nArgs[..] == octets[k := octet];
      }
    }

    /** OsSyscallHandleInit */
    method OsSyscallHandleInit(regs: seq<Entry>)
      requires Valid() && Holds([]) && forall e | e in regs :: e.nArg <= 15
      modifies handle, nArgs
      ensures Holds(regs)
    {
      var i := 0;
      while i < |regs|
        invariant i <= |regs| && Holds(regs[..i])
      {
        assert regs[..i + 1] == regs[..i] + [regs[i]];
        Register(regs[i], regs[..i]);
        i := i + 1;
      }
      assert regs[..|regs|] == regs;
    }

    /** The first part of OsArmA32SyscallHandle. */
    method Decode(cmd: nat, ghost regs: seq<Entry>) returns (d: Dispatch)
      requires Valid() && Holds(regs)
      ensures d == if cmd >= handle.Length then BadNumber
                   else if Handler(regs, cmd) == 0 || Counts(regs, cmd) > 7 then Unsupported
                   else Call(Handler(regs, cmd), Counts(regs, cmd))
    {
      if cmd >= handle.Length {
        return BadNumber;
      }
      assert Right(handle[..], nArgs[..], regs, cmd);
      var fun, octet := handle[cmd], nArgs[cmd / 2];
      var n := if cmd % 2 == 1 then octet >> 4 else octet & 0x0f;
      if fun == 0 || n > ARG_NUM_7 {
        return Unsupported;
      }
      d := Call(fun, n);
    }
  }
}
