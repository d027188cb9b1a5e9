/**
 Canonical-mode input of the console (`kernel/common/console.c`), in the sense of section 11.1.6
 of POSIX.1-2017 Base Definitions: a line is edited in a FIFO while it is typed and delivered,
 once complete, by reads of any size.
 */
module ConsoleLine {
  import opened Fnv
  import Lists

  const CONSOLE_FIFO_SIZE: nat := 0x400

  const BS: Octet := 0x08
  const NL: Octet := 0x0a
  const CR: Octet := 0x0d
  const ESC: Octet := 0x1b
  const BRACKET: Octet := 0x5b

  /** What the reads of the device yield, one after the other: an octet, or `-code`. */
  datatype Event = Byte(ch: Octet) | Fail(code: nat)

  type Script = seq<Event>

  // ----- the reference: three passes over the whole input -----

  datatype KeyState = NormalKey | EscKey | MultiKey

  predicate IsArrow(ch: Octet)
  {
    ch == 0x41 || ch == 0x42 || ch == 0x43 || ch == 0x44
  }

  /** Part of the escape sequence of an arrow key. */
  predicate OfArrowKey(ch: Octet, key: KeyState)
  {
    ch == ESC || (ch == BRACKET && key.EscKey?) || (IsArrow(ch) && key.MultiKey?)
  }

  /** Other octets leave the state as it is: an escape sequence may be interrupted. */
  function NextKey(ch: Octet, key: KeyState): KeyState
  {
    if ch == ESC then EscKey
    else if ch == BRACKET && key.EscKey? then MultiKey
    else if IsArrow(ch) && key.MultiKey? then NormalKey
    else key
  }

  predicate EndsLine(ch: Octet)
  {
    ch == CR || ch == NL
  }

  /** The first pass takes the arrow keys away; a line end or a failed read forgets the state. */
  function Visible(script: Script, key: KeyState): Script
  {
    if script == [] then []
    else match script[0]
      case Fail(_) => [script[0]] + Visible(script[1..], NormalKey)
      case Byte(ch) =>
        if OfArrowKey(ch, key) then Visible(script[1..], NextKey(ch, key))
        else [script[0]] + Visible(script[1..], if EndsLine(ch) then NormalKey else key)
  }

  /** The second pass turns CR into NL. */
  function Cooked(script: Script): Script
  {
    seq(|script|, i requires 0 <= i < |script| => if script[i] == Byte(CR) then Byte(NL) else script[i])
  }

  /** A line that has reached 1022 octets ignores all input, the backspace included. */
  function Typed(line: Octets, ch: Octet): Octets
  {
    if |line| > CONSOLE_FIFO_SIZE - 3 then line
    else if ch != BS then line + [ch]
    else if line == [] then []
    else line[..|line| - 1]
  }

  /**
   A backspace takes back the octet before it, except the one that fills the line up: the full
   line ignores the backspace too.
   */
  lemma BackspaceUndoes(line: Octets, ch: Octet)
    requires ch != BS && |line| <= CONSOLE_FIFO_SIZE - 2
    ensures Typed(Typed(line, ch), BS) == line <==> |line| != CONSOLE_FIFO_SIZE - 3
  {
    if |line| < CONSOLE_FIFO_SIZE - 3 {
      assert (line + [ch])[..|line|] == line;
    } else if |line| == CONSOLE_FIFO_SIZE - 3 {
      assert |Typed(Typed(line, ch), BS)| == |line| + 1;
    }
  }

  /** The third pass edits the lines; the result is the text of all complete lines. */
  function Edited(script: Script, line: Octets): Octets
  {
    if script == [] then []
    else match script[0]
      case Fail(_) => Edited(script[1..], line)
      case Byte(ch) =>
        if ch == NL then line + [NL] + Edited(script[1..], []) else Edited(script[1..], Typed(line, ch))
  }

  /** The text that a script, typed after the partial `line`, amounts to. */
  function Text(script: Script, key: KeyState, line: Octets): Octets
  {
    Edited(Cooked(Visible(script, key)), line)
  }

  // ----- what the text is, octet by octet -----

  lemma VisibleFirst(e: Event, rest: Script, key: KeyState)
    ensures e.Fail? ==> Visible([e] + rest, key) == [e] + Visible(rest, NormalKey)
    ensures e.Byte? && OfArrowKey(e.ch, key) ==> Visible([e] + rest, key) == Visible(rest, NextKey(e.ch, key))
    ensures e.Byte? && !OfArrowKey(e.ch, key) ==>
              Visible([e] + rest, key) == [e] + Visible(rest, if EndsLine(e.ch) then NormalKey else key)
  {
    assert ([e] + rest)[1..] == rest;
  }

  lemma EditedFirst(e: Event, rest: Script, line: Octets)
    ensures e.Fail? ==> Edited([e] + rest, line) == Edited(rest, line)
    ensures e == Byte(NL) ==> Edited([e] + rest, line) == line + [NL] + Edited(rest, [])
    ensures e.Byte? && e.ch != NL ==> Edited([e] + rest, line) == Edited(rest, Typed(line, e.ch))
  {
    assert ([e] + rest)[1..] == rest;
  }

  lemma TextFirst(e: Event, rest: Script, key: KeyState, line: Octets)
    ensures e.Fail? ==> Text([e] + rest, key, line) == Text(rest, NormalKey, line)
    ensures e.Byte? && OfArrowKey(e.ch, key) ==> Text([e] + rest, key, line) == Text(rest, NextKey(e.ch, key), line)
    ensures e.Byte? && !OfArrowKey(e.ch, key) && EndsLine(e.ch) ==>
              Text([e] + rest, key, line) == line + [NL] + Text(rest, NormalKey, [])
    ensures e.Byte? && !OfArrowKey(e.ch, key) && !EndsLine(e.ch) ==>
              Text([e] + rest, key, line) == Text(rest, key, Typed(line, e.ch))
  {
    VisibleFirst(e, rest, key);
    hide Visible, Edited, Cooked;
    if e.Fail? {
      CookedFirst(e, Visible(rest, NormalKey));
      EditedFirst(e, Cooked(Visible(rest, NormalKey)), line);
    } else if !OfArrowKey(e.ch, key) {
      var key' := if EndsLine(e.ch) then NormalKey else key;
      CookedFirst(e, Visible(rest, key'));
      EditedFirst(if e == Byte(CR) then Byte(NL) else e, Cooked(Visible(rest, key')), line);
    }
  }

  /** An octet of no special meaning: none of backspace, NL, CR and ESC, and not within an escape sequence. */
  predicate Plain(ch: Octet, key: KeyState)
  {
    && ch != 0x08 && ch != 0x0a && ch != 0x0d && ch != 0x1b
    && !(ch == 0x5b && key == EscKey) && !(0x41 <= ch <= 0x44 && key == MultiKey)
  }

  /**
   What each input does to the text: a plain octet is added to the line if that has less than 1022;
   a backspace takes the last octet off such a line; CR and NL end the line with NL; ESC, then `[`,
   then one of `A` to `D` leave no trace; a failed read ends such a sequence and keeps the line.
   */
  lemma TextLaw(ch: Octet, code: nat, rest: Script, key: KeyState, line: Octets)
    ensures Plain(ch, key) ==>
              Text([Byte(ch)] + rest, key, line) == Text(rest, key, if |line| < 1022 then line + [ch] else line)
    ensures Text([Byte(0x08)] + rest, key, line)
         == Text(rest, key, if 0 < |line| < 1022 then line[..|line| - 1] else line)
    ensures Text([Byte(0x0a)] + rest, key, line) == line + [0x0a] + Text(rest, NormalKey, [])
    ensures Text([Byte(0x0d)] + rest, key, line) == line + [0x0a] + Text(rest, NormalKey, [])
    ensures Text([Byte(0x1b)] + rest, key, line) == Text(rest, EscKey, line)
    ensures Text([Byte(0x5b)] + rest, EscKey, line) == Text(rest, MultiKey, line)
    ensures 0x41 <= ch <= 0x44 ==> Text([Byte(ch)] + rest, MultiKey, line) == Text(rest, NormalKey, line)
    ensures Text([Fail(code)] + rest, key, line) == Text(rest, NormalKey, line)
    ensures Text([], key, line) == []
  {
    TextNone(key, line);
    hide Text;
    TextFirst(Byte(ch), rest, key, line);
    TextFirst(Byte(0x08), rest, key, line);
    TextFirst(Byte(0x0a), rest, key, line);
    TextFirst(Byte(0x0d), rest, key, line);
    TextFirst(Byte(0x1b), rest, key, line);
    TextFirst(Byte(0x5b), rest, EscKey, line);
    TextFirst(Byte(ch), rest, MultiKey, line);
    TextFirst(Fail(code), rest, key, line);
  }

  lemma TextNone(key: KeyState, line: Octets)
    ensures Text([], key, line) == []
  {
  }

  function Bytes(s: Octets): Script
  {
    seq(|s|, i requires 0 <= i < |s| => Byte(s[i]))
  }

  /** At most the first 1022 octets. */
  function Capped(s: Octets): (r: Octets)
    ensures r == if |s| <= 1022 then s else s[..1022]
  {
    if |s| <= 1022 then s else s[..1022]
  }

  /** Plain octets and a CR amount to these octets and NL; a line has room for 1022. */
  lemma {:induction false} PlainText(s: Octets, rest: Script, line: Octets)
    requires |line| <= 1022 && forall ch | ch in s :: Plain(ch, NormalKey)
    ensures Text(Bytes(s) + ([Byte(0x0d)] + rest), NormalKey, line)
         == Capped(line + s) + [0x0a] + Text(rest, NormalKey, [])
  {
    hide Text;
    var end := [Byte(0x0d)] + rest;
    if s == [] {
      assert Bytes(s) + end == end && line + s == line;
      TextLaw(0, 0, rest, NormalKey, line);
    } else {
      var ch, tail := s[0], s[1..];
      assert ch in s && forall x | x in tail :: x in s;
      assert Bytes(s) + end == [Byte(ch)] + (Bytes(tail) + end);
      TextLaw(ch, 0, Bytes(tail) + end, NormalKey, line);
      var line' := if |line| < 1022 then line + [ch] else line;
      PlainText(tail, rest, line');
      CappedNext(line, ch, tail);
    }
  }

  lemma CappedNext(line: Octets, ch: Octet, tail: Octets)
    requires |line| <= 1022
    ensures Capped(line + ([ch] + tail)) == Capped((if |line| < 1022 then line + [ch] else line) + tail)
  {
    if |line| < 1022 {
      assert line + ([ch] + tail) == (line + [ch]) + tail;
    } else {
      assert (line + ([ch] + tail))[..1022] == line && Capped(line + tail) == line;
    }
  }

  /** An arrow key leaves no trace, whatever was typed before it. */
  lemma ArrowText(arrow: Octet, rest: Script, key: KeyState, line: Octets)
    requires 0x41 <= arrow <= 0x44
    ensures Text([Byte(0x1b), Byte(0x5b), Byte(arrow)] + rest, key, line) == Text(rest, NormalKey, line)
  {
    hide Text;
    var a, b, c := Byte(0x1b), Byte(0x5b), Byte(arrow);
    assert [a, b, c] + rest == [a] + ([b] + ([c] + rest));
    TextLaw(0, 0, [b] + ([c] + rest), key, line);
    TextLaw(0, 0, [c] + rest, EscKey, line);
    TextLaw(arrow, 0, rest, MultiKey, line);
  }

  // ----- one line at a time -----

  /** A complete line, or the partial one at which the device had nothing more to offer. */
  datatype Fetched = Complete(line: Octets, rest: Script) | Stopped(ret: int, partial: Octets, rest: Script)

  function Fetch(script: Script, key: KeyState, line: Octets): Fetched
  {
    if script == [] then Stopped(0, line, [])
    else match script[0]
      case Fail(code) => Stopped(0 - code, line, script[1..])
      case Byte(ch) =>
        if OfArrowKey(ch, key) then Fetch(script[1..], NextKey(ch, key), line)
        else if EndsLine(ch) then Complete(line + [NL], script[1..])
        else Fetch(script[1..], key, Typed(line, ch))
  }

  lemma CookedFirst(e: Event, rest: Script)
    ensures Cooked([e] + rest) == [if e == Byte(CR) then Byte(NL) else e] + Cooked(rest)
  {
    assert ([e] + rest)[1..] == rest;
  }

  /** Fetching line by line yields the text of the reference, no matter where it stops. */
  lemma {:induction false} FetchIsText(script: Script, key: KeyState, line: Octets)
    ensures match Fetch(script, key, line)
            case Complete(l, rest) => Text(script, key, line) == l + Text(rest, NormalKey, [])
            case Stopped(_, l, rest) => Text(script, key, line) == Text(rest, NormalKey, l)
  {
    if script != [] {
      var e, rest := script[0], script[1..];
      match e
      case Fail(code) =>
        CookedFirst(e, Visible(rest, NormalKey));
      case Byte(ch) =>
        if OfArrowKey(ch, key) {
          FetchIsText(rest, NextKey(ch, key), line);
        } else if EndsLine(ch) {
          CookedFirst(e, Visible(rest, NormalKey));
        } else {
          CookedFirst(e, Visible(rest, key));
          FetchIsText(rest, key, Typed(line, ch));
        }
    }
  }

  /** The device failed with `ret`, and `rest` is what comes after that. */
  ghost predicate FailedAt(script: Script, ret: int, rest: Script)
  {
    exists n: nat :: n < |script| && script[n].Fail? && ret == 0 - script[n].code && rest == script[n + 1..]
  }

  /** Fetch stops only at a failed read or at the end of the input. */
  lemma {:induction false} FetchStops(script: Script, key: KeyState, line: Octets)
    ensures match Fetch(script, key, line)
            case Complete(l, rest) => l != [] && l[|l| - 1] == NL && |rest| < |script|
            case Stopped(ret, _, rest) => (rest == [] && ret == 0) || FailedAt(script, ret, rest)
  {
    if script != [] && script[0].Byte? {
      var ch, rest := script[0].ch, script[1..];
      if OfArrowKey(ch, key) || !EndsLine(ch) {
        var key', line' := if OfArrowKey(ch, key) then NextKey(ch, key) else key,
                           if OfArrowKey(ch, key) then line else Typed(line, ch);
        FetchStops(rest, key', line');
        var f := Fetch(rest, key', line');
        if f.Stopped? && !(f.rest == [] && f.ret == 0) {
          var n: nat :| n < |rest| && rest[n].Fail? && f.ret == 0 - rest[n].code && f.rest == rest[n + 1..];
          assert script[n + 1] == rest[n] && script[n + 2..] == rest[n + 1..];
        }
      }
    } else if script != [] {
      assert script[0].Fail? && Fetch(script, key, line).ret == 0 - script[0].code;
    }
  }

  lemma FetchShorter(script: Script, key: KeyState, line: Octets)
    ensures var rest := Fetch(script, key, line).rest; |rest| < |script| || rest == []
  {
    FetchStops(script, key, line);
  }

  lemma SliceParts(s: Octets, a: nat, b: nat, n: nat)
    requires a + n <= b <= |s|
    ensures s[a..b][..n] == s[a..a + n] && s[a..b][n..] == s[a + n..b]
  {
  }

  /** A read takes a part of the pending line. */
  lemma Rejoin(p: Octets, n: nat, text: Octets)
    requires n <= |p|
    ensures p[..n] + (p[n..] + text) == p + text
  {
  }

  lemma NoText(line: Octets)
    ensures Text([], NormalKey, line) == []
  {
  }

  lemma NothingRead(text: Octets)
    ensures [] + text == text
  {
  }

  class Console {
    const fifo: array<Octet>
    var fifoOut: nat
    var fifoIn: nat
    var currentLen: nat
    const echo: bool
    // the device: what it will yield, and what was written to it
    var script: Script
    var shown: Octets

    ghost predicate Valid()
      reads this, fifo
    {
      && fifo.Length == CONSOLE_FIFO_SIZE && fifoOut <= fifoIn < CONSOLE_FIFO_SIZE
      && (currentLen > 0 ==> currentLen == fifoIn - fifoOut)
      && (currentLen == 0 ==> fifoOut == 0 && fifoIn <= CONSOLE_FIFO_SIZE - 2)
    }

    /** The rest of a complete line. */
    ghost function Pending(): Octets
      requires Valid()
      reads this, fifo
    {
      if currentLen > 0 then fifo[fifoOut..fifoIn] else []
    }

    /** The line that is being typed. */
    ghost function Line(): Octets
      requires Valid()
      reads this, fifo
    {
      if currentLen == 0 then fifo[..fifoIn] else []
    }

    /** All that the console has still to deliver. */
    ghost function Unread(): Octets
      requires Valid()
      reads this, fifo
    {
      Pending() + Text(script, NormalKey, Line())
    }

    constructor (script: Script, echo: bool)
      ensures Valid() && fresh(fifo) && Pending() == [] && Line() == [] && this.script == script && this.echo == echo
    {
      fifo := new Octet[CONSOLE_FIFO_SIZE];
      fifoOut, fifoIn, currentLen := 0, 0, 0;
      this.script, this.echo, shown := script, echo, [];
    }

    /** One octet from the device. */
    method DeviceRead() returns (ret: int, ch: Octet)
      modifies this`script
      ensures old(script) == [] ==> ret == 0 && script == []
      ensures old(script) != [] ==> script == old(script)[1..]
      ensures old(script) != [] && old(script)[0].Fail? ==> ret == 0 - old(script)[0].code
      ensures old(script) != [] && old(script)[0].Byte? ==> ret == 1 && ch == old(script)[0].ch
    {
      if script == [] {
        return 0, 0;
      }
      match script[0] {
        case Byte(c) => ret, ch := 1, c;
        case Fail(code) => ret, ch := 0 - code, 0;
      }
      script := script[1..];
    }

    /** UserShellCheckUDRL */
    method UserShellCheckUDRL(ch: Octet, last: KeyState) returns (ok: bool, key: KeyState)
      ensures ok == OfArrowKey(ch, last) && key == NextKey(ch, last)
    {
      if ch == 0x1b {
        return true, EscKey;
      } else if ch == 0x5b {
        if last == EscKey {
          return true, MultiKey;
        }
      } else if ch == 0x41 {
        if last == MultiKey {
          return true, NormalKey;
        }
      } else if ch == 0x42 {
        if last == MultiKey {
          return true, NormalKey;
        }
      } else if ch == 0x43 {
        if last == MultiKey {
          return true, NormalKey;
        }
      } else if ch == 0x44 {
        if last == MultiKey {
          return true, NormalKey;
        }
      }
      return false, last;
    }

    /** IsNeedContinue: true for an octet to be skipped. */
    method IsNeedContinue(ch: Octet, last: KeyState) returns (skip: bool, key: KeyState)
      ensures skip == ((ch == BS && echo && fifoOut == fifoIn) || OfArrowKey(ch, last)) && key == NextKey(ch, last)
    {
      if ch == BS && echo && fifoOut == fifoIn {
        return true, last;
      }
      skip, key := UserShellCheckUDRL(ch, last);
    }

    method EchoToTerminal(ch: Octet)
      modifies this`shown
      ensures !echo ==> shown == old(shown)
      ensures echo ==> shown == old(shown) + if ch == BS then [BS, 0x20, BS] else [ch]
    {
      if echo {
        if ch == BS {
          shown := shown + [BS, 0x20, BS];
        } else {
          shown := shown + [ch];
        }
      }
    }

    /** StoreReadChar, for a read of one octet. */
    method StoreReadChar(ch: Octet)
      requires Valid() && currentLen == 0
      modifies this`fifoIn, fifo
      ensures Valid() && Line() == Typed(old(Line()), ch)
      ensures |old(Line())| >= 1022 ==> Line() == old(Line())
      ensures |old(Line())| < 1022 && ch != 0x08 ==> Line() == old(Line()) + [ch]
      ensures |old(Line())| < 1022 && ch == 0x08 ==>
                Line() == if old(Line()) == [] then [] else old(Line())[..|old(Line())| - 1]
    {
      if fifoIn <= CONSOLE_FIFO_SIZE - 3 {
        if ch == BS {
          if fifoOut != fifoIn {
            fifoIn := fifoIn - 1;
            fifo[fifoIn] := 0;
          }
        } else {
          fifo[fifoIn] := ch;
          fifoIn := fifoIn + 1;
        }
      }
    }

    /** UserEndOfRead */
    method UserEndOfRead()
      requires Valid() && currentLen == 0
      modifies this`fifoIn, this`currentLen, this`shown, fifo
      ensures Valid() && Pending() == old(Line()) + [NL] && Line() == []
    {
      if echo {
        shown := shown + [CR];
      }
      fifo[fifoIn] := NL;
      fifoIn := fifoIn + 1;
      fifo[fifoIn] := 0;
      currentLen := fifoIn;
    }

    /** ConsoleReadFifo */
    method ConsoleReadFifo(buffer: array<Octet>, bufLen: nat) returns (readNum: nat)
      requires Valid() && bufLen <= buffer.Length && buffer != fifo && currentLen > 0
      modifies this`fifoIn, this`fifoOut, this`currentLen, fifo, buffer
      ensures Valid() && Line() == [] && readNum == (if bufLen < |old(Pending())| then bufLen else |old(Pending())|)
      ensures buffer[..] == old(Pending())[..readNum] + old(buffer[..])[readNum..]
      ensures Pending() == old(Pending())[readNum..]
      ensures bufLen == 0 ==> Pending() == old(Pending())
    {
      readNum := if bufLen < currentLen then bufLen else currentLen;
      SliceParts(fifo[..], fifoOut, fifoIn, readNum);
      CopyOut(buffer, readNum);
      fifoOut := fifoOut + readNum;
      if fifoOut == fifoIn {
        ConsoleFifoClearup();
      }
      currentLen := fifoIn - fifoOut;
    }

    /** memcpy_s */
    method CopyOut(buffer: array<Octet>, n: nat)
      requires buffer != fifo && n <= buffer.Length && fifoOut + n <= fifo.Length
      modifies buffer
      ensures buffer[..] == fifo[fifoOut..fifoOut + n] + old(buffer[..])[n..]
    {
      var i := 0;
      while i < n
        invariant i <= n
        invariant forall j | 0 <= j < i :: buffer[j] == fifo[fifoOut + j]
        invariant forall j | i <= j < buffer.Length :: buffer[j] == old(buffer[j])
      {
        buffer[i] := fifo[fifoOut + i];
        i := i + 1;
      }
    }

    method ConsoleFifoClearup()
      modifies this`fifoIn, this`fifoOut, fifo
      ensures fifoOut == fifoIn == 0
    {
      fifoOut, fifoIn := 0, 0;
      var i := 0;
      while i < fifo.Length
        invariant fifoOut == fifoIn == 0
      {
        fifo[i] := 0;
        i := i + 1;
      }
    }

    /** The loop of UserFilepRead: octets are read and edited until a line is complete. */
    method ReadLine() returns (ret: int, complete: bool)
      requires Valid() && currentLen == 0
      modifies this, fifo
      ensures Valid()
      ensures match Fetch(old(script), NormalKey, old(Line()))
              case Complete(l, rest) => complete && Pending() == l && script == rest
              case Stopped(code, l, rest) => !complete && ret == code <= 0 && currentLen == 0 && Line() == l && script == rest
    {
      var key, ch := NormalKey, 0 as Octet;
      ghost var goal := Fetch(script, NormalKey, Line());
      while true
        invariant Valid() && currentLen == 0 && goal == Fetch(script, key, Line())
        decreases |script|
      {
        ret, ch := DeviceRead();
        if ret <= 0 {
          return ret, false;
        }
        var skip;
        skip, key := IsNeedContinue(ch, key);
        if skip {
          continue;
        }
        if ch == CR || ch == NL {
          EchoToTerminal(NL);
          UserEndOfRead();
          return ret, true;
        }
        EchoToTerminal(ch);
        StoreReadChar(ch);
      }
    }

    /**
     UserFilepRead in canonical mode, with a device that can be read.  What is delivered and what
     is left make up what was to be delivered; nothing is lost at a failed read.
     */
    method UserFilepRead(buffer: array<Octet>, bufLen: nat) returns (ret: int)
      requires Valid() && buffer != fifo && 0 < bufLen <= buffer.Length
      modifies this, fifo, buffer
      ensures Valid() && ret <= bufLen
      ensures (if ret > 0 then buffer[..ret] else []) + Unread() == old(Unread())
      ensures ret <= 0 ==> (script == [] && ret == 0 && Unread() == []) || FailedAt(old(script), ret, script)
      ensures |script| <= |old(script)| && (ret <= 0 ==> Unread() == [] || |script| < |old(script)|)
      ensures var f := Fetch(old(script), NormalKey, old(Line()));
              var next := if old(Pending()) != [] then old(Pending()) else if f.Complete? then f.line else [];
              ret > 0 ==> ret == (if bufLen < |next| then bufLen else |next|) && buffer[..ret] == next[..ret]
      ensures ret > 0 <==> old(Pending()) != [] || Fetch(old(script), NormalKey, old(Line())).Complete?
    {
      hide Text, Fetch, FailedAt;
      ghost var s, l := script, Line();
      if currentLen == 0 {
        var complete;
        FetchIsText(s, NormalKey, l);
        FetchStops(s, NormalKey, l);
        ret, complete := ReadLine();
        FetchShorter(s, NormalKey, l);
        NothingRead(Text(s, NormalKey, l));
        if !complete {
          NoText(Line());
          NothingRead(Text(script, NormalKey, Line()));
          NothingRead(Unread());
          return;
        }
      }
      ghost var p, text := Pending(), Text(script, NormalKey, []);
      ret := ConsoleReadFifo(buffer, bufLen);
      assert p + text == old(Unread());
      assert buffer[..ret] == p[..ret];
      Rejoin(p, ret, text);
    }

    /**
     Any sequence of reads delivers the text of the reference editor, from its beginning; and all of
     it, once there are as many reads as octets to deliver and events to come from the device.
     */
    method ReadAll(sizes: seq<nat>) returns (data: Octets)
      requires Valid() && forall n | n in sizes :: 0 < n <= CONSOLE_FIFO_SIZE
      modifies this, fifo
      ensures Valid() && data + Unread() == old(Unread())
      ensures |sizes| >= |old(Unread())| + |old(script)| ==> data == old(Unread())
    {
      hide Text, Fetch, FailedAt;
      data := [];
      NothingRead(Unread());
      var i := 0;
      while i < |sizes|
        invariant i <= |sizes| && Valid() && data + Unread() == old(Unread())
        invariant Unread() == [] || |Unread()| + |script| + i <= |old(Unread())| + |old(script)|
      {
        assert sizes[i] in sizes;
        var buffer := new Octet[sizes[i]];
        var ret := UserFilepRead(buffer, sizes[i]);
        if ret > 0 {
          Lists.Regroup(data, buffer[..ret], Unread());
          data := data + buffer[..ret];
        } else {
          NothingRead(Unread());
        }
        i := i + 1;
      }
    }
  }

  /**
   Octets without special meaning, then CR, are typed on a new console: reads of any sizes, if they
   are enough, deliver these octets and NL.
   */
  method ReadTyped(typed: Octets, echo: bool, sizes: seq<nat>) returns (data: Octets)
    requires forall ch | ch in typed :: ch != 0x08 && ch != 0x0a && ch != 0x0d && ch != 0x1b
    requires |sizes| >= 2 * |typed| + 2 && forall n | n in sizes :: 0 < n <= CONSOLE_FIFO_SIZE
    ensures data == (if |typed| <= 1022 then typed else typed[..1022]) + [0x0a]
  {
    hide Text, Capped;
    var script := Bytes(typed) + ([Byte(0x0d)] + []);
    PlainText(typed, [], []);
    TextNone(NormalKey, []);
    assert [] + typed == typed;
    var console := new Console(script, echo);
    CappedSize(typed);
    data := console.ReadAll(sizes);
  }

  lemma CappedSize(s: Octets)
    ensures |Capped(s) + [0x0a] + []| <= |s| + 1 && Capped(s) + [0x0a] + [] == Capped(s) + [0x0a]
  {
  }
}
