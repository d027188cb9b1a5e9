/** Boot arguments (`fs/rootfs/los_bootargs.c`): words separated by spaces, of the form `name=value` or `flag`. */
module BootArgs {
  import opened PathCache

  const MAX_ARGS_NUM: nat := 100

  // ----- cutting strings -----

  /** The position of the first `c`, or the end of the string. */
  function FirstOf(s: string, c: char): (n: nat)
    ensures n <= |s| && (n < |s| ==> s[n] == c) && c !in s[..n]
  {
    if s == [] || s[0] == c then 0
    else
      var n := 1 + FirstOf(s[1..], c);
      assert s[..n] == [s[0]] + s[1..][..n - 1];
      n
  }

  lemma {:induction false} FirstOfIs(s: string, c: char, n: nat)
    requires n <= |s| && c !in s[..n] && (n < |s| ==> s[n] == c)
    ensures FirstOf(s, c) == n
  {
    if n > 0 {
      assert s[..n][0] == s[0] && s[0] in s[..n];
      assert forall x | x in s[1..][..n - 1] :: x in s[..n];
      FirstOfIs(s[1..], c, n - 1);
    }
  }

  /** All the words of a string; two separators in a row have an empty word between them. */
  function Words(s: string, c: char): (ws: seq<string>)
    ensures |ws| >= 1
    decreases |s|
  {
    var n := FirstOf(s, c);
    if n == |s| then [s] else [s[..n]] + Words(s[n + 1..], c)
  }

  lemma WordsNext(s: string, c: char, all: seq<string>, idx: nat)
    requires idx <= |all| && all[idx..] == Words(s, c)
    ensures idx < |all| && all[idx] == s[..FirstOf(s, c)]
    ensures if FirstOf(s, c) == |s| then idx + 1 == |all| else all[idx + 1..] == Words(s[FirstOf(s, c) + 1..], c)
  {
    assert all[idx] == all[idx..][0] && all[idx + 1..] == all[idx..][1..];
  }

  /** A word at its first `=`: name and value; a word without one is its own value. */
  function Parsed(word: string): (string, string)
  {
    var n := FirstOf(word, '=');
    if n == |word| then (word, word) else (word[..n], word[n + 1..])
  }

  /** How words and names are cut off: at the first space and at the first `=`. */
  lemma CutLaw(word: string, rest: string)
    ensures ' ' !in word ==> Words(word, ' ') == [word] && Words(word + " " + rest, ' ') == [word] + Words(rest, ' ')
    ensures '=' !in word ==> Parsed(word) == (word, word) && Parsed(word + "=" + rest) == (word, rest)
  {
    assert word[..|word|] == word;
    if ' ' !in word {
      OneWord(word, ' ');
      FirstWord(word, ' ', rest);
    }
    if '=' !in word {
      FirstOfIs(word, '=', |word|);
      var s := word + "=" + rest;
      assert s[..|word|] == word && s[|word| + 1..] == rest;
      FirstOfIs(s, '=', |word|);
    }
  }

  type Slot = Option<(string, string)>

  /** The table after parsing: the words in order, as many as fit; the other slots stay. */
  function Filled(table: seq<Slot>, ws: seq<string>): seq<Slot>
  {
    seq(|table|, i requires 0 <= i < |table| => if i < |ws| then Some(Parsed(ws[i])) else table[i])
  }

  /** The value in the first slot with that name, before any empty slot. */
  function Lookup(table: seq<Slot>, name: string): Option<string>
  {
    if table == [] || table[0].None? then None
    else if table[0].value.0 == name then Some(table[0].value.1)
    else Lookup(table[1..], name)
  }

  /** Looking up finds the first slot with the name, unless an empty one comes before it. */
  lemma {:induction false} LookupIs(table: seq<Slot>, name: string)
    ensures match Lookup(table, name)
            case Some(v) =>
              (exists i :: 0 <= i < |table| && table[i] == Some((name, v))
                           && forall j | 0 <= j < i :: table[j].Some? && table[j].value.0 != name)
            case None =>
              (forall i | 0 <= i < |table| && table[i].Some? && table[i].value.0 == name ::
                 exists j :: 0 <= j < i && table[j].None?)
  {
    if table != [] && table[0].Some? && table[0].value.0 != name {
      var rest := table[1..];
      LookupIs(rest, name);
      match Lookup(rest, name)
      case Some(v) =>
        var i :| 0 <= i < |rest| && rest[i] == Some((name, v))
                 && forall j | 0 <= j < i :: rest[j].Some? && rest[j].value.0 != name;
        assert table[i + 1] == rest[i] && forall j | 1 <= j < i + 1 :: table[j] == rest[j - 1];
      case None =>
        forall i | 0 <= i < |table| && table[i].Some? && table[i].value.0 == name
          ensures exists j :: 0 <= j < i && table[j].None?
        {
          assert rest[i - 1] == table[i];
          var j :| 0 <= j < i - 1 && rest[j].None?;
          assert table[j + 1].None?;
        }
    }
  }

  // ----- the kernel's own loops -----

  /** strsep with one separator: the word before it, and what follows it (NULL without one). */
  method StrSep(s: string, c: char) returns (word: string, rest: Option<string>)
    ensures word == s[..FirstOf(s, c)]
    ensures rest == if FirstOf(s, c) == |s| then None else Some(s[FirstOf(s, c) + 1..])
  {
    var n := 0;
    while n < |s| && s[n] != c
      invariant n <= |s| && c !in s[..n]
    {
      assert s[..n + 1] == s[..n] + [s[n]];
      n := n + 1;
    }
    FirstOfIs(s, c, n);
    word, rest := s[..n], if n == |s| then None else Some(s[n + 1..]);
  }

  class ArgTable {
    const slots: array<Slot>

    constructor ()
      ensures fresh(slots) && slots.Length == MAX_ARGS_NUM && forall i | 0 <= i < slots.Length :: slots[i] == None
    {
      slots := new Slot[MAX_ARGS_NUM](_ => None);
    }

    /** The body of the loop: the name ends at the first `=`. */
    method Store(idx: nat, word: string)
      requires idx < slots.Length
      modifies slots
      ensures slots[..] == old(slots[..])[idx := Some(Parsed(word))]
    {
      assert word[..|word|] == word;
      var argName, argValue := StrSep(word, '=');
      if argValue.None? {
        slots[idx] := Some((argName, argName));
      } else {
        slots[idx] := Some((argName, argValue.value));
      }
    }

    /** LOS_ParseBootargs; `bootargs` is None if GetBootargs fails. */
    method ParseBootargs(bootargs: Option<string>) returns (ok: bool)
      requires slots.Length == MAX_ARGS_NUM
      modifies slots
      ensures ok == bootargs.Some?
      ensures slots[..] == if ok then Filled(old(slots[..]), Words(bootargs.value, ' ')) else old(slots[..])
      ensures ok ==>
                var words := Words(bootargs.value, ' ');
                && slots.Length == 100
                && forall i | 0 <= i < 100 :: slots[i] == if i < |words| then Some(Parsed(words[i])) else old(slots[i])
    {
      if bootargs.None? {
        return false;
      }
      hide Words, Parsed, FirstOf;
      ghost var was, all := slots[..], Words(bootargs.value, ' ');
      var args, idx := bootargs, 0;
      while args.Some?
        invariant idx <= MAX_ARGS_NUM && (args.Some? ==> idx < MAX_ARGS_NUM)
        invariant idx <= |all| && (args.Some? ==> all[idx..] == Words(args.value, ' ')) && (args.None? ==> idx == |all|)
        invariant forall i | 0 <= i < MAX_ARGS_NUM :: slots[..][i] == if i < idx then Some(Parsed(all[i])) else was[i]
        decreases args.Some?, if args.Some? then |args.value| else 0
      {
        WordsNext(args.value, ' ', all, idx);
        var word, rest := StrSep(args.value, ' ');
        Store(idx, word);
        args, idx := rest, idx + 1;
        if idx >= MAX_ARGS_NUM {
          break;
        }
      }
      ok := true;
    }

    /** LOS_GetArgValue */
    method GetArgValue(argName: string) returns (argValue: Option<string>)
      requires slots.Length == MAX_ARGS_NUM
      ensures argValue == Lookup(slots[..], argName)
      ensures var table := slots[..];
              match argValue
              case Some(v) =>
                (exists i :: 0 <= i < |table| && table[i] == Some((argName, v))
                             && forall j | 0 <= j < i :: table[j].Some? && table[j].value.0 != argName)
              case None =>
                (forall i | 0 <= i < |table| && table[i].Some? && table[i].value.0 == argName ::
                   exists j :: 0 <= j < i && table[j].None?)
    {
      LookupIs(slots[..], argName);
      var idx := 0;
      assert slots[0..] == slots[..];
      while idx < MAX_ARGS_NUM
        invariant idx <= MAX_ARGS_NUM && Lookup(slots[..], argName) == Lookup(slots[idx..], argName)
      {
        assert slots[idx..][1..] == slots[idx + 1..] && slots[idx..][0] == slots[idx];
        if slots[idx].None? {
          break;
        }
        if slots[idx].value.0 == argName {
          return Some(slots[idx].value.1);
        }
        idx := idx + 1;
      }
      argValue := None;
    }
  }

  // ----- the round trip -----

  datatype Arg = Flag(name: string) | Setting(name: string, value: string)

  predicate Proper(a: Arg)
  {
    && ' ' !in a.name && '=' !in a.name
    && (a.Setting? ==> ' ' !in a.value)
  }

  function Printed(a: Arg): string
  {
    if a.Flag? then a.name else a.name + "=" + a.value
  }

  function ValueOf(a: Arg): string
  {
    if a.Flag? then a.name else a.value
  }

  /** The command line: the arguments with a space between them. */
  function CommandLine(args: seq<Arg>): string
  {
    if args == [] then "" else if |args| == 1 then Printed(args[0]) else Printed(args[0]) + " " + CommandLine(args[1..])
  }

  /** The value of the first argument with that name. */
  function ValueIn(args: seq<Arg>, name: string): Option<string>
  {
    if args == [] then None
    else if args[0].name == name then Some(ValueOf(args[0]))
    else ValueIn(args[1..], name)
  }

  lemma PrintedNoSpace(a: Arg)
    requires Proper(a)
    ensures ' ' !in Printed(a)
  {
  }

  /** Parsing undoes printing, even if the value has a `=` in it. */
  lemma ParsedPrinted(a: Arg)
    requires Proper(a)
    ensures Parsed(Printed(a)) == (a.name, ValueOf(a))
  {
    var p := Printed(a);
    assert p[..|a.name|] == a.name;
    FirstOfIs(p, '=', |a.name|);
    if a.Setting? {
      assert p[|a.name| + 1..] == a.value;
    }
  }

  lemma {:induction false} WordsOfLine(args: seq<Arg>)
    requires args != [] && forall a | a in args :: Proper(a)
    ensures var ws := Words(CommandLine(args), ' ');
            |ws| == |args| && forall i | 0 <= i < |args| :: ws[i] == Printed(args[i])
  {
    hide Words;
    PrintedNoSpace(args[0]);
    if |args| == 1 {
      OneWord(Printed(args[0]), ' ');
    } else {
      assert forall a | a in args[1..] :: a in args;
      WordsOfLine(args[1..]);
      FirstWord(Printed(args[0]), ' ', CommandLine(args[1..]));
    }
  }

  lemma OneWord(w: string, c: char)
    requires c !in w
    ensures Words(w, c) == [w]
  {
    assert w[..|w|] == w;
    FirstOfIs(w, c, |w|);
  }

  lemma FirstWord(w: string, c: char, rest: string)
    requires c !in w
    ensures Words(w + [c] + rest, c) == [w] + Words(rest, c)
  {
    var s := w + [c] + rest;
    assert s[..|w|] == w && s[|w|] == c && s[|w| + 1..] == rest;
    FirstOfIs(s, c, |w|);
  }

  lemma {:induction false} LookupArgs(table: seq<Slot>, args: seq<Arg>, name: string)
    requires |args| <= |table| && (|args| < |table| ==> table[|args|].None?)
    requires forall i | 0 <= i < |args| :: table[i] == Some((args[i].name, ValueOf(args[i])))
    ensures Lookup(table, name) == ValueIn(args, name)
  {
    if args != [] {
      LookupArgs(table[1..], args[1..], name);
    }
  }

  /**
   Printing arguments, parsing them into an empty table and looking a name up returns the value
   of its first occurrence among the first hundred.
   */
  lemma BootArgsRoundTrip(args: seq<Arg>, table: seq<Slot>, name: string)
    requires args != [] && forall a | a in args :: Proper(a)
    requires |table| == 100 && forall i | 0 <= i < |table| :: table[i].None?
    ensures var kept := if |args| <= 100 then args else args[..100];
            match Lookup(Filled(table, Words(CommandLine(args), ' ')), name)
            case Some(v) =>
              (exists i :: 0 <= i < |kept| && kept[i].name == name
                           && v == (if kept[i].Flag? then name else kept[i].value)
                           && forall j | 0 <= j < i :: kept[j].name != name)
            case None => (forall i | 0 <= i < |kept| :: kept[i].name != name)
  {
    ValueInIs(if |args| <= 100 then args else args[..100], name);
    RoundTrip(args, table, name);
  }

  lemma {:induction false} ValueInIs(args: seq<Arg>, name: string)
    ensures match ValueIn(args, name)
            case Some(v) =>
              (exists i :: 0 <= i < |args| && args[i].name == name
                           && v == (if args[i].Flag? then name else args[i].value)
                           && forall j | 0 <= j < i :: args[j].name != name)
            case None => (forall i | 0 <= i < |args| :: args[i].name != name)
  {
    if args != [] && args[0].name != name {
      var rest := args[1..];
      ValueInIs(rest, name);
      match ValueIn(rest, name)
      case Some(v) =>
        var i :| 0 <= i < |rest| && rest[i].name == name && v == (if rest[i].Flag? then name else rest[i].value)
                 && forall j | 0 <= j < i :: rest[j].name != name;
        assert args[i + 1] == rest[i] && forall j | 1 <= j < i + 1 :: args[j] == rest[j - 1];
      case None =>
        assert forall i | 1 <= i < |args| :: args[i] == rest[i - 1];
    }
  }

  lemma RoundTrip(args: seq<Arg>, table: seq<Slot>, name: string)
    requires args != [] && forall a | a in args :: Proper(a)
    requires |table| == MAX_ARGS_NUM && forall i | 0 <= i < |table| :: table[i].None?
    ensures var kept := if |args| <= MAX_ARGS_NUM then args else args[..MAX_ARGS_NUM];
            Lookup(Filled(table, Words(CommandLine(args), ' ')), name) == ValueIn(kept, name)
  {
    WordsOfLine(args);
    var kept := if |args| <= MAX_ARGS_NUM then args else args[..MAX_ARGS_NUM];
    forall i | 0 <= i < |kept| ensures Parsed(Printed(kept[i])) == (kept[i].name, ValueOf(kept[i])) {
      assert kept[i] == args[i] && args[i] in args;
      ParsedPrinted(args[i]);
    }
    LookupArgs(Filled(table, Words(CommandLine(args), ' ')), kept, name);
  }
}
