/** src/lib.rs: the command configuration built from the process arguments,
    and the `Display` rendering of `Array`, the wrapper around a vector of
    strings that prints the arguments back. */
module Lib {

  // ------------------------------------------------------------------
  // CommandConfig
  // ------------------------------------------------------------------

  /** What the program was asked to do: the keyword and the file to search. */
  datatype CommandConfig = CommandConfig(query: string, filePath: string)

  /** `Result<T, &'static str>`: a value, or a fixed diagnostic message. */
  datatype Result<T> = Ok(value: T) | Err(error: string)

  /** The one diagnostic `parse` can return. */
  const NotEnoughArguments: string := "not enough arguments"

  /** `CommandConfig::new`: the keyword is at index 0 and the path at index 1;
      the source indexes both without a check, so both must be present. */
  function New(commands: seq<string>): (c: CommandConfig)
    requires |commands| >= 2
    ensures c.query == commands[0] && c.filePath == commands[1]
  {
    CommandConfig(commands[0], commands[1])
  }

  /** The two arguments a configuration is made from, in the order `new` reads them. */
  function Arguments(c: CommandConfig): (args: seq<string>)
    ensures |args| == 2
  {
    [c.query, c.filePath]
  }

  /** `new` and `Arguments` undo each other. */
  lemma NewArgumentsRoundTrip(c: CommandConfig, commands: seq<string>)
    requires |commands| >= 2
    ensures New(Arguments(c)) == c
    ensures Arguments(New(commands)) == commands[..2]
  {
  }

  /** `CommandConfig::parse`: the first argument is the program itself, so at
      least three are needed; the configuration is built from arguments 1 and 2. */
  function Parse(args: seq<string>): (r: Result<CommandConfig>)
    ensures r.Err? <==> |args| < 3
    ensures r.Err? ==> r.error == NotEnoughArguments
    ensures r.Ok? ==> r.value.query == args[1] && r.value.filePath == args[2]
  {
    if |args| < 3 then Err(NotEnoughArguments)
    else Ok(New(args[1..3]))
  }

  /** Arguments after the third are never looked at. */
  lemma ParseIgnoresExtraArguments(args: seq<string>, extra: seq<string>)
    requires |args| >= 3
    ensures Parse(args + extra) == Parse(args)
  {
    assert (args + extra)[1..3] == args[1..3];
  }

  /** Parsing the command line a configuration was written as gives it back,
      whatever the program name and whatever follows. */
  lemma ParseRoundTrip(program: string, c: CommandConfig, extra: seq<string>)
    ensures Parse([program] + Arguments(c) + extra) == Ok(c)
  {
  }

  // ------------------------------------------------------------------
  // Array and its Display
  // ------------------------------------------------------------------

  /** The pieces `fmt` writes for `items`, as written: each element, then ", "
      unless the element equals `last` by value. */
  function Body(items: seq<string>, last: string): string
    decreases |items|
  {
    if items == [] then ""
    else
      var x := items[|items| - 1];
      Body(items[..|items| - 1], last) + x + (if x != last then ", " else "")
  }

  /** The text `Array`'s `Display` produces, as written. */
  function Shown(items: seq<string>): string {
    "[" + (if items == [] then "" else Body(items, items[|items| - 1])) + "]"
  }

  /** `Array(pub Vec<String>)`. */
  datatype Array = Array(items: seq<string>) {

    /** `Display::fmt`: builds the text in a buffer, element by element. */
    method Fmt() returns (s: string)
      ensures s == Shown(items)
    {
      s := "[";
      for i := 0 to |items|
        invariant |items| == 0 ==> s == "["
        invariant |items| > 0 ==> s == "[" + Body(items[..i], items[|items| - 1])
      {
        s := s + items[i];
        if items[i] != items[|items| - 1] {
          s := s + ", ";
        }
        assert items[..i + 1][..i] == items[..i];
      }
      assert items[..|items|] == items;
      s := s + "]";
    }

    /** The evident intent of `fmt`: the separator goes after every element
        except the one in the last position. */
    method FmtByPosition() returns (s: string)
      ensures s == "[" + Join(items) + "]"
    {
      var n := |items|;
      s := "[";
      for i := 0 to n
        invariant s == "[" + Join(items[..i]) + (if 0 < i < n then ", " else "")
      {
        assert items[..i + 1][..i] == items[..i];
        s := s + items[i];
        if i != n - 1 {
          s := s + ", ";
        }
      }
      assert items[..n] == items;
      s := s + "]";
    }
  }

  /** Reference: the elements in order with ", " between each neighbouring pair. */
  function Join(items: seq<string>): string
    decreases |items|
  {
    if items == [] then ""
    else if |items| == 1 then items[0]
    else Join(items[..|items| - 1]) + ", " + items[|items| - 1]
  }

  /** Total length of the elements. */
  function Width(items: seq<string>): nat
    decreases |items|
  {
    if items == [] then 0 else Width(items[..|items| - 1]) + |items[|items| - 1]|
  }

  /** How many elements differ from `last`, i.e. how many separators `fmt` writes. */
  function Separated(items: seq<string>, last: string): (k: nat)
    ensures k <= |items|
    decreases |items|
  {
    if items == [] then 0
    else Separated(items[..|items| - 1], last) + (if items[|items| - 1] != last then 1 else 0)
  }

  lemma {:induction false} BodyLength(items: seq<string>, last: string)
    ensures |Body(items, last)| == Width(items) + 2 * Separated(items, last)
    decreases |items|
  {
    if items != [] {
      BodyLength(items[..|items| - 1], last);
    }
  }

  lemma {:induction false} JoinLength(items: seq<string>)
    requires items != []
    ensures |Join(items)| == Width(items) + 2 * (|items| - 1)
    decreases |items|
  {
    if |items| > 1 {
      JoinLength(items[..|items| - 1]);
    } else {
      assert items[..0] == [];
    }
  }

  /** An element equal to `last` means one separator fewer. */
  lemma {:induction false} SeparatedBelow(items: seq<string>, last: string, i: nat)
    requires i < |items| && items[i] == last
    ensures Separated(items, last) < |items|
    decreases |items|
  {
    if i < |items| - 1 {
      SeparatedBelow(items[..|items| - 1], last, i);
    }
  }

  /** With no element equal to `last`, the written pieces are the join plus a trailing separator. */
  lemma {:induction false} BodyOfDistinct(items: seq<string>, last: string)
    requires forall i :: 0 <= i < |items| ==> items[i] != last
    ensures Body(items, last) == Join(items) + (if items == [] then "" else ", ")
    decreases |items|
  {
    if items != [] {
      var init := items[..|items| - 1];
      BodyOfDistinct(init, last);
      if init == [] {
        assert items == [items[0]];
      }
    }
  }

  lemma {:induction false} WidthZero(items: seq<string>)
    ensures Width(items) == 0 <==> forall i :: 0 <= i < |items| ==> items[i] == ""
    decreases |items|
  {
    if items != [] {
      WidthZero(items[..|items| - 1]);
    }
  }

  lemma {:induction false} SeparatedNone(items: seq<string>, last: string)
    requires forall i :: 0 <= i < |items| ==> items[i] == last
    ensures Separated(items, last) == 0
    decreases |items|
  {
    if items != [] {
      SeparatedNone(items[..|items| - 1], last);
    }
  }

  /** The rendering is always bracketed; it is "[]" for the empty vector and,
      since nothing separates empty strings equal to the last one, for any
      vector of empty strings. */
  lemma ShownBracketed(items: seq<string>)
    ensures |Shown(items)| >= 2
    ensures Shown(items)[0] == '[' && Shown(items)[|Shown(items)| - 1] == ']'
    ensures Shown(items) == "[]" <==> forall i :: 0 <= i < |items| ==> items[i] == ""
  {
    WidthZero(items);
    if items != [] {
      var last := items[|items| - 1];
      BodyLength(items, last);
      if forall i :: 0 <= i < |items| ==> items[i] == "" {
        SeparatedNone(items, last);
      }
    }
  }

  /** Appending a value that no earlier element equals: `fmt` writes the intended join. */
  lemma ShownOfAppended(init: seq<string>, last: string)
    requires forall i :: 0 <= i < |init| ==> init[i] != last
    ensures Shown(init + [last]) == "[" + Join(init + [last]) + "]"
  {
    var items := init + [last];
    assert items[..|items| - 1] == init;
    BodyOfDistinct(init, last);
    assert Body(items, last) == Body(init, last) + last;
    if init == [] {
      assert items == [last];
    } else {
      assert Join(items) == Join(init) + ", " + last;
    }
  }

  /** With no earlier element equal to the last, `fmt` writes the intended join. */
  lemma ShownIsJoinWhenLastUnique(items: seq<string>)
    requires items != []
    requires forall i :: 0 <= i < |items| - 1 ==> items[i] != items[|items| - 1]
    ensures Shown(items) == "[" + Join(items) + "]"
  {
    var n := |items|;
    var init, last := items[..n - 1], items[n - 1];
    forall i | 0 <= i < |init|
      ensures init[i] != last
    {
      assert init[i] == items[i];
    }
    SplitLast(items);
    ShownOfAppended(init, last);
  }

  lemma SplitLast(items: seq<string>)
    requires items != []
    ensures items[..|items| - 1] + [items[|items| - 1]] == items
  {
  }

  /** An earlier element equal to the last one makes the output shorter than the join. */
  lemma ShownShortWhenLastRepeated(items: seq<string>, i: nat)
    requires i < |items| - 1 && items[i] == items[|items| - 1]
    ensures |Shown(items)| < |"[" + Join(items) + "]"|
  {
    var n := |items|;
    var last := items[n - 1];
    var init := items[..n - 1];
    SeparatedBelow(init, last, i);
    assert Separated(items, last) == Separated(init, last);
    BodyLength(items, last);
    JoinLength(items);
  }

  /** `fmt` produces the intended rendering exactly when no element before
      the last one equals the last one by value. */
  lemma ShownIsJoinIff(items: seq<string>)
    ensures Shown(items) == "[" + Join(items) + "]"
            <==> forall i :: 0 <= i < |items| - 1 ==> items[i] != items[|items| - 1]
  {
    if items != [] {
      if forall i :: 0 <= i < |items| - 1 ==> items[i] != items[|items| - 1] {
        ShownIsJoinWhenLastUnique(items);
      } else {
        var i :| 0 <= i < |items| - 1 && items[i] == items[|items| - 1];
        ShownShortWhenLastRepeated(items, i);
      }
    }
  }

  /** The quirk: a repeated last value swallows the separator after its
      earlier occurrence, so ["x", "y", "x"] prints as "[xy, x]" where
      "[x, y, x]" was meant. */
  lemma ShownRepeatedLast(items: seq<string>)
    requires items == ["x", "y", "x"]
    ensures Shown(items) == "[xy, x]"
    ensures "[" + Join(items) + "]" == "[x, y, x]"
  {
    var xy := items[..2];
    assert xy == ["x", "y"] && xy[..1] == ["x"] && xy[..1][..0] == [];
    assert Body(xy[..1], "x") == "x";
    assert Body(xy, "x") == "xy, ";
    assert Join(xy) == "x, y";
  }
}
