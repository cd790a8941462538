/** The three pieces of Rust's `str` that the line filter relies on:
    `lines`, `contains` with a string pattern, and `to_lowercase`
    (restricted here to ASCII letters). Strings are sequences of chars. */
module RustStr {

  // ------------------------------------------------------------------
  // contains
  // ------------------------------------------------------------------

  /** `needle` occurs in `hay` starting at position `i`. */
  predicate OccursAt(hay: string, needle: string, i: nat) {
    i + |needle| <= |hay| && hay[i..i + |needle|] == needle
  }

  /** Reference meaning of containment: `needle` is a contiguous substring of `hay`. */
  ghost predicate IsSubstring(needle: string, hay: string) {
    exists i: nat :: OccursAt(hay, needle, i)
  }

  /** `hay.contains(needle)`: tries every start position from the left.
      `ContainsIffSubstring` gives the full characterisation. */
  function Contains(hay: string, needle: string): (b: bool)
    ensures needle <= hay ==> b
    ensures b ==> |needle| <= |hay|
    ensures hay == [] ==> (b <==> needle == [])
    decreases |hay|
  {
    if needle <= hay then true
    else if hay == [] then false
    else Contains(hay[1..], needle)
  }

  /** The search agrees with the reference meaning, in both directions. */
  lemma {:induction false} ContainsIffSubstring(hay: string, needle: string)
    ensures Contains(hay, needle) <==> IsSubstring(needle, hay)
    decreases |hay|
  {
    if needle <= hay {
      assert OccursAt(hay, needle, 0);
    } else if hay == [] {
    } else {
      ContainsIffSubstring(hay[1..], needle);
      if IsSubstring(needle, hay[1..]) {
        var i: nat :| OccursAt(hay[1..], needle, i);
        OccursAtShift(hay, needle, i);
      }
      if IsSubstring(needle, hay) {
        var i: nat :| OccursAt(hay, needle, i);
        assert i != 0;
        OccursAtShift(hay, needle, i - 1);
      }
    }
  }

  /** An occurrence in the tail is an occurrence one position further on. */
  lemma OccursAtShift(hay: string, needle: string, i: nat)
    requires hay != []
    ensures OccursAt(hay[1..], needle, i) <==> OccursAt(hay, needle, i + 1)
  {
    if i + |needle| < |hay| {
      assert hay[1..][i..i + |needle|] == hay[i + 1..i + 1 + |needle|];
    }
  }

  /** The empty pattern is contained in every string. */
  lemma EmptyPatternContained(hay: string)
    ensures Contains(hay, "")
  {
  }

  /** A non-empty pattern whose first character never appears in `hay` is not contained in it. */
  lemma FirstCharAbsentNotContained(hay: string, needle: string)
    requires needle != [] && needle[0] !in hay
    ensures !Contains(hay, needle)
  {
    ContainsIffSubstring(hay, needle);
    forall i: nat
      ensures !OccursAt(hay, needle, i)
    {
      if i + |needle| <= |hay| {
        assert hay[i..i + |needle|][0] == hay[i];
      }
    }
  }

  // ------------------------------------------------------------------
  // to_lowercase (ASCII letters only)
  // ------------------------------------------------------------------

  predicate IsUpper(c: char) {
    'A' <= c <= 'Z'
  }

  function ToLowerChar(c: char): (d: char)
    ensures !IsUpper(d)
    ensures IsUpper(c) ==> d as int == c as int + 32
    ensures !IsUpper(c) ==> d == c
  {
    if IsUpper(c) then (c as int + 32) as char else c
  }

  /** `s.to_lowercase()`: every upper-case ASCII letter mapped to its lower-case partner. */
  function ToLowercase(s: string): (r: string)
    ensures |r| == |s|
    ensures forall i :: 0 <= i < |s| ==> r[i] == ToLowerChar(s[i])
  {
    if s == [] then [] else [ToLowerChar(s[0])] + ToLowercase(s[1..])
  }

  /** Lower-casing is idempotent and leaves no ASCII capital ('A' to 'Z') behind. */
  lemma ToLowercaseIdempotent(s: string)
    ensures ToLowercase(ToLowercase(s)) == ToLowercase(s)
    ensures forall i :: 0 <= i < |s| ==> !IsUpper(ToLowercase(s)[i])
  {
  }

  /** Lower-casing commutes with taking a slice. */
  lemma ToLowercaseSlice(s: string, i: nat, j: nat)
    requires i <= j <= |s|
    ensures ToLowercase(s)[i..j] == ToLowercase(s[i..j])
  {
    var low, part := ToLowercase(s), s[i..j];
    var lowPart := ToLowercase(part);
    forall k | 0 <= k < j - i
      ensures low[i..j][k] == lowPart[k]
    {
      assert low[i..j][k] == low[i + k] == ToLowerChar(s[i + k]);
      assert part[k] == s[i + k];
    }
    assert low[i..j] == lowPart;
  }

  /** An occurrence survives lower-casing of both sides. */
  lemma SubstringSurvivesLowercase(needle: string, hay: string)
    requires IsSubstring(needle, hay)
    ensures IsSubstring(ToLowercase(needle), ToLowercase(hay))
  {
    var i: nat :| OccursAt(hay, needle, i);
    ToLowercaseSlice(hay, i, i + |needle|);
    assert OccursAt(ToLowercase(hay), ToLowercase(needle), i);
  }

  // ------------------------------------------------------------------
  // lines
  // ------------------------------------------------------------------

  /** Position of the first '\n' in `s`, or `|s|` when there is none. */
  function LineEnd(s: string): (i: nat)
    ensures i <= |s|
    ensures forall j :: 0 <= j < i ==> s[j] != '\n'
    ensures i < |s| ==> s[i] == '\n'
  {
    if s == [] || s[0] == '\n' then 0 else 1 + LineEnd(s[1..])
  }

  /** Drops one '\r' at the end of a line, if there is one. */
  function StripCr(l: string): (r: string)
    ensures r == l || (r + "\r" == l)
  {
    if l != [] && l[|l| - 1] == '\r' then l[..|l| - 1] else l
  }

  /** `s.lines()`: the text is cut after every '\n'; a piece that ends in '\n'
      loses it and then one '\r' before it; a last piece without '\n' is kept
      whole, and no empty line follows a final '\n'. */
  function Lines(s: string): (ls: seq<string>)
    ensures s == [] <==> ls == []
    ensures forall k :: 0 <= k < |ls| ==> '\n' !in ls[k]
    decreases |s|
  {
    if s == [] then []
    else
      var i := LineEnd(s);
      if i == |s| then [s]
      else [StripCr(s[..i])] + Lines(s[i + 1..])
  }

  /** Lines written back, each followed by its own terminator: "\r\n" where
      `crlf` says so, and '\n' elsewhere. */
  function Terminated(ls: seq<string>, crlf: seq<bool>): string
    requires |crlf| == |ls|
  {
    if ls == [] then "" else ls[0] + (if crlf[0] then "\r\n" else "\n") + Terminated(ls[1..], crlf[1..])
  }

  lemma LineEndAfter(a: string, t: string)
    requires '\n' !in a
    ensures LineEnd(a + "\n" + t) == |a|
  {
    var s := a + "\n" + t;
    assert s[|a|] == '\n';
    forall j | 0 <= j < |a|
      ensures s[j] != '\n'
    {
      assert s[j] == a[j] && a[j] in a;
    }
  }

  /** Text whose every line carries a terminator, '\n' or "\r\n" chosen line
      by line, gives back exactly its lines. Only the terminator is dropped,
      so a line ending in '\r' reads back whole when "\r\n" follows it; before
      a bare '\n' that '\r' would be taken as part of the terminator. */
  lemma {:induction false} LinesOfTerminated(ls: seq<string>, crlf: seq<bool>)
    requires |crlf| == |ls|
    requires forall k :: 0 <= k < |ls| ==> '\n' !in ls[k]
    requires forall k :: 0 <= k < |ls| && !crlf[k] ==> ls[k] == [] || ls[k][|ls[k]| - 1] != '\r'
    ensures Lines(Terminated(ls, crlf)) == ls
  {
    if ls != [] {
      var t := Terminated(ls[1..], crlf[1..]);
      var a := if crlf[0] then ls[0] + "\r" else ls[0];
      assert Terminated(ls, crlf) == a + "\n" + t;
      if crlf[0] {
        NoBreakWithCr(ls[0]);
      }
      LinesAfterLine(a, t);
      assert StripCr(a) == ls[0];
      LinesOfTerminated(ls[1..], crlf[1..]);
      assert ls == [ls[0]] + ls[1..];
    }
  }

  lemma NoBreakWithCr(l: string)
    requires '\n' !in l
    ensures '\n' !in l + "\r"
  {
    forall c | c in l + "\r"
      ensures c != '\n'
    {
      var j :| 0 <= j < |l| + 1 && (l + "\r")[j] == c;
      if j < |l| {
        assert l[j] in l;
      }
    }
  }

  /** A line followed by a '\n' comes first, without its terminator. */
  lemma LinesAfterLine(a: string, t: string)
    requires '\n' !in a
    ensures Lines(a + "\n" + t) == [StripCr(a)] + Lines(t)
  {
    var s := a + "\n" + t;
    LineEndAfter(a, t);
    assert s[..|a|] == a;
    assert s[|a| + 1..] == t;
  }

  lemma LineEndExtend(s: string, t: string)
    requires LineEnd(s) < |s|
    ensures LineEnd(s + t) == LineEnd(s)
  {
    var i := LineEnd(s);
    var j := LineEnd(s + t);
    assert (s + t)[i] == '\n';
    if j < i {
      assert (s + t)[j] == s[j];
    }
  }

  lemma NoBreakBefore(s: string)
    requires LineEnd(s) == |s|
    ensures '\n' !in s
  {
    forall c | c in s
      ensures c != '\n'
    {
      var j :| 0 <= j < |s| && s[j] == c;
    }
  }

  /** Unfolds `Lines` once at a '\n' found at position `i`. */
  lemma LinesAt(s: string, i: nat)
    requires i < |s| && LineEnd(s) == i
    ensures Lines(s) == [StripCr(s[..i])] + Lines(s[i + 1..])
  {
  }

  /** A last line without a terminator reads the same with one added. */
  lemma FinalNewlineOnLastLine(s: string)
    requires s != [] && LineEnd(s) == |s| && s[|s| - 1] != '\r'
    ensures Lines(s + "\n") == Lines(s)
  {
    var s' := s + "\n";
    NoBreakBefore(s);
    LineEndAfter(s, "");
    assert s' == s + "\n" + "";
    assert s'[..|s|] == s;
    LinesAt(s', |s|);
    assert s'[|s| + 1..] == [];
  }

  /** The final line terminator is optional: adding a '\n' to non-empty text
      that ends in neither '\n' nor '\r' changes nothing. (Empty text has no
      lines but "\n" has one, and a final '\r' would join the terminator.) */
  lemma {:induction false} FinalNewlineOptional(s: string)
    requires s != [] && s[|s| - 1] != '\n' && s[|s| - 1] != '\r'
    ensures Lines(s + "\n") == Lines(s)
    decreases |s|
  {
    var i := LineEnd(s);
    if i == |s| {
      FinalNewlineOnLastLine(s);
    } else {
      var s' := s + "\n";
      var t := s[i + 1..];
      LineEndExtend(s, "\n");
      assert s'[..i] == s[..i];
      assert s'[i + 1..] == t + "\n";
      assert t != [] && t[|t| - 1] == s[|s| - 1];
      FinalNewlineOptional(t);
      LinesAt(s, i);
      LinesAt(s', i);
    }
  }

  /** Non-empty text without a '\n' is one line. */
  lemma SingleLine(s: string)
    requires s != [] && '\n' !in s
    ensures Lines(s) == [s]
  {
    forall j | 0 <= j < |s|
      ensures s[j] != '\n'
    {
      assert s[j] in s;
    }
  }
}
