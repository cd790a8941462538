/** The line filter of src/search.rs and the output that `run` prints for
    its result. Reading the file is left to the caller: the contents arrive
    as a parameter, and the printed lines are returned as a sequence. */
module Search {
  import opened RustStr

  // ------------------------------------------------------------------
  // filter
  // ------------------------------------------------------------------

  /** The test `filter` applies to one line. With `ignoreCase` only the line
      is lower-cased; the query is used exactly as given. */
  predicate Keeps(query: string, line: string, ignoreCase: bool) {
    if ignoreCase then Contains(ToLowercase(line), query) else Contains(line, query)
  }

  /** `a` can be obtained from `b` by deleting elements: same elements, same order. */
  predicate IsSubsequence<T(==)>(a: seq<T>, b: seq<T>) {
    a == [] || (b != [] && ((a[0] == b[0] && IsSubsequence(a[1..], b[1..])) || IsSubsequence(a, b[1..])))
  }

  /** The `filter` half of the iterator pipeline, applied to already split lines. */
  function FilterLines(query: string, lines: seq<string>, ignoreCase: bool): (r: seq<string>)
    ensures IsSubsequence(r, lines)
    ensures forall l :: l in r <==> l in lines && Keeps(query, l, ignoreCase)
    ensures forall l :: multiset(r)[l] == if Keeps(query, l, ignoreCase) then multiset(lines)[l] else 0
  {
    if lines == [] then []
    else
      assert lines == [lines[0]] + lines[1..];
      if Keeps(query, lines[0], ignoreCase) then [lines[0]] + FilterLines(query, lines[1..], ignoreCase)
      else FilterLines(query, lines[1..], ignoreCase)
  }

  /** `filter(query, contents, ignore_case)`: the lines of `contents` that pass the test, in order. */
  function Filter(query: string, contents: string, ignoreCase: bool): (r: seq<string>)
    ensures IsSubsequence(r, Lines(contents))
    ensures forall l :: l in r <==> l in Lines(contents) && Keeps(query, l, ignoreCase)
    ensures contents == [] ==> r == []
  {
    FilterLines(query, Lines(contents), ignoreCase)
  }

  /** Case-sensitive filtering is sound and complete for substring containment,
      keeps every matching line as often as it occurs, and keeps the order. */
  lemma FilterCaseSensitive(query: string, contents: string)
    ensures IsSubsequence(Filter(query, contents, false), Lines(contents))
    ensures forall l :: l in Filter(query, contents, false) <==> l in Lines(contents) && IsSubstring(query, l)
    ensures forall l :: multiset(Filter(query, contents, false))[l]
                        == if IsSubstring(query, l) then multiset(Lines(contents))[l] else 0
  {
    forall l {
      ContainsIffSubstring(l, query);
    }
  }

  /** Ignore-case filtering keeps exactly the lines whose lower-cased text
      contains the query as given, and returns them in their original case. */
  lemma FilterIgnoreCase(query: string, contents: string)
    ensures IsSubsequence(Filter(query, contents, true), Lines(contents))
    ensures forall l :: l in Filter(query, contents, true) <==> l in Lines(contents) && IsSubstring(query, ToLowercase(l))
    ensures forall l :: multiset(Filter(query, contents, true))[l]
                        == if IsSubstring(query, ToLowercase(l)) then multiset(Lines(contents))[l] else 0
  {
    forall l {
      ContainsIffSubstring(ToLowercase(l), query);
    }
  }

  /** Empty contents has no lines, so nothing is found. */
  lemma FilterEmptyContents(query: string, ignoreCase: bool)
    ensures Filter(query, "", ignoreCase) == []
  {
  }

  /** The empty query is contained in every line, so every line is returned. */
  lemma {:induction false} FilterLinesEmptyQuery(lines: seq<string>, ignoreCase: bool)
    ensures FilterLines("", lines, ignoreCase) == lines
  {
    if lines != [] {
      EmptyPatternContained(lines[0]);
      EmptyPatternContained(ToLowercase(lines[0]));
      FilterLinesEmptyQuery(lines[1..], ignoreCase);
    }
  }

  lemma FilterEmptyQuery(contents: string, ignoreCase: bool)
    ensures Filter("", contents, ignoreCase) == Lines(contents)
  {
    FilterLinesEmptyQuery(Lines(contents), ignoreCase);
  }

  /** When no line passes the test, nothing is returned. */
  lemma {:induction false} FilterLinesNone(query: string, lines: seq<string>, ignoreCase: bool)
    requires forall l :: l in lines ==> !Keeps(query, l, ignoreCase)
    ensures FilterLines(query, lines, ignoreCase) == []
  {
    if lines != [] {
      assert lines[0] in lines;
      FilterLinesNone(query, lines[1..], ignoreCase);
    }
  }

  /** Filtering a result again with the same query changes nothing. */
  lemma {:induction false} FilterLinesIdempotent(query: string, lines: seq<string>, ignoreCase: bool)
    ensures FilterLines(query, FilterLines(query, lines, ignoreCase), ignoreCase) == FilterLines(query, lines, ignoreCase)
  {
    if lines != [] {
      FilterLinesIdempotent(query, lines[1..], ignoreCase);
      var rest := FilterLines(query, lines[1..], ignoreCase);
      if Keeps(query, lines[0], ignoreCase) {
        assert ([lines[0]] + rest)[1..] == rest;
      }
    }
  }

  /** Because the query is not lower-cased, a query holding an ASCII capital
      ('A' to 'Z') matches no line at all in ignore-case mode. */
  lemma IgnoreCaseUpperQueryFindsNothing(query: string, contents: string, k: nat)
    requires k < |query| && IsUpper(query[k])
    ensures Filter(query, contents, true) == []
  {
    var r := Filter(query, contents, true);
    forall l | l in Lines(contents)
      ensures !Keeps(query, l, true)
    {
      var low := ToLowercase(l);
      ContainsIffSubstring(low, query);
      forall i: nat
        ensures !OccursAt(low, query, i)
      {
        if i + |query| <= |low| {
          assert low[i..i + |query|][k] == low[i + k];
        }
      }
    }
    FilterLinesNone(query, Lines(contents), true);
  }

  /** For a query that is already lower-case, ignore-case mode finds every
      line that case-sensitive mode finds. */
  lemma IgnoreCaseFindsCaseSensitiveMatches(query: string, contents: string)
    requires ToLowercase(query) == query
    ensures forall l :: l in Filter(query, contents, false) ==> l in Filter(query, contents, true)
  {
    forall l | l in Filter(query, contents, false)
      ensures l in Filter(query, contents, true)
    {
      ContainsIffSubstring(l, query);
      SubstringSurvivesLowercase(query, l);
      ContainsIffSubstring(ToLowercase(l), query);
    }
  }

  /** Non-empty contents without a '\n' is a single line, returned or not as a whole. */
  lemma FilterSingleLine(query: string, line: string, ignoreCase: bool)
    requires line != [] && '\n' !in line
    ensures Filter(query, line, ignoreCase) == if Keeps(query, line, ignoreCase) then [line] else []
  {
    SingleLine(line);
  }

  // The four unit tests of src/search.rs. Each is proved through a helper
  // that names the test's contents by a parameter, which keeps the solver
  // from unfolding the string literal through `Lines` and `Contains`.

  lemma TestFilter()
    ensures Filter("public", "public struct Test {}", false) == ["public struct Test {}"]
  {
    TestFilterOn("public struct Test {}");
  }

  lemma TestFilterCaseSensitive()
    ensures Filter("public", "PUBLIC struct Test {}", false) == []
  {
    TestFilterCaseSensitiveOn("PUBLIC struct Test {}");
  }

  /** The line is returned as written, not lower-cased. */
  lemma TestFilterIgnoreCase()
    ensures Filter("public", "PUBLIC struct Test {}", true) == ["PUBLIC struct Test {}"]
  {
    TestFilterIgnoreCaseOn("PUBLIC struct Test {}");
  }

  lemma TestFilterNoResult()
    ensures Filter("public", "struct Test {}", false) == []
  {
    TestFilterNoResultOn("struct Test {}");
  }

  lemma TestFilterOn(contents: string)
    requires contents == "public struct Test {}"
    ensures Filter("public", contents, false) == [contents]
  {
    FilterSingleLine("public", contents, false);
  }

  lemma TestFilterCaseSensitiveOn(contents: string)
    requires contents == "PUBLIC struct Test {}"
    ensures Filter("public", contents, false) == []
  {
    FilterSingleLine("public", contents, false);
    FirstCharAbsentNotContained(contents, "public");
  }

  lemma LowerCasedTestLine(contents: string)
    requires contents == "PUBLIC struct Test {}"
    ensures "public" <= ToLowercase(contents)
  {
    var low := ToLowercase(contents);
    forall i | 0 <= i < 6
      ensures low[i] == "public"[i]
    {
    }
  }

  lemma TestFilterIgnoreCaseOn(contents: string)
    requires contents == "PUBLIC struct Test {}"
    ensures Filter("public", contents, true) == [contents]
  {
    LowerCasedTestLine(contents);
    FilterSingleLine("public", contents, true);
  }

  lemma TestFilterNoResultOn(contents: string)
    requires contents == "struct Test {}"
    ensures Filter("public", contents, false) == []
  {
    FilterSingleLine("public", contents, false);
    FirstCharAbsentNotContained(contents, "public");
  }

  // ------------------------------------------------------------------
  // the output of run
  // ------------------------------------------------------------------

  const NoResult: string := "Oops! No result found."
  const Header: string := "Result:"

  /** One printed line per match, each marked with "* ". */
  function Bullets(matches: seq<string>): (out: seq<string>)
    ensures |out| == |matches|
    ensures forall i :: 0 <= i < |matches| ==> out[i] == "* " + matches[i]
  {
    if matches == [] then [] else ["* " + matches[0]] + Bullets(matches[1..])
  }

  /** The lines `run` prints for a result of `filter`. */
  function Render(matches: seq<string>): (out: seq<string>)
    ensures matches == [] ==> out == [NoResult]
    ensures matches != [] ==> |out| == |matches| + 1 && out[0] == Header
    ensures matches != [] ==> forall i :: 0 <= i < |matches| ==> out[i + 1] == "* " + matches[i]
  {
    if matches == [] then [NoResult] else [Header] + Bullets(matches)
  }

  /** Different results are printed differently: the output determines the matches. */
  lemma RenderInjective(a: seq<string>, b: seq<string>)
    requires Render(a) == Render(b)
    ensures a == b
  {
    assert NoResult[0] != Header[0];
    if a != [] && b != [] {
      forall i | 0 <= i < |a|
        ensures a[i] == b[i]
      {
        assert ("* " + a[i])[2..] == a[i];
        assert ("* " + b[i])[2..] == b[i];
      }
    }
  }

  /** `run` once the file has been read: filter, then print. */
  function Run(query: string, contents: string, ignoreCase: bool): (out: seq<string>)
    ensures |out| == |Filter(query, contents, ignoreCase)| + 1
    ensures out[0] == if Filter(query, contents, ignoreCase) == [] then NoResult else Header
    ensures forall i :: 1 <= i < |out| ==> out[i] == "* " + Filter(query, contents, ignoreCase)[i - 1]
  {
    Render(Filter(query, contents, ignoreCase))
  }

  /** `run` prints the notice exactly when no line passes the test, and
      otherwise one marked line per kept line. */
  lemma RunReports(query: string, contents: string, ignoreCase: bool)
    ensures Run(query, contents, ignoreCase) == [NoResult]
            <==> forall l :: l in Lines(contents) ==> !Keeps(query, l, ignoreCase)
    ensures forall i :: 1 <= i < |Run(query, contents, ignoreCase)| ==>
              exists l :: l in Lines(contents) && Keeps(query, l, ignoreCase) && Run(query, contents, ignoreCase)[i] == "* " + l
  {
    var r := Filter(query, contents, ignoreCase);
    if r != [] {
      assert r[0] in r;
      assert Header != NoResult;
      forall i | 1 <= i < |Run(query, contents, ignoreCase)|
        ensures exists l :: l in Lines(contents) && Keeps(query, l, ignoreCase) && Run(query, contents, ignoreCase)[i] == "* " + l
      {
        assert r[i - 1] in r;
      }
    }
  }
}
