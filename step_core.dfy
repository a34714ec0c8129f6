/**
 * The step-level helpers of src/test/java/modules/core/StepCore.java: three
 * line filters over the lines of a file, resolution of a step input that may
 * name a stored value, and `${…}` substitution in a template.
 *
 * The file itself is given as its list of lines; every output line is followed
 * by the line separator, fixed to "\n", and the whole output is trimmed.
 */
module StepCore {
  import opened Values
  import opened Text
  import Storage

  // ---------------------------------------------------------------------------
  // Positive filter

  /** `line` contains at least one of the filters. */
  predicate Matching(line: string, filters: seq<string>) {
    exists f :: f in filters && Contains(line, f)
  }

  /** The copies of `line` the positive filter emits: one for each filter it contains. */
  function Matches(line: string, filters: seq<string>): (r: seq<string>)
    ensures |r| <= |filters|
    ensures forall i :: 0 <= i < |r| ==> r[i] == line
  {
    if filters == [] then []
    else Matches(line, filters[..|filters| - 1]) + (if Contains(line, filters[|filters| - 1]) then [line] else [])
  }

  /** The lines the positive filter emits, before they are joined and trimmed. */
  function PositiveLines(lines: seq<string>, filters: seq<string>): seq<string> {
    if lines == [] then []
    else PositiveLines(lines[..|lines| - 1], filters) + Matches(lines[|lines| - 1], filters)
  }

  /**
   * `applyPositiveFilter`: an empty filter list is an error; otherwise every
   * line is emitted once per filter it contains, and the text is trimmed.
   */
  method ApplyPositiveFilter(lines: seq<string>, filters: seq<string>) returns (r: Result<string>)
    ensures filters == [] ==> r == Err(FiltersEmpty)
    ensures filters != [] ==> r == Ok(Trim(Unlines(PositiveLines(lines, filters))))
  {
    if |filters| < 1 {
      return Err(FiltersEmpty);
    }
    var output := "";
    for i := 0 to |lines|
      invariant output == Unlines(PositiveLines(lines[..i], filters))
    {
      var line := lines[i];
      ghost var before := output;
      for j := 0 to |filters|
        invariant output == before + Unlines(Matches(line, filters[..j]))
      {
        assert filters[..j + 1][..j] == filters[..j];
        if Contains(line, filters[j]) {
          assert Matches(line, filters[..j + 1]) == Matches(line, filters[..j]) + [line];
          UnlinesSnoc(Matches(line, filters[..j]), line);
          Regroup(before, Unlines(Matches(line, filters[..j])), line, "\n");
          output := output + line + "\n";
        } else {
          assert Matches(line, filters[..j + 1]) == Matches(line, filters[..j]);
        }
      }
      assert filters[..|filters|] == filters;
      assert lines[..i + 1][..i] == lines[..i];
      UnlinesAppend(PositiveLines(lines[..i], filters), Matches(line, filters));
    }
    assert lines[..|lines|] == lines;
    return Ok(Trim(output));
  }

  /** Appending to an appended text regroups freely. */
  lemma Regroup(a: string, b: string, c: string, d: string)
    ensures a + b + c + d == a + (b + c + d)
  {
  }

  lemma Regroup3(a: string, b: string, c: string)
    ensures a + (b + c) == a + b + c
  {
  }

  lemma UnlinesSnoc(init: seq<string>, line: string)
    ensures Unlines(init + [line]) == Unlines(init) + line + "\n"
  {
    assert (init + [line])[..|init|] == init;
  }

  /** A line is in `Matches` exactly when it is the line itself and it matches. */
  lemma {:induction false} MatchesMember(line: string, filters: seq<string>, x: string)
    ensures x in Matches(line, filters) <==> x == line && Matching(line, filters)
    decreases |filters|
  {
    if filters != [] {
      var init := filters[..|filters| - 1];
      var f := filters[|filters| - 1];
      MatchesMember(line, init, x);
      assert filters == init + [f];
      if Matching(line, filters) && !Contains(line, f) {
        var g :| g in filters && Contains(line, g);
        assert g in init;
      }
    }
  }

  /**
   * The positive filter's output lines are exactly the input lines that
   * contain at least one filter.
   */
  lemma {:induction false} PositiveMember(lines: seq<string>, filters: seq<string>, x: string)
    ensures x in PositiveLines(lines, filters) <==> x in lines && Matching(x, filters)
    decreases |lines|
  {
    if lines != [] {
      var init := lines[..|lines| - 1];
      var l := lines[|lines| - 1];
      PositiveMember(init, filters, x);
      MatchesMember(l, filters, x);
      assert lines == init + [l];
    }
  }

  /** Positive filtering of two blocks of lines is the filtering of each, in order. */
  lemma {:induction false} PositiveAppend(a: seq<string>, b: seq<string>, filters: seq<string>)
    ensures PositiveLines(a + b, filters) == PositiveLines(a, filters) + PositiveLines(b, filters)
    decreases |b|
  {
    if b == [] {
      assert a + b == a;
    } else {
      var init := b[..|b| - 1];
      assert (a + b)[..|a + b| - 1] == a + init;
      PositiveAppend(a, init, filters);
    }
  }

  /** The positions of the filters `line` contains. */
  function MatchIndices(line: string, filters: seq<string>): set<nat> {
    set j: nat | j < |filters| && Contains(line, filters[j])
  }

  /** `Matches` holds one copy of the line per filter position it contains. */
  lemma {:induction false} MatchesCount(line: string, filters: seq<string>)
    ensures |Matches(line, filters)| == |MatchIndices(line, filters)|
    decreases |filters|
  {
    if filters != [] {
      var n := |filters| - 1;
      var init := filters[..n];
      MatchesCount(line, init);
      var last: set<nat> := if Contains(line, filters[n]) then {n} else {};
      assert MatchIndices(line, filters) == MatchIndices(line, init) + last;
      assert n !in MatchIndices(line, init);
    }
  }

  lemma {:induction false} CopiesCount(xs: seq<string>, line: string, x: string)
    requires forall i :: 0 <= i < |xs| ==> xs[i] == line
    ensures multiset(xs)[x] == if x == line then |xs| else 0
    decreases |xs|
  {
    if xs != [] {
      CopiesCount(xs[1..], line, x);
      assert xs == [xs[0]] + xs[1..];
    }
  }

  /**
   * A line that contains k of the filters appears k times in the output for
   * each time it appears in the input.
   */
  lemma {:induction false} PositiveCount(lines: seq<string>, filters: seq<string>, x: string)
    ensures multiset(PositiveLines(lines, filters))[x] == multiset(lines)[x] * |MatchIndices(x, filters)|
    decreases |lines|
  {
    if lines != [] {
      var init := lines[..|lines| - 1];
      var l := lines[|lines| - 1];
      var k := |MatchIndices(x, filters)|;
      PositiveCount(init, filters, x);
      MatchesCount(l, filters);
      CopiesCount(Matches(l, filters), l, x);
      PositiveLast(lines, filters, x);
      MulStep(multiset(init)[x], k, x == l);
    }
  }

  lemma PositiveLast(lines: seq<string>, filters: seq<string>, x: string)
    requires lines != []
    ensures var init := lines[..|lines| - 1];
            var l := lines[|lines| - 1];
            multiset(PositiveLines(lines, filters))[x] ==
              multiset(PositiveLines(init, filters))[x] + multiset(Matches(l, filters))[x] &&
            multiset(lines)[x] == multiset(init)[x] + (if x == l then 1 else 0)
  {
    assert lines == lines[..|lines| - 1] + [lines[|lines| - 1]];
  }

  lemma MulStep(a: nat, k: nat, b: bool)
    ensures (a + (if b then 1 else 0)) * k == a * k + (if b then k else 0)
  {
  }

  // ---------------------------------------------------------------------------
  // Negative filter

  /** The lines the negative filter keeps: those containing none of the filters, in order. */
  function NegativeLines(lines: seq<string>, filters: seq<string>): seq<string> {
    if lines == [] then []
    else
      NegativeLines(lines[..|lines| - 1], filters)
        + (if Matching(lines[|lines| - 1], filters) then [] else [lines[|lines| - 1]])
  }

  lemma MatchingSnoc(line: string, filters: seq<string>, j: nat)
    requires j < |filters|
    ensures Matching(line, filters[..j + 1]) <==> Matching(line, filters[..j]) || Contains(line, filters[j])
  {
    assert filters[..j + 1] == filters[..j] + [filters[j]];
    if Matching(line, filters[..j + 1]) && !Contains(line, filters[j]) {
      var g :| g in filters[..j + 1] && Contains(line, g);
      assert g in filters[..j];
    }
  }

  /**
   * `applyNegativeFilter`: an empty filter list is an error; otherwise the lines
   * that contain none of the filters are emitted in order, and the text is trimmed.
   */
  method ApplyNegativeFilter(lines: seq<string>, filters: seq<string>) returns (r: Result<string>)
    ensures filters == [] ==> r == Err(FiltersEmpty)
    ensures filters != [] ==> r == Ok(Trim(Unlines(NegativeLines(lines, filters))))
  {
    if |filters| < 1 {
      return Err(FiltersEmpty);
    }
    var output := "";
    for i := 0 to |lines|
      invariant output == Unlines(NegativeLines(lines[..i], filters))
    {
      var line := lines[i];
      var isMatch := false;
      for j := 0 to |filters|
        invariant isMatch <==> Matching(line, filters[..j])
      {
        MatchingSnoc(line, filters, j);
        if Contains(line, filters[j]) {
          isMatch := true;
        }
      }
      assert filters[..|filters|] == filters;
      assert lines[..i + 1][..i] == lines[..i] && lines[..i + 1][i] == line;
      if !isMatch {
        assert NegativeLines(lines[..i + 1], filters) == NegativeLines(lines[..i], filters) + [line];
        UnlinesSnoc(NegativeLines(lines[..i], filters), line);
        output := output + line + "\n";
      } else {
        assert NegativeLines(lines[..i + 1], filters) == NegativeLines(lines[..i], filters);
      }
    }
    assert lines[..|lines|] == lines;
    return Ok(Trim(output));
  }

  /** The negative filter keeps exactly the input lines that contain no filter. */
  lemma {:induction false} NegativeMember(lines: seq<string>, filters: seq<string>, x: string)
    ensures x in NegativeLines(lines, filters) <==> x in lines && !Matching(x, filters)
    decreases |lines|
  {
    if lines != [] {
      var init := lines[..|lines| - 1];
      NegativeMember(init, filters, x);
      assert lines == init + [lines[|lines| - 1]];
    }
  }

  /** Negative filtering of two blocks of lines is the filtering of each, in order. */
  lemma {:induction false} NegativeAppend(a: seq<string>, b: seq<string>, filters: seq<string>)
    ensures NegativeLines(a + b, filters) == NegativeLines(a, filters) + NegativeLines(b, filters)
    decreases |b|
  {
    if b == [] {
      assert a + b == a;
    } else {
      var init := b[..|b| - 1];
      assert (a + b)[..|a + b| - 1] == a + init;
      NegativeAppend(a, init, filters);
    }
  }

  /**
   * With one filter, the positive and the negative filter split the input:
   * together they emit every input line exactly once.
   */
  lemma {:induction false} FiltersPartition(lines: seq<string>, f: string)
    ensures multiset(PositiveLines(lines, [f])) + multiset(NegativeLines(lines, [f])) == multiset(lines)
    decreases |lines|
  {
    if lines != [] {
      var init := lines[..|lines| - 1];
      var l := lines[|lines| - 1];
      FiltersPartition(init, f);
      assert [f][..0] == [];
      assert Matching(l, [f]) <==> Contains(l, f) by {
        if Contains(l, f) {
          assert f in [f];
        }
      }
      assert lines == init + [l];
    }
  }

  // ---------------------------------------------------------------------------
  // Block filter

  /** A block filter names both its keywords, and neither is empty. */
  predicate HasKeywords(filter: map<string, string>) {
    "begin" in filter && filter["begin"] != "" && "end" in filter && filter["end"] != ""
  }

  /** Whether the block is open after `line`: `begin` opens it, otherwise `end` closes it. */
  function NextOpen(line: string, begin: string, end: string, open: bool): bool {
    if Contains(line, begin) then true else if Contains(line, end) then false else open
  }

  /**
   * What one line emits: itself once when it contains `end`, and once more
   * when the block is open after it.
   */
  function StepOut(line: string, begin: string, end: string, open: bool): seq<string> {
    (if Contains(line, end) then [line] else []) + (if NextOpen(line, begin, end, open) then [line] else [])
  }

  /** Whether the block is open after `lines`; it starts closed. */
  function OpenAfter(lines: seq<string>, begin: string, end: string): bool {
    if lines == [] then false
    else NextOpen(lines[|lines| - 1], begin, end, OpenAfter(lines[..|lines| - 1], begin, end))
  }

  /** The lines one block filter emits in its pass over `lines`. */
  function BlockOut(lines: seq<string>, begin: string, end: string): seq<string> {
    if lines == [] then []
    else
      var init := lines[..|lines| - 1];
      BlockOut(init, begin, end) + StepOut(lines[|lines| - 1], begin, end, OpenAfter(init, begin, end))
  }

  /** The lines of all passes, one pass per filter, in filter order. */
  function BlockLines(lines: seq<string>, filters: seq<map<string, string>>): seq<string>
    requires forall q :: 0 <= q < |filters| ==> HasKeywords(filters[q])
  {
    if filters == [] then []
    else
      var f := filters[|filters| - 1];
      assert HasKeywords(f);
      BlockLines(lines, filters[..|filters| - 1]) + BlockOut(lines, f["begin"], f["end"])
  }

  /**
   * `applyBlockFilter`: an empty filter list is an error, and so is a filter
   * without both keywords; otherwise each filter makes one pass over all lines,
   * the passes are concatenated in filter order and the text is trimmed.
   */
  method ApplyBlockFilter(lines: seq<string>, filters: seq<map<string, string>>) returns (r: Result<string>)
    ensures filters == [] ==> r == Err(FiltersEmpty)
    ensures filters != [] ==>
              r == if forall q :: 0 <= q < |filters| ==> HasKeywords(filters[q])
                   then Ok(Trim(Unlines(BlockLines(lines, filters))))
                   else Err(BlockKeywordMissing)
  {
    if |filters| < 1 {
      return Err(FiltersEmpty);
    }
    var output := "";
    for k := 0 to |filters|
      invariant forall q :: 0 <= q < k ==> HasKeywords(filters[q])
      invariant output == Unlines(BlockLines(lines, filters[..k]))
    {
      var filter := filters[k];
      if "begin" !in filter || filter["begin"] == "" {
        return Err(BlockKeywordMissing);
      }
      if "end" !in filter || filter["end"] == "" {
        return Err(BlockKeywordMissing);
      }
      var begin := filter["begin"];
      var end := filter["end"];
      var pass := BlockPass(lines, begin, end);
      BlockLinesStep(lines, filters, k);
      output := output + pass;
    }
    assert filters[..|filters|] == filters;
    return Ok(Trim(output));
  }

  /** One more filter appends its pass to the text of the earlier ones. */
  lemma BlockLinesStep(lines: seq<string>, filters: seq<map<string, string>>, k: nat)
    requires k < |filters| && forall q :: 0 <= q <= k ==> HasKeywords(filters[q])
    ensures Unlines(BlockLines(lines, filters[..k + 1])) ==
              Unlines(BlockLines(lines, filters[..k])) + Unlines(BlockOut(lines, filters[k]["begin"], filters[k]["end"]))
  {
    assert filters[..k + 1][..k] == filters[..k];
    UnlinesAppend(BlockLines(lines, filters[..k]), BlockOut(lines, filters[k]["begin"], filters[k]["end"]));
  }

  /**
   * One filter's pass over all lines: a line that contains `end` is emitted and
   * closes the block, a line that contains `begin` opens it, and a line after
   * which the block is open is emitted (a second time when it also held `end`).
   */
  method BlockPass(lines: seq<string>, begin: string, end: string) returns (output: string)
    ensures output == Unlines(BlockOut(lines, begin, end))
  {
    output := "";
    var isMatch := false;
    for i := 0 to |lines|
      invariant isMatch == OpenAfter(lines[..i], begin, end)
      invariant output == Unlines(BlockOut(lines[..i], begin, end))
    {
      var line := lines[i];
      BlockSnoc(lines, i, begin, end);
      ghost var emitted := output;
      ghost var wasOpen := isMatch;
      ghost var endText := if Contains(line, end) then line + "\n" else "";
      ghost var openText := if NextOpen(line, begin, end, wasOpen) then line + "\n" else "";
      if Contains(line, end) {
        output := output + line + "\n";
        isMatch := false;
        Regroup3(emitted, line, "\n");
      }
      if Contains(line, begin) {
        isMatch := true;
      }
      ghost var middle := output;
      assert middle == emitted + endText;
      assert isMatch == NextOpen(line, begin, end, wasOpen);
      if isMatch {
        output := output + line + "\n";
        Regroup3(middle, line, "\n");
      }
      assert output == middle + openText;
    }
    assert lines[..|lines|] == lines;
  }

  /** One more line extends the pass by what that line emits, written as text. */
  lemma BlockSnoc(lines: seq<string>, i: nat, begin: string, end: string)
    requires i < |lines|
    ensures OpenAfter(lines[..i + 1], begin, end) == NextOpen(lines[i], begin, end, OpenAfter(lines[..i], begin, end))
    ensures Unlines(BlockOut(lines[..i + 1], begin, end)) ==
              Unlines(BlockOut(lines[..i], begin, end))
              + (if Contains(lines[i], end) then lines[i] + "\n" else "")
              + (if NextOpen(lines[i], begin, end, OpenAfter(lines[..i], begin, end)) then lines[i] + "\n" else "")
  {
    var prefix := lines[..i];
    assert lines[..i + 1][..i] == prefix;
    var open := OpenAfter(prefix, begin, end);
    UnlinesAppend(BlockOut(prefix, begin, end), StepOut(lines[i], begin, end, open));
    StepOutText(lines[i], begin, end, open);
    Regroup3(Unlines(BlockOut(prefix, begin, end)),
             if Contains(lines[i], end) then lines[i] + "\n" else "",
             if NextOpen(lines[i], begin, end, open) then lines[i] + "\n" else "");
  }

  lemma StepOutText(line: string, begin: string, end: string, open: bool)
    ensures Unlines(StepOut(line, begin, end, open)) ==
              (if Contains(line, end) then line + "\n" else "")
              + (if NextOpen(line, begin, end, open) then line + "\n" else "")
  {
    var s := StepOut(line, begin, end, open);
    UnlinesSnoc([], line);
    assert [] + [line] == [line];
    if Contains(line, end) && NextOpen(line, begin, end, open) {
      assert s == [line] + [line];
      UnlinesAppend([line], [line]);
    } else if Contains(line, end) {
      assert s == [line];
    } else if NextOpen(line, begin, end, open) {
      assert s == [line];
    } else {
      assert s == [];
    }
  }

  /** Every line containing `end` or `begin` is emitted by the pass. */
  lemma {:induction false} BlockEmitsKeywordLines(lines: seq<string>, begin: string, end: string, x: string)
    requires x in lines && (Contains(x, end) || Contains(x, begin))
    ensures x in BlockOut(lines, begin, end)
    decreases |lines|
  {
    var init := lines[..|lines| - 1];
    assert lines == init + [lines[|lines| - 1]];
    if x in init {
      BlockEmitsKeywordLines(init, begin, end, x);
    }
  }

  /** The pass emits only input lines, and at most two copies of each. */
  lemma {:induction false} BlockFromInput(lines: seq<string>, begin: string, end: string, x: string)
    ensures x in BlockOut(lines, begin, end) ==> x in lines
    ensures |BlockOut(lines, begin, end)| <= 2 * |lines|
    decreases |lines|
  {
    if lines != [] {
      var init := lines[..|lines| - 1];
      BlockFromInput(init, begin, end, x);
      assert lines == init + [lines[|lines| - 1]];
    }
  }

  /** A line inside an open block is emitted; a line after the block closed and before it reopens is not. */
  lemma BlockOpenLine(lines: seq<string>, begin: string, end: string, i: nat)
    requires i < |lines| && !Contains(lines[i], begin) && !Contains(lines[i], end)
    ensures BlockOut(lines[..i + 1], begin, end) ==
              BlockOut(lines[..i], begin, end) + (if OpenAfter(lines[..i], begin, end) then [lines[i]] else [])
  {
    assert lines[..i + 1][..i] == lines[..i];
  }

  /**
   * When no line contains `begin`, the block never opens and the pass emits
   * exactly the lines containing `end`: the positive filter on `end`.
   */
  lemma {:induction false} BlockWithoutBegin(lines: seq<string>, begin: string, end: string)
    requires forall i :: 0 <= i < |lines| ==> !Contains(lines[i], begin)
    ensures !OpenAfter(lines, begin, end)
    ensures BlockOut(lines, begin, end) == PositiveLines(lines, [end])
    decreases |lines|
  {
    if lines != [] {
      var init := lines[..|lines| - 1];
      BlockWithoutBegin(init, begin, end);
      assert [end][..0] == [];
    }
  }

  // ---------------------------------------------------------------------------
  // Input resolution

  /** ASCII lower case, as the character tests of `BooleanUtils` compare. */
  function Lower(c: char): char {
    if 'A' <= c <= 'Z' then (c as int + 32) as char else c
  }

  /** `s` spells the lower-case `word` in any mix of cases. */
  predicate SameIgnoringCase(s: string, word: string) {
    |s| == |word| && forall i :: 0 <= i < |s| ==> Lower(s[i]) == word[i]
  }

  /**
   * `BooleanUtils.toBooleanObject(s)`: "true", "on" and "yes" are true, "false",
   * "off" and "no" are false, in any case; any other text is not a boolean.
   */
  function BooleanWord(s: string): (r: Option<bool>)
    ensures r.Some? ==> !IsNumber(s)
  {
    if SameIgnoringCase(s, "true") || SameIgnoringCase(s, "on") || SameIgnoringCase(s, "yes") then
      NotNumber(s, 0);
      Some(true)
    else if SameIgnoringCase(s, "false") || SameIgnoringCase(s, "off") || SameIgnoringCase(s, "no") then
      NotNumber(s, 0);
      Some(false)
    else None
  }

  /**
   * The conversions of `checkIfInputIsVariable` before the storage is
   * consulted: a boolean word becomes a Boolean; a numeric text becomes the
   * Long or Double `numberFormat` parses it to, and a parse failure is an
   * error; any other text stays a String.
   */
  function Converted(input: string, numberFormat: string -> Number): (r: Result<Value>)
    ensures r.Ok? ==> !r.value.Null?
    ensures !IsNumber(input) ==> r.Ok?
  {
    var result := match BooleanWord(input) case Some(b) => B(b) case None => S(input);
    if IsNumber(input) then
      match numberFormat(input)
      case LongNumber(n) => Ok(L(n))
      case DoubleNumber(d) => Ok(D(d))
      case NotANumber => Err(NumberUnparseable)
    else Ok(result)
  }

  /**
   * `checkIfInputIsVariable(input)`: a failure of the storage lookup comes
   * first; a non-null value stored under `input` wins over any conversion;
   * otherwise the converted input. The result is never null.
   */
  function CheckIfInputIsVariable(stores: map<string, StoreMap>, input: string, numberFormat: string -> Number)
    : (r: Result<Value>)
    ensures r.Ok? ==> !r.value.Null?
    ensures Storage.Get(stores, input).Err? ==> r == Storage.Get(stores, input)
    ensures Storage.Get(stores, input).Ok? && !Storage.Get(stores, input).value.Null? ==>
              r == Storage.Get(stores, input)
  {
    match Storage.Get(stores, input)
    case Err(e) => Err(e)
    case Ok(tmp) =>
      match Converted(input, numberFormat)
      case Err(e) => Err(e)
      case Ok(v) => if !tmp.Null? then Ok(tmp) else Ok(v)
  }

  /** With nothing stored under it, a boolean word in any case becomes that Boolean. */
  lemma BooleanInput(stores: map<string, StoreMap>, input: string, numberFormat: string -> Number, b: bool)
    requires BooleanWord(input) == Some(b) && Storage.Get(stores, input) == Ok(Null)
    ensures CheckIfInputIsVariable(stores, input, numberFormat) == Ok(B(b))
  {
  }

  /** The literal words "true" and "false" are the two Booleans. */
  lemma TrueAndFalse()
    ensures BooleanWord("true") == Some(true)
    ensures BooleanWord("false") == Some(false)
  {
    assert SameIgnoringCase("true", "true");
    assert !SameIgnoringCase("false", "true") && !SameIgnoringCase("false", "on") && !SameIgnoringCase("false", "yes");
    assert SameIgnoringCase("false", "false");
  }

  /**
   * A numeric input is never found in the storage (a numeric path reads as
   * null), so it always becomes the parsed number, or a failure.
   */
  lemma NumericInput(stores: map<string, StoreMap>, input: string, numberFormat: string -> Number)
    requires IsNumber(input)
    ensures CheckIfInputIsVariable(stores, input, numberFormat) ==
              match numberFormat(input)
              case LongNumber(n) => Ok(L(n))
              case DoubleNumber(d) => Ok(D(d))
              case NotANumber => Err(NumberUnparseable)
  {
  }

  /** Any other input with nothing stored under it is returned as the String itself. */
  lemma PlainInput(stores: map<string, StoreMap>, input: string, numberFormat: string -> Number)
    requires BooleanWord(input).None? && !IsNumber(input) && Storage.Get(stores, input) == Ok(Null)
    ensures CheckIfInputIsVariable(stores, input, numberFormat) == Ok(S(input))
  {
  }

  // ---------------------------------------------------------------------------
  // Template substitution

  /** The variable a placeholder names: its text without a leading "ctx.". */
  function VariableName(toReplace: string): (r: string)
    ensures StartsWith(toReplace, "ctx.") ==> toReplace == "ctx." + r
    ensures !StartsWith(toReplace, "ctx.") ==> r == toReplace
  {
    if StartsWith(toReplace, "ctx.") then toReplace[4..] else toReplace
  }

  /** What the search for a placeholder finds in a template. */
  datatype Found = NoPlaceholder | Unclosed | Placeholder(toReplace: string)

  /**
   * The first "${" and the first "}" after it delimit the placeholder; the text
   * between them is what is replaced. A "${" with no "}" after it is unclosed.
   */
  function FindPlaceholder(input: string): (r: Found)
    ensures r == NoPlaceholder <==> !Contains(input, "${")
    ensures r.Placeholder? ==> Contains(input, "${" + r.toReplace + "}")
  {
    var b := IndexOf(input, "${");
    if b == -1 then NoPlaceholder
    else
      var e := IndexOfFrom(input, "}", b);
      if e == -1 then Unclosed
      else
        assert input[b..b + 2] == "${" && input[e..e + 1] == "}";
        assert input[b..b + 2][0] == input[b] && input[e..e + 1][0] == input[e];
        assert input[b..e + 1] == input[b..b + 2] + input[b + 2..e] + input[e..e + 1];
        assert OccursAt(input, "${" + input[b + 2..e] + "}", b);
        Placeholder(input[b + 2..e])
  }

  /**
   * The text a placeholder's variable stands for: the resolved value written
   * with `toString`. The resolved value is never null, so only the lookup can
   * fail. A variable that is not found, and is neither a boolean word nor
   * numeric, resolves to its own name.
   */
  function Resolve(stores: map<string, StoreMap>, name: string, numberFormat: string -> Number,
                   show: Value -> string): (r: Result<string>)
    ensures r.Err? <==> CheckIfInputIsVariable(stores, name, numberFormat).Err?
    ensures Storage.Get(stores, name) == Ok(Null) && BooleanWord(name).None? && !IsNumber(name) ==>
              r == Ok(name)
  {
    match CheckIfInputIsVariable(stores, name, numberFormat)
    case Err(e) => Err(e)
    case Ok(v) => Render(v, show)
  }

  /**
   * `replaceInTemplate(input)`: with no placeholder the input is returned, and
   * an unclosed one is an error. Otherwise the placeholder's variable is
   * resolved; unless the placeholder is exactly "ctx." followed by the resolved
   * text, every occurrence of the placeholder is replaced by that text and the
   * substitution starts over, and otherwise the input is returned as it is.
   * Each restart spends one unit of `fuel`.
   */
  function ReplaceInTemplate(stores: map<string, StoreMap>, input: string, numberFormat: string -> Number,
                             show: Value -> string, fuel: nat): (r: Result<string>)
    ensures !Contains(input, "${") ==> r == Ok(input)
    decreases fuel
  {
    match FindPlaceholder(input)
    case NoPlaceholder => Ok(input)
    case Unclosed => Err(TemplateUnclosed)
    case Placeholder(toReplace) =>
      match Resolve(stores, VariableName(toReplace), numberFormat, show)
      case Err(err) => Err(err)
      case Ok(result) =>
        if toReplace != "ctx." + result then
          if fuel == 0 then Err(FuelExhausted)
          else ReplaceInTemplate(stores, ReplaceAll(input, "${" + toReplace + "}", result), numberFormat, show, fuel - 1)
        else Ok(input)
  }

  /**
   * A first placeholder "${ctx.name}" whose variable resolves to its own name
   * stops the substitution: the input comes back unchanged, even when later
   * placeholders would resolve.
   */
  lemma TemplateUnresolvedContext(stores: map<string, StoreMap>, input: string, name: string,
                                  numberFormat: string -> Number, show: Value -> string, fuel: nat)
    requires FindPlaceholder(input) == Placeholder("ctx." + name)
    requires Resolve(stores, name, numberFormat, show) == Ok(name)
    ensures ReplaceInTemplate(stores, input, numberFormat, show, fuel) == Ok(input)
  {
    assert StartsWith("ctx." + name, "ctx.") by {
      assert ("ctx." + name)[..4] == "ctx.";
    }
  }

  /**
   * The usual way that happens: nothing is stored under `name`, and `name` is
   * neither a boolean word nor numeric.
   */
  lemma TemplateUnknownContext(stores: map<string, StoreMap>, input: string, name: string,
                               numberFormat: string -> Number, show: Value -> string, fuel: nat)
    requires FindPlaceholder(input) == Placeholder("ctx." + name)
    requires Storage.Get(stores, name) == Ok(Null) && BooleanWord(name).None? && !IsNumber(name)
    ensures ReplaceInTemplate(stores, input, numberFormat, show, fuel) == Ok(input)
  {
    TemplateUnresolvedContext(stores, input, name, numberFormat, show, fuel);
  }

  /** A "${" with no "}" after it is reported as an unclosed placeholder. */
  lemma TemplateUnclosedError(stores: map<string, StoreMap>, input: string, numberFormat: string -> Number,
                              show: Value -> string, fuel: nat)
    requires Contains(input, "${")
    requires forall j :: IndexOf(input, "${") <= j < |input| ==> input[j] != '}'
    ensures ReplaceInTemplate(stores, input, numberFormat, show, fuel) == Err(TemplateUnclosed)
  {
    NoCharFrom(input, '}', IndexOf(input, "${"));
  }

  /** With no `c` at or after `from`, searching for it from there finds nothing. */
  lemma {:induction false} NoCharFrom(s: string, c: char, from: nat)
    requires forall j :: from <= j < |s| ==> s[j] != c
    ensures IndexOfFrom(s, [c], from) == -1
    decreases |s| - from
  {
    if from + 1 <= |s| {
      assert s[from..from + 1][0] == s[from];
      NoCharFrom(s, c, from + 1);
    }
  }

  /**
   * The placeholder `pre ${name} post`, with no other "${" and no '$' around
   * it, and a variable that resolves to a value whose text `text` contains no
   * '$', becomes `pre text post` in one substitution.
   */
  lemma TemplateOnePlaceholder(stores: map<string, StoreMap>, pre: string, name: string, post: string,
                               numberFormat: string -> Number, show: Value -> string, fuel: nat, text: string)
    requires '$' !in pre && '$' !in name && '}' !in name && !Contains(post, "${")
    requires Resolve(stores, VariableName(name), numberFormat, show) == Ok(text)
    requires '$' !in text && name != "ctx." + text
    requires fuel >= 1
    ensures ReplaceInTemplate(stores, pre + "${" + name + "}" + post, numberFormat, show, fuel) == Ok(pre + text + post)
  {
    PlaceholderFound(pre, name, post);
    PlaceholderReplaced(pre, name, post, text);
  }

  /** In `pre ${name} post` the first placeholder is the one after `pre`. */
  lemma PlaceholderFound(pre: string, name: string, post: string)
    requires '$' !in pre && '}' !in name
    ensures FindPlaceholder(pre + "${" + name + "}" + post) == Placeholder(name)
  {
    var input := pre + "${" + name + "}" + post;
    PlaceholderSlices(pre, name, post);
    FirstAt(input, "${", |pre|);
    FirstAtFrom(input, "}", |pre|, |pre| + 2 + |name|);
  }

  lemma PlaceholderSlices(pre: string, name: string, post: string)
    requires '}' !in name
    ensures var input := pre + "${" + name + "}" + post;
            var close := |pre| + 2 + |name|;
            OccursAt(input, "${", |pre|) && input[..|pre|] == pre && OccursAt(input, "}", close) &&
            input[|pre| + 2..close] == name && (forall k :: |pre| <= k < close ==> input[k] != '}')
  {
    var input := pre + "${" + name + "}" + post;
    var close := |pre| + 2 + |name|;
    assert input == pre + ("${" + (name + ("}" + post)));
    assert input[|pre|..] == "${" + (name + ("}" + post));
    assert input[|pre| + 2..] == name + ("}" + post);
    assert input[close..] == "}" + post;
    forall k | |pre| <= k < close
      ensures input[k] != '}'
    {
      if k >= |pre| + 2 {
        assert input[k] == input[|pre| + 2..][k - |pre| - 2];
      }
    }
  }

  /**
   * Replacing the placeholder of `pre ${name} post` by a text without '$'
   * leaves `pre text post`, which has no placeholder left.
   */
  lemma PlaceholderReplaced(pre: string, name: string, post: string, text: string)
    requires '$' !in pre && '$' !in name && '$' !in text && !Contains(post, "${")
    ensures ReplaceAll(pre + "${" + name + "}" + post, "${" + name + "}", text) == pre + text + post
    ensures !Contains(pre + text + post, "${")
  {
    var placeholder := "${" + name + "}";
    assert pre + "${" + name + "}" + post == pre + (placeholder + post);
    NoPlaceholderAfter(post, placeholder);
    ReplaceAllSkip(pre, placeholder + post, placeholder, text);
    ReplaceAllHere(placeholder, post, text);
    assert '$' !in pre + text;
    ContainsAfterDollarFree(pre + text, post, "${");
  }

  /** Text without "${" holds no placeholder either. */
  lemma NoPlaceholderAfter(post: string, placeholder: string)
    requires !Contains(post, "${") && StartsWith(placeholder, "${")
    ensures !Contains(post, placeholder)
  {
    if Contains(post, placeholder) {
      ContainsPrefix(post, placeholder, "${");
    }
  }

  /** When the first character of `sub` occurs nowhere before `j`, `sub` first occurs at `j`. */
  lemma FirstAt(s: string, sub: string, j: nat)
    requires |sub| > 0 && OccursAt(s, sub, j) && sub[0] !in s[..j]
    ensures IndexOf(s, sub) == j
  {
    var r := IndexOf(s, sub);
    assert r != -1 by {
      assert Contains(s, sub) by {
        assert j <= |s|;
      }
    }

  }

  lemma FirstAtFrom(s: string, sub: string, from: nat, j: nat)
    requires |sub| == 1 && from <= j && OccursAt(s, sub, j)
    requires forall k :: from <= k < j ==> s[k] != sub[0]
    ensures IndexOfFrom(s, sub, from) == j
  {
    var r := IndexOfFrom(s, sub, from);
    assert r != -1;
    assert s[r..r + 1] == sub && s[r..r + 1][0] == s[r];
    assert !(r < j);
  }

  /** Text with no '$' leaves a "${" only where the rest has one. */
  lemma ContainsAfterDollarFree(a: string, b: string, sub: string)
    requires |sub| == 2 && sub[0] == '$' && '$' !in a && !Contains(b, sub)
    ensures !Contains(a + b, sub)
  {
    if Contains(a + b, sub) {
      var j: nat :| j <= |a + b| && OccursAt(a + b, sub, j);
      assert (a + b)[j] == '$';
      assert j >= |a|;
      assert (a + b)[j..j + 2] == b[j - |a|..j - |a| + 2];
      assert OccursAt(b, sub, j - |a|);
    }
  }
}
