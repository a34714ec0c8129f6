/**
 * The java.lang.String operations the core relies on, with Java's own edge
 * cases: `split` drops trailing empty pieces, `trim` strips every character at
 * or below U+0020, `indexOf` answers -1 when nothing is found, and
 * `Integer.valueOf` accepts an optional sign and rejects values outside 32 bits.
 */
module Text {

  predicate StartsWith(s: string, prefix: string) {
    |prefix| <= |s| && s[..|prefix|] == prefix
  }

  predicate EndsWith(s: string, suffix: string) {
    |suffix| <= |s| && s[|s| - |suffix|..] == suffix
  }

  /** `sub` occurs in `s` starting at index `j`. */
  predicate OccursAt(s: string, sub: string, j: nat) {
    j + |sub| <= |s| && s[j..j + |sub|] == sub
  }

  /** `s.contains(sub)`: `sub` occurs at some position of `s`. */
  predicate Contains(s: string, sub: string) {
    exists j: nat | j <= |s| :: OccursAt(s, sub, j)
  }

  /** Every string contains itself, so a line always matches a filter equal to it. */
  lemma ContainsSelf(s: string)
    ensures Contains(s, s)
  {
    assert OccursAt(s, s, 0);
  }

  lemma ContainsTail(s: string, sub: string)
    requires |s| > 0
    ensures Contains(s[1..], sub) ==> Contains(s, sub)
  {
    if Contains(s[1..], sub) {
      var j: nat :| j <= |s[1..]| && OccursAt(s[1..], sub, j);
      assert s[1..][j..j + |sub|] == s[j + 1..j + 1 + |sub|];
      assert OccursAt(s, sub, j + 1);
    }
  }

  /** `s.indexOf(sub, from)` for `from >= 0`: the first occurrence at or after `from`, or -1. */
  function IndexOfFrom(s: string, sub: string, from: nat): (r: int)
    ensures r == -1 || (from <= r && OccursAt(s, sub, r))
    ensures r != -1 ==> forall j: nat :: from <= j < r ==> !OccursAt(s, sub, j)
    ensures r == -1 ==> forall j: nat :: from <= j ==> !OccursAt(s, sub, j)
    decreases |s| - from
  {
    if from + |sub| > |s| then -1
    else if OccursAt(s, sub, from) then from
    else IndexOfFrom(s, sub, from + 1)
  }

  /** `s.indexOf(sub)`: the first occurrence, or -1 exactly when there is none. */
  function IndexOf(s: string, sub: string): (r: int)
    ensures r == -1 || (0 <= r && OccursAt(s, sub, r))
    ensures r != -1 ==> forall j: nat :: j < r ==> !OccursAt(s, sub, j)
    ensures r == -1 <==> !Contains(s, sub)
  {
    IndexOfFrom(s, sub, 0)
  }

  /** `s.indexOf(c)` for one character. */
  function IndexOfChar(s: string, c: char): (r: int)
    ensures -1 <= r && (r == -1 <==> c !in s)
    ensures 0 <= r ==> r < |s| && s[r] == c && c !in s[..r]
  {
    if c !in s then -1
    else if s[0] == c then 0
    else
      assert c in s[1..] by {
        var i :| 0 <= i < |s| && s[i] == c;
        assert s[1..][i - 1] == c;
      }
      1 + IndexOfChar(s[1..], c)
  }

  /** `StringUtils.remove(s, c)`: every occurrence of `c` deleted. */
  function Remove(s: string, c: char): (r: string)
    ensures c !in r
    ensures forall x :: x in r <==> x in s && x != c
  {
    if s == [] then []
    else (if s[0] == c then [] else [s[0]]) + Remove(s[1..], c)
  }

  /** Java's `trim`: characters at or below the space character count as blank. */
  predicate IsBlank(c: char) {
    c <= ' '
  }

  function TrimStart(s: string): (r: string)
    ensures |r| <= |s| && r == s[|s| - |r|..]
    ensures r == [] || !IsBlank(r[0])
  {
    if s != [] && IsBlank(s[0]) then TrimStart(s[1..]) else s
  }

  function TrimEnd(s: string): (r: string)
    ensures |r| <= |s| && r == s[..|r|]
    ensures r == [] || !IsBlank(r[|r| - 1])
  {
    if s != [] && IsBlank(s[|s| - 1]) then TrimEnd(s[..|s| - 1]) else s
  }

  function Trim(s: string): (r: string)
    ensures r == [] || (!IsBlank(r[0]) && !IsBlank(r[|r| - 1]))
  {
    TrimEnd(TrimStart(s))
  }

  /**
   * The text of a file written line by line: every line followed by the line
   * separator, which this model fixes to "\n".
   */
  function Unlines(lines: seq<string>): string {
    if lines == [] then "" else Unlines(lines[..|lines| - 1]) + lines[|lines| - 1] + "\n"
  }

  lemma {:induction false} UnlinesAppend(a: seq<string>, b: seq<string>)
    ensures Unlines(a + b) == Unlines(a) + Unlines(b)
    decreases |b|
  {
    if b == [] {
      assert a + b == a;
    } else {
      assert (a + b)[..|a + b| - 1] == a + b[..|b| - 1];
      UnlinesAppend(a, b[..|b| - 1]);
    }
  }

  // ---------------------------------------------------------------------------
  // Splitting and joining around one separator character

  /** All pieces of `s` between occurrences of `c`, empty ones included. */
  function Pieces(s: string, c: char): (r: seq<string>)
    ensures |r| >= 1
    ensures forall i :: 0 <= i < |r| ==> c !in r[i]
    decreases |s|
  {
    var i := IndexOfChar(s, c);
    if i == -1 then [s] else [s[..i]] + Pieces(s[i + 1..], c)
  }

  /** The pieces with the trailing empty ones dropped. */
  function DropTrailingEmpty(xs: seq<string>): (r: seq<string>)
    ensures |r| <= |xs| && r == xs[..|r|]
    ensures r == [] || r[|r| - 1] != ""
    ensures forall i :: |r| <= i < |xs| ==> xs[i] == ""
  {
    if xs == [] || xs[|xs| - 1] != "" then xs else DropTrailingEmpty(xs[..|xs| - 1])
  }

  /**
   * `s.split(c)` (the separator taken literally, limit 0): a string without `c`
   * is returned whole (even when empty); otherwise the pieces lose their
   * trailing empty strings, so "a.b." gives ["a", "b"] and "..." gives [].
   */
  function Split(s: string, c: char): (r: seq<string>)
    ensures forall i :: 0 <= i < |r| ==> c !in r[i]
    ensures c !in s ==> r == [s]
    ensures c in s && r != [] ==> r[|r| - 1] != ""
  {
    if c !in s then [s] else DropTrailingEmpty(Pieces(s, c))
  }

  /** The inverse of `Pieces`: the parts glued together with `c` between them. */
  function Join(xs: seq<string>, c: char): string {
    if xs == [] then "" else if |xs| == 1 then xs[0] else xs[0] + [c] + Join(xs[1..], c)
  }

  lemma {:induction false} PiecesJoin(xs: seq<string>, c: char)
    requires |xs| >= 1
    requires forall i :: 0 <= i < |xs| ==> c !in xs[i]
    ensures Pieces(Join(xs, c), c) == xs
    decreases |xs|
  {
    var s := Join(xs, c);
    if |xs| == 1 {
      assert s == xs[0];
    } else {
      var t := Join(xs[1..], c);
      assert s == xs[0] + [c] + t;
      assert IndexOfChar(s, c) == |xs[0]| by {
        assert s[|xs[0]|] == c;
        assert s[..|xs[0]|] == xs[0];
      }
      assert s[..|xs[0]|] == xs[0];
      assert s[|xs[0]| + 1..] == t;
      PiecesJoin(xs[1..], c);
    }
  }

  /**
   * Splitting a joined list gives the list back when no part holds the separator
   * and the last part is not empty (so that no trailing piece is dropped).
   */
  lemma SplitJoin(xs: seq<string>, c: char)
    requires |xs| >= 1 && xs[|xs| - 1] != ""
    requires forall i :: 0 <= i < |xs| ==> c !in xs[i]
    ensures Split(Join(xs, c), c) == xs
  {
    if |xs| == 1 {
      assert Join(xs, c) == xs[0];
    } else {
      var s := Join(xs, c);
      assert s == xs[0] + [c] + Join(xs[1..], c);
      assert s[|xs[0]|] == c;
      PiecesJoin(xs, c);
    }
  }

  /** The first piece of a split is the text before the first separator. */
  lemma SplitHead(s: string, c: char)
    requires Split(s, c) != []
    ensures Split(s, c)[0] == (if c in s then s[..IndexOfChar(s, c)] else s)
  {
  }

  /** Every piece is empty exactly when every character is the separator. */
  lemma {:induction false} PiecesAllEmpty(s: string, c: char)
    ensures (forall k :: 0 <= k < |Pieces(s, c)| ==> Pieces(s, c)[k] == "") <==>
            (forall i :: 0 <= i < |s| ==> s[i] == c)
    decreases |s|
  {
    var i := IndexOfChar(s, c);
    if i != -1 {
      var rest := s[i + 1..];
      var p := Pieces(s, c);
      var q := Pieces(rest, c);
      PiecesAllEmpty(rest, c);
      assert p == [s[..i]] + q;
      assert (forall k :: 0 <= k < |p| ==> p[k] == "") <==>
             s[..i] == "" && (forall k :: 0 <= k < |q| ==> q[k] == "") by {
        assert forall k :: 0 <= k < |q| ==> q[k] == p[k + 1];
      }
      if i == 0 {
        assert forall j :: 0 <= j < |rest| ==> rest[j] == s[j + 1];
        assert (forall j :: 0 <= j < |s| ==> s[j] == c) <==> (forall j :: 0 <= j < |rest| ==> rest[j] == c);
      } else {
        assert s[..i][0] == s[0] && s[0] != c;
      }
    } else {
      assert Pieces(s, c) == [s];
      if |s| > 0 {
        assert s[0] != c && Pieces(s, c)[0] != "";
      }
    }
  }

  /**
   * `split` gives no pieces at all exactly when the text is non-empty and made
   * only of separators (Java then returns an empty array).
   */
  lemma SplitEmpty(s: string, c: char)
    ensures Split(s, c) == [] <==> s != "" && forall i :: 0 <= i < |s| ==> s[i] == c
  {
    PiecesAllEmpty(s, c);
    if c in s {
      var xs := Pieces(s, c);
      var r := DropTrailingEmpty(xs);
      if r == [] {
        assert forall k :: 0 <= k < |xs| ==> xs[k] == "";
      }
    } else if s != "" {
      assert s[0] != c;
    }
  }

  // ---------------------------------------------------------------------------
  // Numbers in text

  predicate IsDigit(c: char) {
    '0' <= c <= '9'
  }

  predicate AllDigits(s: string) {
    forall i :: 0 <= i < |s| ==> IsDigit(s[i])
  }

  function DigitsValue(s: string): (n: nat)
    requires AllDigits(s)
  {
    if s == [] then 0 else 10 * DigitsValue(s[..|s| - 1]) + (s[|s| - 1] - '0') as nat
  }

  /**
   * `NumberUtils.isNumber`, restricted to plain decimals: an optional '-', then
   * digits with at most one '.', and at least one digit.
   */
  predicate IsNumber(s: string) {
    var body := if |s| > 0 && s[0] == '-' then s[1..] else s;
    var dot := IndexOfChar(body, '.');
    if dot == -1 then |body| > 0 && AllDigits(body)
    else |body| > 1 && AllDigits(body[..dot]) && AllDigits(body[dot + 1..])
  }

  /** A text with a character that is not a digit, '.' or '-' is never a number. */
  lemma NotNumber(s: string, i: nat)
    requires i < |s| && !IsDigit(s[i]) && s[i] != '.' && s[i] != '-'
    ensures !IsNumber(s)
  {
    var body := if |s| > 0 && s[0] == '-' then s[1..] else s;
    var dot := IndexOfChar(body, '.');
    var j := if |s| > 0 && s[0] == '-' then i - 1 else i;
    assert body[j] == s[i];
    if dot != -1 {
      if j < dot {
        assert body[..dot][j] == s[i];
      } else {
        assert body[dot + 1..][j - dot - 1] == s[i];
      }
    }
  }

  const MinInt32: int := -0x8000_0000
  const MaxInt32: int := 0x7FFF_FFFF

  /**
   * `Integer.valueOf(s)`: an optional '+' or '-', then one or more decimal
   * digits, within the 32-bit range; anything else is a NumberFormatException,
   * here None. Only ASCII digits are modelled.
   */
  function ParseInt32(s: string): (r: Option<int>)
    ensures r.Some? ==> MinInt32 <= r.value <= MaxInt32
    ensures r.Some? ==> exists d :: AllDigits(d) && |d| > 0 && (s == d || s == "+" + d || s == "-" + d)
  {
    if s == [] then None
    else
      var negative := s[0] == '-';
      var digits := if s[0] == '-' || s[0] == '+' then s[1..] else s;
      if digits == [] || !AllDigits(digits) then None
      else
        var v: int := if negative then -(DigitsValue(digits) as int) else DigitsValue(digits);
        if MinInt32 <= v <= MaxInt32 then
          assert s == digits || s == "+" + digits || s == "-" + digits;
          Some(v)
        else None
  }

  /** Decimal digits of a natural number, most significant first. */
  function NatToString(n: nat): (s: string)
    ensures |s| > 0 && AllDigits(s)
  {
    if n < 10 then [('0' as int + n) as char]
    else NatToString(n / 10) + [('0' as int + n % 10) as char]
  }

  lemma {:induction false} DigitsOfNat(n: nat)
    ensures DigitsValue(NatToString(n)) == n
  {
    var s := NatToString(n);
    if n >= 10 {
      DigitsOfNat(n / 10);
      assert s[..|s| - 1] == NatToString(n / 10);
    }
  }

  /** `Integer.toString` / `Long.toString`: decimal, with a '-' for negatives. */
  function IntToString(i: int): (s: string)
    ensures |s| > 0
    ensures i < 0 <==> s[0] == '-'
  {
    if i < 0 then "-" + NatToString(-i) else NatToString(i)
  }

  /** Writing an index in decimal and reading it back with `Integer.valueOf` is the identity. */
  lemma ParseIndex(n: nat)
    requires n <= MaxInt32
    ensures ParseInt32(NatToString(n)) == Some(n)
  {
    DigitsOfNat(n);
  }

  datatype Option<+T> = None | Some(value: T)

  /**
   * `s.replace(target, replacement)`: every non-overlapping occurrence of
   * `target`, scanning left to right, is replaced.
   */
  function ReplaceAll(s: string, target: string, replacement: string): (r: string)
    requires |target| > 0
    ensures !Contains(s, target) ==> r == s
    decreases |s|
  {
    if |s| < |target| then s
    else if s[..|target|] == target then
      assert OccursAt(s, target, 0);
      replacement + ReplaceAll(s[|target|..], target, replacement)
    else
      ContainsTail(s, target);
      [s[0]] + ReplaceAll(s[1..], target, replacement)
  }

  /** Text before the first possible start of `target` is copied unchanged. */
  lemma {:induction false} ReplaceAllSkip(pre: string, s: string, target: string, replacement: string)
    requires |target| > 0 && target[0] !in pre
    ensures ReplaceAll(pre + s, target, replacement) == pre + ReplaceAll(s, target, replacement)
    decreases |pre|
  {
    if pre == [] {
      assert pre + s == s;
    } else {
      var rest := ReplaceAll(s, target, replacement);
      calc {
        ReplaceAll(pre + s, target, replacement);
        { assert pre + s == [pre[0]] + (pre[1..] + s); }
        ReplaceAll([pre[0]] + (pre[1..] + s), target, replacement);
        { ReplaceAllCons(pre[0], pre[1..] + s, target, replacement); }
        [pre[0]] + ReplaceAll(pre[1..] + s, target, replacement);
        { ReplaceAllSkip(pre[1..], s, target, replacement); }
        [pre[0]] + (pre[1..] + rest);
        { assert [pre[0]] + pre[1..] == pre; }
        pre + rest;
      }
    }
  }

  /** A character that cannot start `target` is copied, and the scan moves past it. */
  lemma ReplaceAllCons(c: char, s: string, target: string, replacement: string)
    requires |target| > 0 && c != target[0]
    ensures ReplaceAll([c] + s, target, replacement) == [c] + ReplaceAll(s, target, replacement)
  {
    var t := [c] + s;
    assert t[1..] == s;
    if |t| >= |target| {
      assert t[..|target|][0] == c;
    }
  }

  /** An occurrence of `target` at the front is replaced, and the scan goes on after it. */
  lemma ReplaceAllHere(target: string, s: string, replacement: string)
    requires |target| > 0
    ensures ReplaceAll(target + s, target, replacement) == replacement + ReplaceAll(s, target, replacement)
  {
    assert (target + s)[..|target|] == target;
    assert (target + s)[|target|..] == s;
  }

  /** A text containing `t` contains every prefix of `t`. */
  lemma ContainsPrefix(s: string, t: string, u: string)
    requires Contains(s, t) && StartsWith(t, u)
    ensures Contains(s, u)
  {
    var j: nat :| j <= |s| && OccursAt(s, t, j);
    assert s[j..j + |u|] == t[..|u|];
    assert OccursAt(s, u, j);
  }
}
