/** The list and array helpers of `CollectionUtil.kt`. A Kotlin `List`, `Iterable` or
    primitive collection is its elements in iteration order, a `seq`. */
module Collections {
  import opened Wrappers
  import opened JavaInt
  import opened Arith
  import opened Ranges

  // ---------------------------------------------------------------------------------------
  // distinct and toSet
  // ---------------------------------------------------------------------------------------

  /** `distinct()`, and the iteration order of `toSet()` (a `LinkedHashSet`): the first
      occurrence of each element, in order. */
  function Distinct<T(==,!new)>(xs: seq<T>): (r: seq<T>)
    ensures forall v :: v in r <==> v in xs
    ensures forall v :: multiset(r)[v] <= 1
  {
    if |xs| == 0 then []
    else
      var d := Distinct(xs[..|xs| - 1]);
      if xs[|xs| - 1] in xs[..|xs| - 1] then d else d + [xs[|xs| - 1]]
  }

  /** No two positions of a sequence hold the same element. */
  predicate Unique<T(==)>(xs: seq<T>)
  {
    forall i, j :: 0 <= i < j < |xs| ==> xs[i] != xs[j]
  }

  /** An element at two positions is counted twice. */
  lemma {:induction false} TwoCopies<T>(ys: seq<T>, i: int, j: int)
    requires 0 <= i < j < |ys| && ys[i] == ys[j]
    ensures multiset(ys)[ys[i]] >= 2
  {
    assert ys == ys[..j] + [ys[j]] + ys[j + 1..];
    assert ys[..j][i] == ys[i];
    assert multiset(ys[..j])[ys[i]] >= 1;
  }

  /** A sequence counting each element at most once holds no element twice. */
  lemma {:induction false} OnceIsUnique<T(!new)>(xs: seq<T>)
    requires forall v :: multiset(xs)[v] <= 1
    ensures Unique(xs)
  {
    forall i, j | 0 <= i < j < |xs|
      ensures xs[i] != xs[j]
    {
      if xs[i] == xs[j] {
        TwoCopies(xs, i, j);
      }
    }
  }

  /** `distinct()` leaves a sequence without repeats as it is. */
  lemma {:induction false} DistinctOfUnique<T(!new)>(xs: seq<T>)
    requires Unique(xs)
    ensures Distinct(xs) == xs
  {
    if |xs| > 0 {
      var front := xs[..|xs| - 1];
      assert Unique(front);
      DistinctOfUnique(front);
      assert xs[|xs| - 1] !in front;
      assert front + [xs[|xs| - 1]] == xs;
    }
  }

  /** The position of the first occurrence of `v`. */
  function FirstIndex<T(==)>(xs: seq<T>, v: T): (i: nat)
    requires v in xs
    ensures i < |xs| && xs[i] == v && v !in xs[..i]
  {
    if xs[0] == v then 0
    else
      var k := FirstIndex(xs[1..], v);
      assert xs[..k + 1] == [xs[0]] + xs[1..][..k];
      k + 1
  }

  /** A position holding `v` with no `v` before it is the first occurrence. */
  lemma {:induction false} FirstIndexUnique<T>(xs: seq<T>, v: T, i: int)
    requires 0 <= i < |xs| && xs[i] == v && v !in xs[..i]
    ensures FirstIndex(xs, v) == i
  {
  }

  /** Appending elements does not move a first occurrence. */
  lemma {:induction false} FirstIndexPrefix<T>(xs: seq<T>, n: int, v: T)
    requires 0 <= n <= |xs| && v in xs[..n]
    ensures v in xs && FirstIndex(xs, v) == FirstIndex(xs[..n], v)
  {
    var k := FirstIndex(xs[..n], v);
    assert xs[..n][..k] == xs[..k];
    FirstIndexUnique(xs, v, k);
  }

  /** `distinct()` lists the elements in the order of their first occurrences. Together with
      the contract of `Distinct` this fixes its result. */
  lemma {:induction false} DistinctInOrder<T(!new)>(xs: seq<T>)
    ensures forall i, j :: 0 <= i < j < |Distinct(xs)| ==>
      FirstIndex(xs, Distinct(xs)[i]) < FirstIndex(xs, Distinct(xs)[j])
  {
    if |xs| > 0 {
      var n := |xs| - 1;
      var init, x := xs[..n], xs[n];
      var d := Distinct(init);
      DistinctInOrder(init);
      forall v | v in init
        ensures FirstIndex(xs, v) == FirstIndex(init, v)
      {
        FirstIndexPrefix(xs, n, v);
      }
      if x !in init {
        FirstIndexUnique(xs, x, n);
        assert Distinct(xs) == d + [x];
        forall i, j | 0 <= i < j < |Distinct(xs)|
          ensures FirstIndex(xs, Distinct(xs)[i]) < FirstIndex(xs, Distinct(xs)[j])
        {
          assert Distinct(xs)[i] == d[i] && d[i] in init;
          if j < |d| {
            assert Distinct(xs)[j] == d[j] && d[j] in init;
          }
        }
      } else {
        assert Distinct(xs) == d;
        forall i, j | 0 <= i < j < |d|
          ensures FirstIndex(xs, d[i]) < FirstIndex(xs, d[j])
        {
          assert d[i] in init && d[j] in init;
        }
      }
    }
  }

  // ---------------------------------------------------------------------------------------
  // splitOn, splitOnElement, splitOnBlankLines
  // ---------------------------------------------------------------------------------------

  /** The sublists `splitOn` builds for `xs`: it starts with one empty sublist, opens a new
      one at every separator and appends every other element to the open one. */
  function Parts<T>(xs: seq<T>, splitter: T -> bool): (r: seq<seq<T>>)
    ensures |r| >= 1
  {
    if |xs| == 0 then [[]] else Step(Parts(xs[..|xs| - 1], splitter), xs[|xs| - 1], splitter(xs[|xs| - 1]))
  }

  /** One element of `splitOn`'s loop: a separator opens a new sublist, any other element
      goes at the end of the open one. */
  function Step<T>(r: seq<seq<T>>, x: T, separator: bool): (r': seq<seq<T>>)
    requires |r| >= 1
    ensures |r'| >= 1
  {
    if separator then r + [[]] else r[..|r| - 1] + [r[|r| - 1] + [x]]
  }

  /** The number of separators in `xs`. */
  function Matches<T>(xs: seq<T>, splitter: T -> bool): nat
  {
    if |xs| == 0 then 0
    else Matches(xs[..|xs| - 1], splitter) + (if splitter(xs[|xs| - 1]) then 1 else 0)
  }

  /** `xs` without its separators, in order. */
  function Kept<T>(xs: seq<T>, splitter: T -> bool): seq<T>
  {
    if |xs| == 0 then []
    else Kept(xs[..|xs| - 1], splitter) + (if splitter(xs[|xs| - 1]) then [] else [xs[|xs| - 1]])
  }

  /** The sublists one after the other. */
  function Flatten<T>(parts: seq<seq<T>>): seq<T>
  {
    if |parts| == 0 then [] else Flatten(parts[..|parts| - 1]) + parts[|parts| - 1]
  }

  /** `splitOn`: one pass over `xs`, appending to the open sublist or opening a new one. */
  method SplitOn<T>(xs: seq<T>, splitter: T -> bool) returns (result: seq<seq<T>>)
    ensures result == Parts(xs, splitter)
  {
    result := [[]];
    var i := 0;
    while i < |xs|
      invariant 0 <= i <= |xs|
      invariant result == Parts(xs[..i], splitter)
    {
      assert xs[..i + 1][..i] == xs[..i];
      var x := xs[i];
      if splitter(x) {
        result := result + [[]];
      } else {
        result := result[..|result| - 1] + [result[|result| - 1] + [x]];
      }
      assert result == Step(Parts(xs[..i], splitter), x, splitter(x));
      i := i + 1;
    }
    assert xs[..|xs|] == xs;
  }

  /** There is one sublist more than there are separators. */
  lemma {:induction false} PartsCount<T>(xs: seq<T>, splitter: T -> bool)
    ensures |Parts(xs, splitter)| == 1 + Matches(xs, splitter)
  {
    if |xs| > 0 {
      PartsCount(xs[..|xs| - 1], splitter);
    }
  }

  /** The sublists put back together are the input without its separators. */
  lemma {:induction false} PartsFlatten<T>(xs: seq<T>, splitter: T -> bool)
    ensures Flatten(Parts(xs, splitter)) == Kept(xs, splitter)
  {
    if |xs| > 0 {
      var r := Parts(xs[..|xs| - 1], splitter);
      var x := xs[|xs| - 1];
      PartsFlatten(xs[..|xs| - 1], splitter);
      if splitter(x) {
        assert (r + [[]])[..|r|] == r;
      } else {
        var init := r[..|r| - 1];
        assert (init + [r[|r| - 1] + [x]])[..|init|] == init;
        assert r[..|r| - 1] == init;
        assert Flatten(r) == Flatten(init) + r[|r| - 1];
      }
    }
  }

  /** No sublist holds a separator. */
  lemma {:induction false} PartsHaveNoSeparator<T>(xs: seq<T>, splitter: T -> bool)
    ensures forall p, y :: p in Parts(xs, splitter) && y in p ==> !splitter(y)
  {
    if |xs| > 0 {
      PartsHaveNoSeparator(xs[..|xs| - 1], splitter);
      var r := Parts(xs[..|xs| - 1], splitter);
      var x := xs[|xs| - 1];
      if !splitter(x) {
        forall p, y | p in Parts(xs, splitter) && y in p
          ensures !splitter(y)
        {
          if p != r[|r| - 1] + [x] {
            assert p in r[..|r| - 1];
          }
        }
      }
    }
  }

  /** The sublists of `xs + ys` from those of `xs` and of `ys`. */
  function Merge<T>(p: seq<seq<T>>, q: seq<seq<T>>): seq<seq<T>>
    requires |p| >= 1 && |q| >= 1
  {
    p[..|p| - 1] + [p[|p| - 1] + q[0]] + q[1..]
  }

  /** Taking one more element commutes with merging. */
  lemma {:induction false} StepMerge<T>(p: seq<seq<T>>, q: seq<seq<T>>, y: T, separator: bool)
    requires |p| >= 1 && |q| >= 1
    ensures Step(Merge(p, q), y, separator) == Merge(p, Step(q, y, separator))
  {
    var n, m := |p|, |q|;
    var head := p[..n - 1];
    var r := Merge(p, q);
    if separator {
      assert Step(q, y, separator)[1..] == q[1..] + [[]];
    } else if m == 1 {
      var q2 := Step(q, y, separator);
      assert q2 == [q[0] + [y]];
      assert r == head + [p[n - 1] + q[0]];
      assert r[..|r| - 1] == head;
      assert (p[n - 1] + q[0]) + [y] == p[n - 1] + (q[0] + [y]);
      assert Merge(p, q2) == head + [p[n - 1] + q2[0]] + [];
    } else {
      var q2 := Step(q, y, separator);
      assert q2[0] == q[0];
      assert q2[1..] == q[1..m - 1] + [q[m - 1] + [y]];
      assert r[..|r| - 1] == head + [p[n - 1] + q[0]] + q[1..m - 1];
      assert r[|r| - 1] == q[m - 1];
    }
  }

  /** Splitting a concatenation: the last sublist of the first part and the first sublist
      of the second part merge, every other sublist is kept. */
  lemma {:induction false} PartsAppend<T>(xs: seq<T>, ys: seq<T>, splitter: T -> bool)
    ensures Parts(xs + ys, splitter) == Merge(Parts(xs, splitter), Parts(ys, splitter))
    decreases |ys|
  {
    var p := Parts(xs, splitter);
    if |ys| == 0 {
      assert xs + ys == xs;
      assert p[|p| - 1] + [] == p[|p| - 1];
      assert p[..|p| - 1] + [p[|p| - 1]] == p;
    } else {
      var ys' := ys[..|ys| - 1];
      var y := ys[|ys| - 1];
      PartsAppend(xs, ys', splitter);
      assert (xs + ys)[..|xs + ys| - 1] == xs + ys';
      assert (xs + ys)[|xs + ys| - 1] == y;
      StepMerge(p, Parts(ys', splitter), y, splitter(y));
    }
  }

  /** A list without separators is a single sublist. */
  lemma {:induction false} PartsNoSeparator<T>(a: seq<T>, splitter: T -> bool)
    requires forall y :: y in a ==> !splitter(y)
    ensures Parts(a, splitter) == [a]
  {
    if |a| > 0 {
      assert forall y :: y in a[..|a| - 1] ==> y in a;
      PartsNoSeparator(a[..|a| - 1], splitter);
      assert a[..|a| - 1] + [a[|a| - 1]] == a;
    }
  }

  /** Two separators in a row leave an empty sublist between them. */
  lemma {:induction false} AdjacentSeparators<T>(a: seq<T>, s: T, t: T, b: seq<T>, splitter: T -> bool)
    requires splitter(s) && splitter(t)
    ensures |Parts(a, splitter)| < |Parts(a + [s, t] + b, splitter)|
    ensures Parts(a + [s, t] + b, splitter)[|Parts(a, splitter)|] == []
  {
    var p := Parts(a, splitter);
    var n := |p|;
    assert [s, t][..1] == [s];
    assert [s][..0] == [];
    assert Parts([s], splitter) == [[], []];
    assert Parts([s, t], splitter) == [[], [], []];
    PartsAppend(a, [s, t], splitter);
    var x := Parts(a + [s, t], splitter);
    assert x == p[..n - 1] + [p[n - 1] + []] + [[], []];
    assert |x| == n + 2 && x[n] == [];
    PartsAppend(a + [s, t], b, splitter);
    assert Parts(a + [s, t] + b, splitter)[..n + 1] == x[..n + 1];
  }

  /** `splitOnElement(e)`'s splitter, `{ e == it }`. */
  function Equal<T(==)>(e: T): T -> bool
  {
    x => e == x
  }

  /** The sublists joined again with `e` between neighbours. */
  function Join<T>(parts: seq<seq<T>>, e: T): seq<T>
    requires |parts| >= 1
  {
    if |parts| == 1 then parts[0] else Join(parts[..|parts| - 1], e) + [e] + parts[|parts| - 1]
  }

  /** `splitOnElement`: `splitOn` with equality to `element` as the splitter. */
  method SplitOnElement<T(==)>(xs: seq<T>, element: T) returns (result: seq<seq<T>>)
    ensures result == Parts(xs, Equal(element))
    ensures Join(result, element) == xs
  {
    result := SplitOn(xs, Equal(element));
    JoinParts(xs, element);
  }

  /** Joining the sublists of `splitOnElement(e)` with `e` gives the input back. */
  lemma {:induction false} JoinParts<T>(xs: seq<T>, e: T)
    ensures Join(Parts(xs, Equal(e)), e) == xs
  {
    if |xs| > 0 {
      var ys := xs[..|xs| - 1];
      JoinParts(ys, e);
      JoinStep(Parts(ys, Equal(e)), xs[|xs| - 1], e);
      assert Parts(xs, Equal(e)) == Step(Parts(ys, Equal(e)), xs[|xs| - 1], xs[|xs| - 1] == e);
      assert ys + [xs[|xs| - 1]] == xs;
    }
  }

  /** One more element of the input is one more element of the joined sublists. */
  lemma {:induction false} JoinStep<T>(r: seq<seq<T>>, x: T, e: T)
    requires |r| >= 1
    ensures Join(Step(r, x, x == e), e) == Join(r, e) + [x]
  {
    var n := |r|;
    var r' := Step(r, x, x == e);
    if x == e {
      assert r' == r + [[]];
      assert r'[..n] == r;
    } else {
      var init := r[..n - 1];
      assert r' == init + [r[n - 1] + [x]];
      if n == 1 {
        assert r' == [r[0] + [x]];
      } else {
        assert r'[..n - 1] == init;
        assert Join(r, e) == Join(init, e) + [e] + r[n - 1];
      }
    }
  }

  /** A separator followed by a list without separators: an empty sublist, then that list. */
  lemma {:induction false} PartsAfterSeparator<T>(a: seq<T>, e: T)
    requires e !in a
    ensures Parts([e] + a, Equal(e)) == [[], a]
  {
    PartsNoSeparator(a, Equal(e));
    assert [e][..0] == [];
    assert Parts([e], Equal(e)) == [[], []];
    PartsAppend([e], a, Equal(e));
    assert [] + a == a;
  }

  /** Splitting the joined sublists at `e` gives the sublists back, when none of them holds
      `e`: `splitOnElement` and `Join` are inverse. */
  lemma {:induction false} PartsJoin<T>(parts: seq<seq<T>>, e: T)
    requires |parts| >= 1
    requires forall p :: p in parts ==> e !in p
    ensures Parts(Join(parts, e), Equal(e)) == parts
  {
    var last := parts[|parts| - 1];
    assert last in parts;
    if |parts| == 1 {
      PartsNoSeparator(last, Equal(e));
      assert parts == [last];
    } else {
      var init := parts[..|parts| - 1];
      assert forall p :: p in init ==> p in parts;
      PartsJoin(init, e);
      var j, tail := Join(init, e), [e] + last;
      JoinLast(parts, e);
      assert Join(parts, e) == j + tail;
      PartsAfterSeparator(last, e);
      PartsAppend(j, tail, Equal(e));
      MergeSeparated(init, last);
      FrontLast(parts);
    }
  }

  /** The first sublist is joined before one more `e`. */
  lemma {:induction false} JoinFront<T>(p: seq<T>, qs: seq<seq<T>>, e: T)
    requires |qs| >= 1
    ensures Join([p] + qs, e) == p + [e] + Join(qs, e)
    decreases |qs|
  {
    var ps := [p] + qs;
    if |qs| == 1 {
      assert ps[..1] == [p];
    } else {
      var init := qs[..|qs| - 1];
      JoinFront(p, init, e);
      assert ps[..|ps| - 1] == [p] + init;
      assert Join(qs, e) == Join(init, e) + [e] + qs[|qs| - 1];
    }
  }

  /** The last sublist is joined after one more `e`. */
  lemma {:induction false} JoinLast<T>(parts: seq<seq<T>>, e: T)
    requires |parts| >= 2
    ensures Join(parts, e) == Join(parts[..|parts| - 1], e) + ([e] + parts[|parts| - 1])
  {
    var init, last := parts[..|parts| - 1], parts[|parts| - 1];
    assert Join(parts, e) == Join(init, e) + [e] + last;
    Associative(Join(init, e), [e], last);
  }

  /** A non-empty list is its front followed by its last element. */
  lemma {:induction false} FrontLast<T>(s: seq<T>)
    requires |s| >= 1
    ensures s[..|s| - 1] + [s[|s| - 1]] == s
  {
    var t := s[..|s| - 1] + [s[|s| - 1]];
    assert |t| == |s|;
    assert forall i :: 0 <= i < |s| ==> t[i] == s[i];
  }

  lemma {:induction false} Associative<T>(a: seq<T>, b: seq<T>, c: seq<T>)
    ensures a + b + c == a + (b + c)
  {
  }

  /** Merging with `[[], last]` closes the last sublist and adds `last`. */
  lemma {:induction false} MergeSeparated<T>(p: seq<seq<T>>, last: seq<T>)
    requires |p| >= 1
    ensures Merge(p, [[], last]) == p + [last]
  {
    assert p[|p| - 1] + [] == p[|p| - 1];
    assert [[], last][1..] == [last];
    assert p[..|p| - 1] + [p[|p| - 1]] == p;
  }

  /** Two splitters that agree on every element split alike. */
  lemma {:induction false} PartsAgree<T>(xs: seq<T>, p: T -> bool, q: T -> bool)
    requires forall i :: 0 <= i < |xs| ==> p(xs[i]) == q(xs[i])
    ensures Parts(xs, p) == Parts(xs, q)
  {
    if |xs| > 0 {
      PartsAgree(xs[..|xs| - 1], p, q);
    }
  }

  /** An element of the joined sublists is the separator or an element of a sublist. */
  lemma {:induction false} JoinMembers<T>(parts: seq<seq<T>>, e: T, x: T)
    requires |parts| >= 1 && x in Join(parts, e)
    ensures x == e || exists k :: 0 <= k < |parts| && x in parts[k]
  {
    if |parts| > 1 {
      var front := parts[..|parts| - 1];
      if x in Join(front, e) {
        JoinMembers(front, e, x);
        if x != e {
          var k :| 0 <= k < |front| && x in front[k];
          assert front[k] == parts[k];
        }
      }
    }
  }

  /** `Char.isWhitespace` on the JVM: `Character.isWhitespace` or `Character.isSpaceChar`,
      that is the controls 9-13 and 28-31 and the Unicode space, line and paragraph
      separators. */
  predicate IsWhitespace(c: char)
  {
    ('\U{9}' <= c <= '\U{D}') || ('\U{1C}' <= c <= ' ') || c == '\U{A0}' || c == '\U{1680}'
    || ('\U{2000}' <= c <= '\U{200A}') || c == '\U{2028}' || c == '\U{2029}' || c == '\U{202F}'
    || c == '\U{205F}' || c == '\U{3000}'
  }

  /** `String.isBlank`: empty or whitespace only. */
  predicate IsBlank(s: string)
  {
    forall i :: 0 <= i < |s| ==> IsWhitespace(s[i])
  }

  /** `trimStart()`: the suffix left once the leading whitespace is dropped. */
  function TrimStart(s: string): (r: string)
    ensures |r| <= |s| && r == s[|s| - |r|..]
    ensures forall i :: 0 <= i < |s| - |r| ==> IsWhitespace(s[i])
    ensures |r| > 0 ==> !IsWhitespace(r[0])
  {
    if |s| > 0 && IsWhitespace(s[0]) then TrimStart(s[1..]) else s
  }

  /** `trimEnd()`: the prefix left once the trailing whitespace is dropped. */
  function TrimEnd(s: string): (r: string)
    ensures |r| <= |s| && r == s[..|r|]
    ensures forall i :: |r| <= i < |s| ==> IsWhitespace(s[i])
    ensures |r| > 0 ==> !IsWhitespace(r[|r| - 1])
  {
    if |s| > 0 && IsWhitespace(s[|s| - 1]) then TrimEnd(s[..|s| - 1]) else s
  }

  /** `trim()`: both ends dropped while they are whitespace, so what is left is empty or
      starts and ends with other characters. */
  function Trim(s: string): (r: string)
    ensures |r| > 0 ==> !IsWhitespace(r[0]) && !IsWhitespace(r[|r| - 1])
  {
    TrimEnd(TrimStart(s))
  }

  /** `splitOnBlankLines`: `splitOn` with `isBlank` as the splitter; no group holds a blank
      line and the groups hold the other lines in order. */
  method SplitOnBlankLines(lines: seq<string>) returns (result: seq<seq<string>>)
    ensures result == Parts(lines, IsBlank)
    ensures |result| == 1 + Matches(lines, IsBlank)
    ensures Flatten(result) == Kept(lines, IsBlank)
    ensures forall g, l :: g in result && l in g ==> !IsBlank(l)
  {
    result := SplitOn(lines, IsBlank);
    PartsCount(lines, IsBlank);
    PartsFlatten(lines, IsBlank);
    PartsHaveNoSeparator(lines, IsBlank);
  }

  /** Blocks without blank lines, joined with an empty line between neighbours, are split at
      the blank lines into those blocks again. */
  lemma {:induction false} BlankLinesJoin(blocks: seq<seq<string>>)
    requires |blocks| >= 1 && forall i, l :: 0 <= i < |blocks| && l in blocks[i] ==> !IsBlank(l)
    ensures Parts(Join(blocks, ""), IsBlank) == blocks
  {
    var lines := Join(blocks, "");
    forall i | 0 <= i < |lines|
      ensures IsBlank(lines[i]) == Equal("")(lines[i])
    {
      JoinedLine(blocks, lines[i]);
    }
    PartsAgree(lines, IsBlank, Equal(""));
    forall p | p in blocks
      ensures "" !in p
    {
      assert IsBlank("");
    }
    PartsJoin(blocks, "");
  }

  /** A line of the joined blocks is blank exactly when it is one of the empty lines. */
  lemma {:induction false} JoinedLine(blocks: seq<seq<string>>, x: string)
    requires |blocks| >= 1 && forall i, l :: 0 <= i < |blocks| && l in blocks[i] ==> !IsBlank(l)
    requires x in Join(blocks, "")
    ensures IsBlank(x) == (x == "")
  {
    JoinMembers(blocks, "", x);
    assert IsBlank("");
  }

  // ---------------------------------------------------------------------------------------
  // String.split with a text delimiter
  // ---------------------------------------------------------------------------------------

  /** `d` occurs in `s` starting at `i`. */
  predicate OccursAt(s: string, d: string, i: int)
  {
    0 <= i && i + |d| <= |s| && s[i..i + |d|] == d
  }

  /** `s.indexOf(d, from)`: the first position at or after `from` where `d` occurs, or -1. */
  function FindFrom(s: string, d: string, from: nat): (r: int)
    ensures r == -1 || (from <= r && OccursAt(s, d, r))
    ensures forall i :: from <= i && (r == -1 || i < r) ==> !OccursAt(s, d, i)
    decreases |s| - from
  {
    if from + |d| > |s| then -1
    else if s[from..from + |d|] == d then from
    else FindFrom(s, d, from + 1)
  }

  /** Kotlin's `s.split(d)` for a non-empty delimiter: the text before each occurrence of
      `d`, the occurrences found from the left without overlapping, then the rest. */
  function Split(s: string, d: string): (r: seq<string>)
    requires |d| >= 1
    ensures |r| >= 1
    decreases |s|
  {
    var i := FindFrom(s, d, 0);
    if i < 0 then [s] else [s[..i]] + Split(s[i + |d|..], d)
  }

  /** The pieces joined again with `d` between neighbours. */
  function JoinWith(parts: seq<string>, d: string): string
    requires |parts| >= 1
  {
    if |parts| == 1 then parts[0] else parts[0] + d + JoinWith(parts[1..], d)
  }

  /** A text that holds no occurrence of `d`. */
  predicate Free(s: string, d: string)
  {
    forall i :: 0 <= i <= |s| ==> !OccursAt(s, d, i)
  }

  /** A text before the first occurrence of `d` holds none of it. */
  lemma {:induction false} PrefixFree(s: string, d: string, i: int)
    requires |d| >= 1 && 0 <= i <= |s| && forall j :: 0 <= j < i ==> !OccursAt(s, d, j)
    ensures Free(s[..i], d)
  {
    forall j | 0 <= j <= i
      ensures !OccursAt(s[..i], d, j)
    {
      if OccursAt(s[..i], d, j) {
        assert s[..i][j..j + |d|] == s[j..j + |d|];
        assert OccursAt(s, d, j);
      }
    }
  }

  /** One step of `split`: the text before the first occurrence, then the split of the rest. */
  lemma {:induction false} SplitStep(s: string, d: string)
    requires |d| >= 1 && FindFrom(s, d, 0) >= 0
    ensures var i := FindFrom(s, d, 0);
      s == s[..i] + d + s[i + |d|..] && Free(s[..i], d) &&
      Split(s, d) == [s[..i]] + Split(s[i + |d|..], d)
  {
    var i := FindFrom(s, d, 0);
    PrefixFree(s, d, i);
    assert s[i..i + |d|] == d;
    assert s == s[..i] + s[i..i + |d|] + s[i + |d|..];
  }

  /** Joining the pieces of `split(d)` with `d` gives the text back. */
  lemma {:induction false} SplitJoin(s: string, d: string)
    requires |d| >= 1
    ensures JoinWith(Split(s, d), d) == s
    decreases |s|
  {
    if FindFrom(s, d, 0) >= 0 {
      var i := FindFrom(s, d, 0);
      SplitStep(s, d);
      SplitJoin(s[i + |d|..], d);
      assert Split(s, d)[1..] == Split(s[i + |d|..], d);
    }
  }

  /** No piece of `split(d)` holds `d`. */
  lemma {:induction false} SplitFree(s: string, d: string)
    requires |d| >= 1
    ensures forall p :: p in Split(s, d) ==> Free(p, d)
    decreases |s|
  {
    if FindFrom(s, d, 0) >= 0 {
      var i := FindFrom(s, d, 0);
      SplitStep(s, d);
      SplitFree(s[i + |d|..], d);
    } else {
      assert Split(s, d) == [s];
    }
  }

  /** Joining with a one-character text is joining with that character. */
  lemma {:induction false} JoinWithChar(parts: seq<string>, c: char)
    requires |parts| >= 1
    ensures JoinWith(parts, [c]) == Join(parts, c)
    decreases |parts|
  {
    if |parts| > 1 {
      JoinWithChar(parts[1..], c);
      JoinFront(parts[0], parts[1..], c);
      assert parts == [parts[0]] + parts[1..];
    }
  }

  /** `split` on a one-character text is `splitOnElement` with that character. */
  lemma {:induction false} SplitChar(s: string, c: char)
    ensures Split(s, [c]) == Parts(s, Equal(c))
  {
    var r := Split(s, [c]);
    SplitJoin(s, [c]);
    SplitFree(s, [c]);
    JoinWithChar(r, c);
    forall p | p in r
      ensures c !in p
    {
      if c in p {
        var j :| 0 <= j < |p| && p[j] == c;
        assert p[j..j + 1] == [c];
        assert OccursAt(p, [c], j);
      }
    }
    PartsJoin(r, c);
  }

  /** The first occurrence of `d` is at `i` when `d` occurs there and nowhere before. */
  lemma {:induction false} FirstAt(s: string, d: string, i: int)
    requires OccursAt(s, d, i) && forall j :: 0 <= j < i ==> !OccursAt(s, d, j)
    ensures FindFrom(s, d, 0) == i
  {
  }

  /** A text without `d` is split into itself. */
  lemma {:induction false} SplitWhole(s: string, d: string)
    requires |d| >= 1 && Free(s, d)
    ensures Split(s, d) == [s]
  {
    assert FindFrom(s, d, 0) == -1;
  }

  /** A joined text holds a character only if a piece or the delimiter does. */
  lemma {:induction false} JoinWithAvoids(parts: seq<string>, d: string, x: char)
    requires |parts| >= 1 && x !in d && forall p :: p in parts ==> x !in p
    ensures x !in JoinWith(parts, d)
    decreases |parts|
  {
    assert parts[0] in parts;
    if |parts| > 1 {
      assert forall p :: p in parts[1..] ==> p in parts;
      JoinWithAvoids(parts[1..], d, x);
    }
  }

  /** A text without ": ", then ": ", then a text without a colon, splits at ": " into the
      two texts. */
  lemma {:induction false} SplitAroundColon(name: string, rest: string)
    requires Free(name, ": ") && ':' !in rest
    ensures Split(name + ": " + rest, ": ") == [name, rest]
  {
    var s := name + ": " + rest;
    var n := |name|;
    assert s[n..n + 2] == ": ";
    forall j | 0 <= j < n
      ensures !OccursAt(s, ": ", j)
    {
      assert !OccursAt(name, ": ", j);
      if j + 2 <= n {
        assert s[j..j + 2] == name[j..j + 2];
      } else {
        assert s[j + 1] == ':';
      }
    }
    FirstAt(s, ": ", n);
    assert s[..n] == name && s[n + 2..] == rest;
    forall j | 0 <= j <= |rest|
      ensures !OccursAt(rest, ": ", j)
    {
      if j + 2 <= |rest| {
        assert rest[j] != ':';
        assert rest[j..j + 2][0] == rest[j];
      }
    }
    SplitWhole(rest, ": ");
  }

  /** A text without the first character of `d` does not hold `d`. */
  lemma {:induction false} CharFree(s: string, d: string)
    requires |d| >= 1 && d[0] !in s
    ensures Free(s, d)
  {
    forall i | 0 <= i <= |s|
      ensures !OccursAt(s, d, i)
    {
      if i + |d| <= |s| {
        assert s[i..i + |d|][0] == s[i];
      }
    }
  }

  // ---------------------------------------------------------------------------------------
  // toPair, max, min
  // ---------------------------------------------------------------------------------------

  /** `toPair`: the two elements of a list of exactly two; `require` fails otherwise. */
  function ToPair<T>(xs: seq<T>): (r: Result<(T, T)>)
    ensures r.Ok? <==> |xs| == 2
    ensures r.Ok? ==> [r.value.0, r.value.1] == xs
    ensures r.Err? ==> r.error == IllegalArgument
  {
    if |xs| != 2 then Err(IllegalArgument) else Ok((xs[0], xs[1]))
  }

  /** `max` of an `Int`, `Long`, `Char` or `Byte` collection: the greatest element; `require`
      fails on an empty collection. */
  method Max(xs: seq<int>) returns (r: Result<int>)
    ensures r.Err? <==> |xs| == 0
    ensures r.Err? ==> r.error == IllegalArgument
    ensures r.Ok? ==> r.value in xs && forall x :: x in xs ==> x <= r.value
  {
    if |xs| == 0 {
      return Err(IllegalArgument);
    }
    var max := xs[0];
    var i := 1;
    while i < |xs|
      invariant 1 <= i <= |xs|
      invariant max in xs[..i]
      invariant forall k :: 0 <= k < i ==> xs[k] <= max
    {
      var num := xs[i];
      if num > max {
        max := num;
      }
      i := i + 1;
    }
    assert forall x :: x in xs ==> exists k :: 0 <= k < |xs| && xs[k] == x;
    return Ok(max);
  }

  /** `min` of an `Int`, `Long`, `Char` or `Byte` collection: the least element; `require`
      fails on an empty collection. */
  method Min(xs: seq<int>) returns (r: Result<int>)
    ensures r.Err? <==> |xs| == 0
    ensures r.Err? ==> r.error == IllegalArgument
    ensures r.Ok? ==> r.value in xs && forall x :: x in xs ==> r.value <= x
  {
    if |xs| == 0 {
      return Err(IllegalArgument);
    }
    var min := xs[0];
    var i := 1;
    while i < |xs|
      invariant 1 <= i <= |xs|
      invariant min in xs[..i]
      invariant forall k :: 0 <= k < i ==> min <= xs[k]
    {
      var num := xs[i];
      if num < min {
        min := num;
      }
      i := i + 1;
    }
    assert forall x :: x in xs ==> exists k :: 0 <= k < |xs| && xs[k] == x;
    return Ok(min);
  }

  // ---------------------------------------------------------------------------------------
  // toIntList, deepCopy
  // ---------------------------------------------------------------------------------------

  /** `toIntList` / `toLongList` / `toCharList`: the elements of the range in increasing
      order, one after the other. */
  method ToList(r: Range) returns (l: seq<int>)
    ensures |l| == if IsEmpty(r) then 0 else r.last - r.first + 1
    ensures forall k :: 0 <= k < |l| ==> l[k] == r.first + k
    ensures forall x :: x in l <==> Contains(r, x)
  {
    l := [];
    var i := r.first;
    while i <= r.last
      invariant r.first <= i <= r.last + 1 || (IsEmpty(r) && i == r.first)
      invariant |l| == i - r.first
      invariant forall k :: 0 <= k < |l| ==> l[k] == r.first + k
      decreases r.last - i
    {
      l := l + [i];
      i := i + 1;
    }
    forall x | Contains(r, x)
      ensures x in l
    {
      assert l[x - r.first] == x;
    }
  }

  /** `deepCopy` of a two-dimensional array: a new outer array of new rows with the same
      contents, no row shared with the input or with another row. */
  method DeepCopy<T>(a: array<array<T>>) returns (c: array<array<T>>)
    ensures fresh(c) && c.Length == a.Length
    ensures forall i :: 0 <= i < c.Length ==> fresh(c[i]) && c[i][..] == a[i][..]
    ensures forall i, j :: 0 <= i < j < c.Length ==> c[i] != c[j]
  {
    var rows: seq<array<T>> := [];
    var i := 0;
    while i < a.Length
      invariant 0 <= i <= a.Length && |rows| == i
      invariant forall k :: 0 <= k < i ==> fresh(rows[k]) && rows[k][..] == a[k][..]
      invariant forall k, j :: 0 <= k < j < i ==> rows[k] != rows[j]
    {
      var src := a[i];
      var row := new T[src.Length](k reads src requires 0 <= k < src.Length => src[k]);
      rows := rows + [row];
      i := i + 1;
    }
    c := new array<T>[|rows|](k requires 0 <= k < |rows| => rows[k]);
  }

  // ---------------------------------------------------------------------------------------
  // repeatElements, repeat, allIndexed
  // ---------------------------------------------------------------------------------------

  /** `repeat(num)`: `num` copies of `x`; `List` with a negative size throws. */
  function Repeat<T>(x: T, num: int): (r: Result<seq<T>>)
    ensures r.Err? <==> num < 0
    ensures r.Ok? ==> |r.value| == num && forall k :: 0 <= k < |r.value| ==> r.value[k] == x
  {
    if num < 0 then Err(IllegalArgument) else Ok(seq(num, _ => x))
  }

  /** The list that cycles through `xs` for `n` elements. */
  function Cycle<T>(xs: seq<T>, n: nat): seq<T>
  {
    if |xs| == 0 then [] else seq(n, i => xs[i % |xs|])
  }

  /** `repeatElements(num)` as written: the length `size * num` is an `Int` product, so it
      wraps around, and `List` of a negative size throws. */
  function RepeatElementsAsWritten<T>(xs: seq<T>, num: int): Result<seq<T>>
  {
    var n := Wrap32(|xs| * num);
    if n < 0 then Err(IllegalArgument) else Ok(Cycle(xs, n))
  }

  /** For three elements and `num = 1431655766` the product `4294967298` wraps around to 2:
      the result is a list of two elements rather than a failure. */
  lemma {:induction false} RepeatElementsWrapCounterexample()
    ensures RepeatElementsAsWritten([7, 8, 9], 0x5555_5556) == Ok([7, 8])
  {
    assert 3 * 0x5555_5556 == 0x1_0000_0002;
    assert Wrap32(0x1_0000_0002) == 2;
    assert Cycle([7, 8, 9], 2) == [7, 8];
  }

  /** `repeatElements(num)` as intended: a product that does not fit an `Int` fails, like
      `Math.multiplyExact`, and so does a negative one. */
  function RepeatElements<T>(xs: seq<T>, num: int): (r: Result<seq<T>>)
    ensures r.Ok? <==> 0 <= |xs| * num <= INT_MAX
    ensures r.Ok? ==> |r.value| == |xs| * num
    ensures r.Ok? ==> forall k :: 0 <= k < |r.value| ==> r.value[k] == xs[k % |xs|]
  {
    var n := |xs| * num;
    if n > INT_MAX then Err(Arithmetic)
    else if n < 0 then Err(IllegalArgument)
    else Ok(Cycle(xs, n))
  }

  /** The two agree whenever the product fits an `Int`. */
  lemma {:induction false} RepeatElementsAgree<T>(xs: seq<T>, num: int)
    requires IsInt(|xs| * num)
    ensures RepeatElementsAsWritten(xs, num) == RepeatElements(xs, num)
  {
  }

  /** `repeatElements(num)` is `num` copies of the list, one after the other. */
  lemma {:induction false} RepeatElementsIsConcat<T>(xs: seq<T>, num: nat)
    requires |xs| > 0
    ensures Cycle(xs, |xs| * num) == Flatten(seq(num, _ => xs))
  {
    if num > 0 {
      RepeatElementsIsConcat(xs, num - 1);
      var m := |xs|;
      var prev := seq(num - 1, _ => xs);
      var all := seq(num, _ => xs);
      assert all[..num - 1] == prev;
      assert Flatten(all) == Flatten(prev) + xs;
      assert m * num == m * (num - 1) + m;
      var c := Cycle(xs, m * num);
      forall k | 0 <= k < m * num
        ensures c[k] == (Cycle(xs, m * (num - 1)) + xs)[k]
      {
        if k >= m * (num - 1) {
          ModUnique(k, m, num - 1, k - m * (num - 1));
        }
      }
    }
  }

  /** `allIndexed` from index `i` on. */
  function AllFrom<T>(xs: seq<T>, pred: (int, T) -> bool, i: nat): bool
    requires i <= |xs|
    decreases |xs| - i
  {
    if i == |xs| then true else pred(i, xs[i]) && AllFrom(xs, pred, i + 1)
  }

  /** `allIndexed`: true on an empty list, and otherwise exactly when the predicate holds of
      every (index, element) pair; it stops at the first pair that fails. */
  function AllIndexed<T>(xs: seq<T>, pred: (int, T) -> bool): (r: bool)
    ensures r <==> forall i :: 0 <= i < |xs| ==> pred(i, xs[i])
  {
    AllFromHolds(xs, pred, 0);
    AllFrom(xs, pred, 0)
  }

  lemma {:induction false} AllFromHolds<T>(xs: seq<T>, pred: (int, T) -> bool, i: nat)
    requires i <= |xs|
    ensures AllFrom(xs, pred, i) <==> forall k :: i <= k < |xs| ==> pred(k, xs[k])
    decreases |xs| - i
  {
    if i < |xs| {
      AllFromHolds(xs, pred, i + 1);
    }
  }
}
