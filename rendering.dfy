/** Rendering: filtering, ordering and summarizing the extracted errors, and
    choosing the text or JSON body. Logging and writing to stdout are left to
    the caller: the summary and the body are returned as values. */
module Rendering {
  import opened Records

  // ---------------------------------------------------------------------
  // Filtering

  /** An error is shown unless it is ignored, and, when not verbose, unless
      it is external to the global root. */
  predicate Shown(e: Error, verbose: bool)
  {
    !e.ignored && (verbose || !e.external)
  }

  /** The errors that survive the filter, in their input order. */
  function Filter(errors: seq<Error>, verbose: bool): (r: seq<Error>)
    ensures forall e :: multiset(r)[e] == if Shown(e, verbose) then multiset(errors)[e] else 0
    ensures forall e :: e in r <==> e in errors && Shown(e, verbose)
  {
    if errors == [] then []
    else
      assert errors == [errors[0]] + errors[1..];
      (if Shown(errors[0], verbose) then [errors[0]] else []) + Filter(errors[1..], verbose)
  }

  // ---------------------------------------------------------------------
  // Ordering by (path, line, column)

  /** Python's `<` on strings: lexicographic by code point, a proper prefix first. */
  predicate StringLess(a: string, b: string)
  {
    if b == [] then false
    else if a == [] then true
    else if a[0] != b[0] then a[0] < b[0]
    else StringLess(a[1..], b[1..])
  }

  /** `(a.path, a.line, a.column) <= (b.path, b.line, b.column)` as tuples. */
  predicate KeyAtMost(a: Error, b: Error)
  {
    StringLess(a.path, b.path)
    || (a.path == b.path && (a.line < b.line || (a.line == b.line && a.column <= b.column)))
  }

  lemma {:induction false} StringLessTrichotomy(a: string, b: string)
    ensures a == b || StringLess(a, b) || StringLess(b, a)
    ensures !(StringLess(a, b) && StringLess(b, a))
    ensures !StringLess(a, a)
  {
    if a != [] && b != [] && a[0] == b[0] {
      StringLessTrichotomy(a[1..], b[1..]);
      if a[1..] == b[1..] {
        assert a == [a[0]] + a[1..] && b == [b[0]] + b[1..];
      }
    }
    if a != [] {
      StringLessTrichotomy(a[1..], a[1..]);
    }
  }

  lemma {:induction false} StringLessTransitive(a: string, b: string, c: string)
    requires StringLess(a, b) && StringLess(b, c)
    ensures StringLess(a, c)
  {
    if a != [] && a[0] == b[0] && b[0] == c[0] {
      StringLessTransitive(a[1..], b[1..], c[1..]);
    }
  }

  /** The key order is a total preorder. */
  lemma KeyOrderTotalPreorder(a: Error, b: Error, c: Error)
    ensures KeyAtMost(a, b) || KeyAtMost(b, a)
    ensures KeyAtMost(a, b) && KeyAtMost(b, c) ==> KeyAtMost(a, c)
  {
    StringLessTrichotomy(a.path, b.path);
    StringLessTrichotomy(b.path, c.path);
    StringLessTrichotomy(a.path, c.path);
    if StringLess(a.path, b.path) && StringLess(b.path, c.path) {
      StringLessTransitive(a.path, b.path, c.path);
    }
  }

  /** Keys that are each at most the other are equal. */
  lemma KeyAtMostAntisymmetric(a: Error, b: Error)
    requires KeyAtMost(a, b) && KeyAtMost(b, a)
    ensures Key(a) == Key(b)
  {
    StringLessTrichotomy(a.path, b.path);
  }

  predicate Sorted(s: seq<Error>)
  {
    forall i, j :: 0 <= i < j < |s| ==> KeyAtMost(s[i], s[j])
  }

  /** Places `x` before the first element whose key is not smaller. */
  function Insert(x: Error, s: seq<Error>): (r: seq<Error>)
    ensures |r| == |s| + 1
  {
    if s == [] || KeyAtMost(x, s[0]) then [x] + s
    else [s[0]] + Insert(x, s[1..])
  }

  /** Inserting adds exactly one element. */
  lemma {:induction false} InsertPermutation(x: Error, s: seq<Error>)
    ensures multiset(Insert(x, s)) == multiset(s) + multiset{x}
  {
    if s != [] && !KeyAtMost(x, s[0]) {
      InsertPermutation(x, s[1..]);
      assert s == [s[0]] + s[1..];
    }
  }

  /** `sorted(errors, key=lambda e: (e.path, e.line, e.column))`, as an insertion sort. */
  function Sort(s: seq<Error>): (r: seq<Error>)
    ensures |r| == |s|
  {
    if s == [] then []
    else Insert(s[0], Sort(s[1..]))
  }

  /** Every element of `s` has a key at least that of `y`. */
  predicate AllAtLeast(y: Error, s: seq<Error>)
  {
    forall i :: 0 <= i < |s| ==> KeyAtMost(y, s[i])
  }

  lemma {:induction false} InsertKeepsLowerBound(y: Error, x: Error, s: seq<Error>)
    requires AllAtLeast(y, s) && KeyAtMost(y, x)
    ensures AllAtLeast(y, Insert(x, s))
  {
    if s != [] && !KeyAtMost(x, s[0]) {
      InsertKeepsLowerBound(y, x, s[1..]);
    }
  }

  /** Inserting into a sorted list keeps it sorted. */
  lemma {:induction false} InsertSorted(x: Error, s: seq<Error>)
    requires Sorted(s)
    ensures Sorted(Insert(x, s))
  {
    if s == [] {
    } else if KeyAtMost(x, s[0]) {
      forall j | 0 <= j < |s| ensures KeyAtMost(x, s[j]) {
        KeyOrderTotalPreorder(x, s[0], s[j]);
      }
    } else {
      KeyOrderTotalPreorder(x, s[0], s[0]);
      InsertSorted(x, s[1..]);
      InsertKeepsLowerBound(s[0], x, s[1..]);
    }
  }

  /** Sorting yields an ordered permutation of its input. */
  lemma {:induction false} SortSortedPermutation(s: seq<Error>)
    ensures Sorted(Sort(s))
    ensures multiset(Sort(s)) == multiset(s)
  {
    if s != [] {
      SortSortedPermutation(s[1..]);
      InsertSorted(s[0], Sort(s[1..]));
      InsertPermutation(s[0], Sort(s[1..]));
      assert s == [s[0]] + s[1..];
    }
  }

  /** The head of a sorted list has a key at most that of every element. */
  lemma SortedHeadLeast(a: seq<Error>, x: Error)
    requires Sorted(a) && x in a
    ensures KeyAtMost(a[0], x)
  {
    var i :| 0 <= i < |a| && a[i] == x;
    if i > 0 {
      assert KeyAtMost(a[0], a[i]);
    } else {
      assert a[0].path == x.path && a[0].line == x.line && a[0].column == x.column;
    }
  }

  /** Removing equal heads keeps two lists permutations of each other. */
  lemma MultisetTails(a: seq<Error>, b: seq<Error>)
    requires a != [] && b != [] && a[0] == b[0] && multiset(a) == multiset(b)
    ensures multiset(a[1..]) == multiset(b[1..])
  {
    assert a == [a[0]] + a[1..];
    assert b == [b[0]] + b[1..];
    assert multiset(a) == multiset{a[0]} + multiset(a[1..]);
    assert multiset(b) == multiset{a[0]} + multiset(b[1..]);
    assert multiset(a[1..]) == multiset(a) - multiset{a[0]};
    assert multiset(b[1..]) == multiset(b) - multiset{a[0]};
  }

  /** Two sorted lists that are permutations of each other, with no two
      distinct elements sharing a key, are equal. */
  lemma {:induction false} SortedUnique(a: seq<Error>, b: seq<Error>)
    requires Sorted(a) && Sorted(b) && multiset(a) == multiset(b)
    requires forall x, y :: x in a && y in a && Key(x) == Key(y) ==> x == y
    ensures a == b
  {
    if a == [] {
      assert |multiset(b)| == 0;
    } else {
      assert a[0] in multiset(b);
      assert b[0] in multiset(a);
      SortedHeadLeast(a, b[0]);
      SortedHeadLeast(b, a[0]);
      KeyAtMostAntisymmetric(a[0], b[0]);
      assert a[0] == b[0];
      MultisetTails(a, b);
      forall x, y | x in a[1..] && y in a[1..] && Key(x) == Key(y) ensures x == y {
        assert x in a && y in a;
      }
      SortedUnique(a[1..], b[1..]);
      assert a == [a[0]] + a[1..] && b == [b[0]] + b[1..];
    }
  }

  /** One-step unfoldings of `Insert` and `Sort` on short lists. */
  lemma InsertAtEnd(x: Error, y: Error)
    requires !KeyAtMost(x, y)
    ensures Insert(x, [y]) == [y, x]
  {
    assert [y][1..] == [];
  }

  lemma InsertFront(x: Error, y: Error)
    requires KeyAtMost(x, y)
    ensures Insert(x, [y]) == [x, y]
  {
  }

  lemma InsertPast(x: Error, y: Error, s: seq<Error>)
    requires !KeyAtMost(x, y)
    ensures Insert(x, [y] + s) == [y] + Insert(x, s)
  {
    assert ([y] + s)[1..] == s;
  }

  lemma SortCons(x: Error, s: seq<Error>)
    ensures Sort([x] + s) == Insert(x, Sort(s))
  {
    assert ([x] + s)[1..] == s;
  }

  lemma SortSingle(x: Error)
    ensures Sort([x]) == [x]
  {
    assert [x][1..] == [];
  }

  /** The sort key `(path, line, column)`. */
  function Key(e: Error): (string, int, int)
  {
    (e.path, e.line, e.column)
  }

  /** The errors of `s` whose key is `k`, in their order in `s`. */
  function WithKey(s: seq<Error>, k: (string, int, int)): (r: seq<Error>)
  {
    if s == [] then []
    else (if Key(s[0]) == k then [s[0]] else []) + WithKey(s[1..], k)
  }

  /** `WithKey` of a list with a known first element. */
  lemma WithKeyCons(x: Error, s: seq<Error>, k: (string, int, int))
    ensures WithKey([x] + s, k) == (if Key(x) == k then [x] else []) + WithKey(s, k)
  {
    assert ([x] + s)[1..] == s;
  }

  lemma {:induction false} WithKeyInsert(x: Error, s: seq<Error>, k: (string, int, int))
    ensures WithKey(Insert(x, s), k) == (if Key(x) == k then [x] else []) + WithKey(s, k)
  {
    if s == [] || KeyAtMost(x, s[0]) {
      assert Insert(x, s) == [x] + s;
      WithKeyCons(x, s, k);
    } else {
      var t := s[1..];
      assert s == [s[0]] + t;
      assert Insert(x, s) == [s[0]] + Insert(x, t);
      WithKeyInsert(x, t, k);
      WithKeyCons(s[0], Insert(x, t), k);
      WithKeyCons(s[0], t, k);
      if Key(x) == k {
        assert Key(s[0]) != k;
        assert WithKey(Insert(x, s), k) == [x] + WithKey(t, k);
      } else if Key(s[0]) == k {
        assert WithKey(Insert(x, s), k) == [s[0]] + WithKey(t, k);
      } else {
        assert WithKey(Insert(x, s), k) == WithKey(t, k);
      }
    }
  }

  /** `sorted` is stable: for every key, the errors with that key appear in
      the sorted list in the same order as in the input. */
  lemma {:induction false} SortStable(s: seq<Error>, k: (string, int, int))
    ensures WithKey(Sort(s), k) == WithKey(s, k)
  {
    if s != [] {
      SortStable(s[1..], k);
      WithKeyInsert(s[0], Sort(s[1..]), k);
    }
  }

  /** `Filter` of a list with a known first element. */
  lemma FilterCons(x: Error, r: seq<Error>, verbose: bool)
    ensures Filter([x] + r, verbose) == (if Shown(x, verbose) then [x] else []) + Filter(r, verbose)
  {
    assert ([x] + r)[1..] == r;
  }

  /** The filter keeps the input order: selecting one key commutes with it. */
  lemma {:induction false} FilterWithKey(s: seq<Error>, verbose: bool, k: (string, int, int))
    ensures WithKey(Filter(s, verbose), k) == Filter(WithKey(s, k), verbose)
  {
    if s != [] {
      var x, r := s[0], s[1..];
      assert s == [x] + r;
      FilterWithKey(r, verbose, k);
      FilterCons(x, r, verbose);
      WithKeyCons(x, r, k);
      if Shown(x, verbose) {
        WithKeyCons(x, Filter(r, verbose), k);
        if Key(x) == k {
          FilterCons(x, WithKey(r, k), verbose);
        } else {
          assert WithKey(s, k) == WithKey(r, k);
        }
      } else {
        assert Filter(s, verbose) == Filter(r, verbose);
        if Key(x) == k {
          FilterCons(x, WithKey(r, k), verbose);
        } else {
          assert WithKey(s, k) == WithKey(r, k);
        }
      }
    }
  }

  // ---------------------------------------------------------------------
  // The printed list

  /** The list `_print` reports: filtered, then sorted. */
  function Displayed(errors: seq<Error>, verbose: bool): (r: seq<Error>)
    ensures |r| == |Filter(errors, verbose)|
  {
    Sort(Filter(errors, verbose))
  }

  /** The printed list is sorted, is a permutation of the filtered errors,
      and contains exactly the input errors that pass the filter. */
  lemma DisplayedSortedPermutationOfFiltered(errors: seq<Error>, verbose: bool)
    ensures Sorted(Displayed(errors, verbose))
    ensures multiset(Displayed(errors, verbose)) == multiset(Filter(errors, verbose))
    ensures |Displayed(errors, verbose)| == |Filter(errors, verbose)|
    ensures forall e :: e in Displayed(errors, verbose) <==> e in errors && Shown(e, verbose)
  {
    var f := Filter(errors, verbose);
    SortSortedPermutation(f);
    assert |multiset(Sort(f))| == |multiset(f)|;
    forall e ensures e in Sort(f) <==> e in f {
      assert e in Sort(f) <==> e in multiset(Sort(f));
      assert e in f <==> e in multiset(f);
    }
  }

  /** An ignored error is never printed, verbose or not. */
  lemma IgnoredNeverDisplayed(errors: seq<Error>, e: Error, verbose: bool)
    requires e.ignored
    ensures e !in Displayed(errors, verbose)
  {
    DisplayedSortedPermutationOfFiltered(errors, verbose);
  }

  /** A non-ignored external error is printed exactly when verbose. */
  lemma ExternalDisplayedIffVerbose(errors: seq<Error>, e: Error, verbose: bool)
    requires e in errors && !e.ignored && e.external
    ensures e in Displayed(errors, verbose) <==> verbose
  {
    DisplayedSortedPermutationOfFiltered(errors, verbose);
  }

  /** A non-ignored error inside the global root is always printed. */
  lemma LocalAlwaysDisplayed(errors: seq<Error>, e: Error, verbose: bool)
    requires e in errors && !e.ignored && !e.external
    ensures e in Displayed(errors, verbose)
  {
    DisplayedSortedPermutationOfFiltered(errors, verbose);
  }

  /** Errors that share a key are printed in the order the filter keeps
      them in, which is their order in the input. */
  lemma DisplayedStable(errors: seq<Error>, verbose: bool, k: (string, int, int))
    ensures WithKey(Displayed(errors, verbose), k) == Filter(WithKey(errors, k), verbose)
  {
    SortStable(Filter(errors, verbose), k);
    FilterWithKey(errors, verbose, k);
  }

  /** When no two distinct errors share a key, the printed list depends only
      on which errors there are, not on the order they arrive in. */
  lemma DisplayedDeterministic(s1: seq<Error>, s2: seq<Error>, verbose: bool)
    requires multiset(s1) == multiset(s2)
    requires forall a, b :: a in s1 && b in s1 && Key(a) == Key(b) ==> a == b
    ensures Displayed(s1, verbose) == Displayed(s2, verbose)
  {
    var f1, f2 := Filter(s1, verbose), Filter(s2, verbose);
    assert multiset(f1) == multiset(f2) by {
      forall e ensures multiset(f1)[e] == multiset(f2)[e] {
      }
    }
    DisplayedSortedPermutationOfFiltered(s1, verbose);
    DisplayedSortedPermutationOfFiltered(s2, verbose);
    SortedUnique(Displayed(s1, verbose), Displayed(s2, verbose));
  }

  /** Example: `b.py:1:1`, `a.py:5:1`, `a.py:1:9` are printed as `a.py:1:9`, `a.py:5:1`, `b.py:1:1`. */
  lemma SortExample(p: Payload)
    ensures
      var b11 := Error(false, false, "b.py", 1, 1, p);
      var a51 := Error(false, false, "a.py", 5, 1, p);
      var a19 := Error(false, false, "a.py", 1, 9, p);
      Displayed([b11, a51, a19], false) == [a19, a51, b11]
  {
    var b11 := Error(false, false, "b.py", 1, 1, p);
    var a51 := Error(false, false, "a.py", 5, 1, p);
    var a19 := Error(false, false, "a.py", 1, 9, p);
    assert !KeyAtMost(b11, a51) && !KeyAtMost(b11, a19) by {
      assert "b.py"[0] != "a.py"[0];
    }
    assert !KeyAtMost(a51, a19) by {
      StringLessTrichotomy("a.py", "a.py");
    }
    DisplayedReversedThree(b11, a51, a19);
  }

  /** Two errors given in strictly decreasing key order come out swapped. */
  lemma SortTwoReversed(y: Error, z: Error)
    requires !KeyAtMost(y, z)
    ensures Sort([y, z]) == [z, y]
  {
    SortSingle(z);
    SortCons(y, [z]);
    InsertAtEnd(y, z);
  }

  /** Three errors given in strictly decreasing key order come out reversed. */
  lemma SortReversedThree(x: Error, y: Error, z: Error)
    requires !KeyAtMost(x, y) && !KeyAtMost(x, z) && !KeyAtMost(y, z)
    ensures Sort([x, y, z]) == [z, y, x]
  {
    SortTwoReversed(y, z);
    SortCons(x, [y, z]);
    InsertPast(x, z, [y]);
    InsertAtEnd(x, y);
  }

  /** Three shown errors in strictly decreasing key order are printed reversed. */
  lemma DisplayedReversedThree(x: Error, y: Error, z: Error)
    requires !KeyAtMost(x, y) && !KeyAtMost(x, z) && !KeyAtMost(y, z)
    requires Shown(x, false) && Shown(y, false) && Shown(z, false)
    ensures Displayed([x, y, z], false) == [z, y, x]
  {
    SortReversedThree(x, y, z);
    FilterKeepsShown([x, y, z], false);
    assert Displayed([x, y, z], false) == Sort([x, y, z]);
  }

  /** When every error passes the filter, the list is returned unchanged. */
  lemma {:induction false} FilterKeepsShown(errors: seq<Error>, verbose: bool)
    requires forall i :: 0 <= i < |errors| ==> Shown(errors[i], verbose)
    ensures Filter(errors, verbose) == errors
  {
    if errors != [] {
      FilterKeepsShown(errors[1..], verbose);
      assert errors == [errors[0]] + errors[1..];
    }
  }

  /** Errors with equal (path, line, column) keep their input order, so the
      printed order of such errors follows the iteration order of the set. */
  lemma TiedKeysFollowInputOrder(e1: Error, e2: Error)
    requires e1.path == e2.path && e1.line == e2.line && e1.column == e2.column
    requires Shown(e1, false) && Shown(e2, false)
    ensures Displayed([e1, e2], false) == [e1, e2]
    ensures Displayed([e2, e1], false) == [e2, e1]
  {
    TwoInOrder(e1, e2);
    TwoInOrder(e2, e1);
  }

  lemma TwoInOrder(x: Error, y: Error)
    requires KeyAtMost(x, y) && Shown(x, false) && Shown(y, false)
    ensures Displayed([x, y], false) == [x, y]
  {
    FilterKeepsShown([x, y], false);
    SortSingle(y);
    SortCons(x, [y]);
    InsertFront(x, y);
    assert [x] + [y] == [x, y];
    assert Sort([x, y]) == [x, y];
  }

  // ---------------------------------------------------------------------
  // The summary line

  predicate IsDigit(c: char)
  {
    '0' <= c <= '9'
  }

  /** `%d` of a natural number. */
  function DecimalString(n: nat): (s: string)
    ensures |s| > 0
    ensures forall i :: 0 <= i < |s| ==> IsDigit(s[i])
    ensures s[0] == '0' ==> n == 0
  {
    if n < 10 then [('0' as int + n) as char]
    else DecimalString(n / 10) + [('0' as int + n % 10) as char]
  }

  /** The number a string of decimal digits denotes. */
  function DecimalValue(s: string): (n: nat)
    requires forall i :: 0 <= i < |s| ==> IsDigit(s[i])
  {
    if s == [] then 0
    else
      assert IsDigit(s[|s| - 1]);
      DecimalValue(s[..|s| - 1]) * 10 + (s[|s| - 1] as int - '0' as int)
  }

  lemma {:induction false} DecimalRoundTrip(n: nat)
    ensures DecimalValue(DecimalString(n)) == n
  {
    if n >= 10 {
      DecimalRoundTrip(n / 10);
      var s := DecimalString(n);
      assert s[..|s| - 1] == DecimalString(n / 10);
    }
  }

  datatype LogLevel = ErrorLevel | SuccessLevel

  /** The line logged before the body, with its log level. */
  datatype Summary = Summary(level: LogLevel, message: string)

  const NoErrorsMessage: string := "No type errors found"

  /** The summary for a list of `count` printed errors. */
  function Summarize(count: nat): (s: Summary)
    ensures s.level == SuccessLevel <==> count == 0
    ensures count == 0 ==> s.message == NoErrorsMessage
  {
    if count > 0 then
      Summary(ErrorLevel, "Found " + DecimalString(count) + " type error" + (if count > 1 then "s" else "") + "!")
    else
      Summary(SuccessLevel, NoErrorsMessage)
  }

  /** The length of the run of digits at the start of `s`. */
  function LeadingDigits(s: string): (k: nat)
    ensures k <= |s|
    ensures forall i :: 0 <= i < k ==> IsDigit(s[i])
    ensures k < |s| ==> !IsDigit(s[k])
  {
    if s == [] || !IsDigit(s[0]) then 0 else 1 + LeadingDigits(s[1..])
  }

  /** Reads back the count a summary message reports: `Some(0)` for the
      success message, `Some(n)` for "Found n type error!" with n = 1 or
      "Found n type errors!" with n > 1, and `None` for anything else
      (a wrong plural included). */
  function SummaryCount(message: string): (count: Option<nat>)
  {
    if message == NoErrorsMessage then Some(0)
    else if |message| < 6 || message[..6] != "Found " then None
    else
      var rest := message[6..];
      var k := LeadingDigits(rest);
      var n := DecimalValue(rest[..k]);
      if k > 0 && rest[0] != '0' && ((n == 1 && rest[k..] == " type error!") || (n > 1 && rest[k..] == " type errors!"))
      then Some(n)
      else None
  }

  lemma {:induction false} LeadingDigitsOfNumeral(d: string, tail: string)
    requires forall i :: 0 <= i < |d| ==> IsDigit(d[i])
    requires tail != [] && !IsDigit(tail[0])
    ensures LeadingDigits(d + tail) == |d|
  {
    if d != [] {
      assert (d + tail)[1..] == d[1..] + tail;
      LeadingDigitsOfNumeral(d[1..], tail);
    }
  }

  /** How `SummaryCount` splits a message "Found <digits><tail>". */
  lemma FoundMessageParts(d: string, tail: string)
    requires d != [] && forall i :: 0 <= i < |d| ==> IsDigit(d[i])
    requires tail != [] && !IsDigit(tail[0])
    ensures var m := "Found " + d + tail;
      && m != NoErrorsMessage && |m| >= 6 && m[..6] == "Found "
      && m[6..] == d + tail
      && LeadingDigits(m[6..]) == |d|
      && m[6..][..|d|] == d && m[6..][|d|..] == tail && m[6..][0] == d[0]
  {
    var m := "Found " + d + tail;
    assert m[0] == 'F' && NoErrorsMessage[0] == 'N';
    assert m[6..] == d + tail;
    LeadingDigitsOfNumeral(d, tail);
  }

  /** The summary reports the count it was given, with "error" in the
      singular exactly when the count is one. */
  lemma SummaryCountRoundTrip(count: nat)
    ensures SummaryCount(Summarize(count).message) == Some(count)
  {
    if count > 0 {
      var d := DecimalString(count);
      DecimalRoundTrip(count);
      if count == 1 {
        assert Summarize(count).message == "Found " + d + " type error!";
        FoundMessageParts(d, " type error!");
      } else {
        assert Summarize(count).message == "Found " + d + " type errors!";
        FoundMessageParts(d, " type errors!");
      }
    }
  }

  // ---------------------------------------------------------------------
  // The body

  /** `"\n".join(lines)`. */
  function JoinLines(lines: seq<string>): (text: string)
  {
    if |lines| == 0 then ""
    else if |lines| == 1 then lines[0]
    else lines[0] + "\n" + JoinLines(lines[1..])
  }

  /** `text.split("\n")`. */
  function SplitLines(text: string): (r: seq<string>)
    ensures |r| > 0
  {
    if text == [] then [""]
    else
      var rest := SplitLines(text[1..]);
      if text[0] == '\n' then [""] + rest
      else [[text[0]] + rest[0]] + rest[1..]
  }

  predicate SingleLine(line: string)
  {
    forall i :: 0 <= i < |line| ==> line[i] != '\n'
  }

  lemma {:induction false} SplitAfterLine(line: string, rest: string)
    requires SingleLine(line)
    ensures SplitLines(line + rest) == [line + SplitLines(rest)[0]] + SplitLines(rest)[1..]
  {
    if line != [] {
      var s := SplitLines(rest);
      assert (line + rest)[0] == line[0] && line[0] != '\n';
      assert (line + rest)[1..] == line[1..] + rest;
      SplitAfterLine(line[1..], rest);
      var tail := SplitLines(line[1..] + rest);
      assert tail[0] == line[1..] + s[0] && tail[1..] == s[1..];
      assert line == [line[0]] + line[1..];
      assert SplitLines(line + rest) == [[line[0]] + tail[0]] + tail[1..];
      assert [line[0]] + (line[1..] + s[0]) == line + s[0];
    } else {
      var s := SplitLines(rest);
      assert line + rest == rest && line + s[0] == s[0];
      assert s == [s[0]] + s[1..];
    }
  }

  /** Joining a non-empty list of single lines and splitting again gives the lines back. */
  lemma {:induction false} SplitJoinRoundTrip(lines: seq<string>)
    requires |lines| > 0
    requires forall i :: 0 <= i < |lines| ==> SingleLine(lines[i])
    ensures SplitLines(JoinLines(lines)) == lines
  {
    if |lines| == 1 {
      SplitAfterLine(lines[0], "");
      assert lines[0] + "" == lines[0];
      assert lines == [lines[0]];
    } else {
      SplitJoinRoundTrip(lines[1..]);
      var rest := "\n" + JoinLines(lines[1..]);
      assert lines[0] + "\n" + JoinLines(lines[1..]) == lines[0] + rest;
      SplitAfterLine(lines[0], rest);
      assert rest[0] == '\n' && rest[1..] == JoinLines(lines[1..]);
      assert SplitLines(rest) == [""] + lines[1..];
      assert lines[0] + "" == lines[0];
      assert lines == [lines[0]] + lines[1..];
    }
  }

  /** What `_print` writes to stdout: the text layout of the errors, or the
      errors themselves for JSON serialization. */
  datatype Body = Text(text: string) | Json(records: seq<Error>)

  datatype Report = Report(summary: Summary, body: Body)

  function Reprs(errors: seq<Error>, repr: Error -> string): (lines: seq<string>)
    ensures |lines| == |errors|
  {
    seq(|errors|, i requires 0 <= i < |errors| => repr(errors[i]))
  }

  /** `_print`: the summary and the body for the given errors, taken in the
      iteration order of the collection they came from. `repr` stands for
      the errors' text representation. */
  function Render(errors: seq<Error>, settings: Settings, repr: Error -> string): (r: Report)
    ensures r.body.Text? <==> settings.output == TEXT
    ensures r.body.Json? ==> multiset(r.body.records) == multiset(Filter(errors, settings.verbose))
    ensures r.summary.level == SuccessLevel <==> Filter(errors, settings.verbose) == []
  {
    var shown := Displayed(errors, settings.verbose);
    DisplayedSortedPermutationOfFiltered(errors, settings.verbose);
    Report(
      Summarize(|shown|),
      if settings.output == TEXT then Text(JoinLines(Reprs(shown, repr))) else Json(shown))
  }

  /** What the rendered report promises: the summary reports the number of
      errors that pass the filter, with the right plural; the body is text
      exactly when the text format is chosen; the JSON records are the
      filtered errors, sorted; the text holds one line per printed error. */
  lemma RenderPromises(errors: seq<Error>, settings: Settings, repr: Error -> string)
    ensures var r := Render(errors, settings, repr);
      && SummaryCount(r.summary.message) == Some(|Filter(errors, settings.verbose)|)
      && (r.summary.level == SuccessLevel <==> forall e :: e in errors ==> !Shown(e, settings.verbose))
      && (r.body.Text? <==> settings.output == TEXT)
      && (r.body.Json? ==> Sorted(r.body.records))
      && (r.body.Json? ==> multiset(r.body.records) == multiset(Filter(errors, settings.verbose)))
      && (r.body.Text? && Filter(errors, settings.verbose) == [] ==> r.body.text == "")
      && (r.body.Text? && Filter(errors, settings.verbose) != []
          && (forall e :: e in errors ==> SingleLine(repr(e)))
          ==> SplitLines(r.body.text) == Reprs(Displayed(errors, settings.verbose), repr))
  {
    var v := settings.verbose;
    var shown := Displayed(errors, v);
    DisplayedSortedPermutationOfFiltered(errors, v);
    SummaryCountRoundTrip(|shown|);
    NothingShownIffEmpty(errors, v);
    if (forall e :: e in errors ==> SingleLine(repr(e))) && shown != [] {
      TextBodyLines(shown, repr);
    }
  }

  /** The filtered list is empty exactly when no input error is shown. */
  lemma NothingShownIffEmpty(errors: seq<Error>, verbose: bool)
    ensures Filter(errors, verbose) == [] <==> forall e :: e in errors ==> !Shown(e, verbose)
  {
    var f := Filter(errors, verbose);
    if f != [] {
      assert f[0] in f;
    }
  }

  /** The text body of printed errors whose texts are single lines splits
      back into those texts. */
  lemma TextBodyLines(shown: seq<Error>, repr: Error -> string)
    requires shown != [] && forall e :: e in shown ==> SingleLine(repr(e))
    ensures SplitLines(JoinLines(Reprs(shown, repr))) == Reprs(shown, repr)
  {
    var lines := Reprs(shown, repr);
    forall i | 0 <= i < |lines| ensures SingleLine(lines[i]) {
      assert shown[i] in shown;
    }
    SplitJoinRoundTrip(lines);
  }
}
