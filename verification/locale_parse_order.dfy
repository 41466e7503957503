/** The calendar parse order (`comp_func_parse_order_index` and
    `locale_make_calendar_parse_order`): for each list of month, weekday and
    AM/PM names, the order in which the date tokenizer tries them, so that a
    name is tried before any name that is a prefix of it. */
module LocaleParseOrder {

  /** `strcmp` on the contents of two C strings: lexicographic by character
      code, a proper prefix ordering first. */
  predicate StrLess(a: seq<char>, b: seq<char>)
    decreases |a|
  {
    if |a| == 0 then |b| > 0
    else if |b| == 0 then false
    else if a[0] != b[0] then a[0] < b[0]
    else StrLess(a[1..], b[1..])
  }

  /** The sign of `strcmp(a, b)`. */
  function StrCmp(a: seq<char>, b: seq<char>): (c: int)
    ensures c == 0 <==> a == b
    ensures c < 0 <==> StrLess(a, b)
    ensures c > 0 <==> StrLess(b, a)
    ensures -1 <= c <= 1
  {
    StrLessTotal(a, b);
    StrLessAsymmetric(a, b);
    if a == b then 0 else if StrLess(a, b) then -1 else 1
  }

  lemma {:induction false} StrLessIrreflexive(a: seq<char>)
    ensures !StrLess(a, a)
    decreases |a|
  {
    if |a| > 0 {
      StrLessIrreflexive(a[1..]);
    }
  }

  lemma {:induction false} StrLessAsymmetric(a: seq<char>, b: seq<char>)
    ensures !(StrLess(a, b) && StrLess(b, a))
    decreases |a|
  {
    if |a| > 0 && |b| > 0 && a[0] == b[0] {
      StrLessAsymmetric(a[1..], b[1..]);
    }
    if a == b {
      StrLessIrreflexive(a);
    }
  }

  lemma {:induction false} StrLessTotal(a: seq<char>, b: seq<char>)
    ensures a == b || StrLess(a, b) || StrLess(b, a)
    decreases |a|
  {
    if |a| > 0 && |b| > 0 && a[0] == b[0] {
      StrLessTotal(a[1..], b[1..]);
      if a[1..] == b[1..] {
        assert a == [a[0]] + a[1..] && b == [b[0]] + b[1..];
      }
    }
  }

  lemma {:induction false} StrLessTransitive(a: seq<char>, b: seq<char>, c: seq<char>)
    requires StrLess(a, b) && StrLess(b, c)
    ensures StrLess(a, c)
    decreases |a|
  {
    if |a| > 0 && |b| > 0 && |c| > 0 && a[0] == b[0] && b[0] == c[0] {
      StrLessTransitive(a[1..], b[1..], c[1..]);
    }
  }

  /** A proper prefix compares lower. */
  lemma {:induction false} PrefixIsLess(a: seq<char>, b: seq<char>)
    requires |a| < |b| && b[..|a|] == a
    ensures StrLess(a, b)
    decreases |a|
  {
    if |a| > 0 {
      assert a[0] == b[..|a|][0];
      assert b[1..][..|a| - 1] == b[..|a|][1..];
      PrefixIsLess(a[1..], b[1..]);
    }
  }

  /** `comp_func_parse_order_index`: names in descending `strcmp` order,
      equal names by ascending index.  Negative means `p1` goes first. */
  function CompareParseIndex(names: seq<seq<char>>, p1: nat, p2: nat): (c: int)
    requires p1 < |names| && p2 < |names|
    ensures c == 0 <==> p1 == p2
    ensures c < 0 <==> StrLess(names[p2], names[p1]) || (names[p1] == names[p2] && p1 < p2)
  {
    var cmp := StrCmp(names[p2], names[p1]);
    if cmp == 0 then p1 - p2 else cmp
  }

  /** `p1` is tried before `p2`. */
  predicate Before(names: seq<seq<char>>, p1: nat, p2: nat)
    requires p1 < |names| && p2 < |names|
  {
    CompareParseIndex(names, p1, p2) < 0
  }

  lemma BeforeTotal(names: seq<seq<char>>, p1: nat, p2: nat)
    requires p1 < |names| && p2 < |names| && p1 != p2
    ensures Before(names, p1, p2) != Before(names, p2, p1)
  {
    StrLessAsymmetric(names[p1], names[p2]);
  }

  lemma BeforeTransitive(names: seq<seq<char>>, p1: nat, p2: nat, p3: nat)
    requires p1 < |names| && p2 < |names| && p3 < |names|
    requires Before(names, p1, p2) && Before(names, p2, p3)
    ensures Before(names, p1, p3)
  {
    if StrLess(names[p2], names[p1]) && StrLess(names[p3], names[p2]) {
      StrLessTransitive(names[p3], names[p2], names[p1]);
    }
  }

  predicate InRange(names: seq<seq<char>>, xs: seq<nat>) {
    forall i :: 0 <= i < |xs| ==> xs[i] < |names|
  }

  /** Every earlier element is tried before every later one. */
  predicate Sorted(names: seq<seq<char>>, xs: seq<nat>)
    requires InRange(names, xs)
  {
    forall i, j :: 0 <= i < j < |xs| ==> Before(names, xs[i], xs[j])
  }

  /** `y` goes before every element of a permutation of `ys` plus `x`
      when it goes before `x` and every element of `ys`. */
  lemma BeforeAllOfPermutation(names: seq<seq<char>>, y: nat, ys: seq<nat>, x: nat, rest: seq<nat>)
    requires y < |names| && x < |names| && InRange(names, ys) && InRange(names, rest)
    requires forall j :: 0 <= j < |ys| ==> Before(names, y, ys[j])
    requires Before(names, y, x)
    requires multiset(rest) == multiset(ys) + multiset{x}
    ensures forall k :: 0 <= k < |rest| ==> Before(names, y, rest[k])
  {
    forall k | 0 <= k < |rest| ensures Before(names, y, rest[k]) {
      assert rest[k] in multiset(rest);
      if rest[k] != x {
        assert rest[k] in multiset(ys);
        var j :| 0 <= j < |ys| && ys[j] == rest[k];
      }
    }
  }

  /** Putting in front of a sorted sequence an element that goes before
      all of it keeps it sorted. */
  lemma SortedCons(names: seq<seq<char>>, y: nat, rest: seq<nat>)
    requires y < |names| && InRange(names, rest) && Sorted(names, rest)
    requires forall k :: 0 <= k < |rest| ==> Before(names, y, rest[k])
    ensures InRange(names, [y] + rest) && Sorted(names, [y] + rest)
  {
    var r := [y] + rest;
    forall i, j | 0 <= i < j < |r| ensures Before(names, r[i], r[j]) {
      if i == 0 {
        assert r[j] == rest[j - 1];
      } else {
        assert r[i] == rest[i - 1] && r[j] == rest[j - 1];
      }
    }
  }

  /** Places `x` in front of the first element it goes before. */
  function Insert(names: seq<seq<char>>, x: nat, xs: seq<nat>): (r: seq<nat>)
    requires x < |names| && InRange(names, xs) && Sorted(names, xs) && x !in xs
    ensures InRange(names, r) && Sorted(names, r)
    ensures multiset(r) == multiset(xs) + multiset{x}
  {
    if |xs| == 0 then [x]
    else if Before(names, x, xs[0]) then
      forall j | 0 <= j < |xs| ensures Before(names, x, xs[j]) {
        if j > 0 {
          BeforeTransitive(names, x, xs[0], xs[j]);
        }
      }
      SortedCons(names, x, xs);
      [x] + xs
    else
      BeforeTotal(names, x, xs[0]);
      var ys := xs[1..];
      var rest := Insert(names, x, ys);
      assert forall j :: 0 <= j < |ys| ==> ys[j] == xs[j + 1];
      BeforeAllOfPermutation(names, xs[0], ys, x, rest);
      SortedCons(names, xs[0], rest);
      assert xs == [xs[0]] + ys;
      [xs[0]] + rest
  }

  /** Insertion sort of `xs` under `Before`. */
  function SortIndexes(names: seq<seq<char>>, xs: seq<nat>): (r: seq<nat>)
    requires InRange(names, xs)
    requires forall i, j :: 0 <= i < j < |xs| ==> xs[i] != xs[j]
    ensures InRange(names, r) && Sorted(names, r)
    ensures multiset(r) == multiset(xs)
  {
    if |xs| == 0 then []
    else
      var init := xs[..|xs| - 1];
      var last := xs[|xs| - 1];
      assert xs == init + [last];
      var s := SortIndexes(names, init);
      assert last !in multiset(init);
      Insert(names, last, s)
  }

  /** The identity order 0 .. n-1 the arrays are initialised with. */
  function Identity(n: nat): (r: seq<nat>)
    ensures |r| == n
    ensures forall i :: 0 <= i < n ==> r[i] == i
  {
    seq(n, i => i)
  }

  /** One `qsort` of a parse-order array: a permutation of 0 .. n-1 in which
      every index comes before the indexes it must be tried ahead of. */
  function MakeParseOrder(names: seq<seq<char>>): (r: seq<nat>)
    ensures |r| == |names|
    ensures InRange(names, r) && Sorted(names, r)
    ensures multiset(r) == multiset(Identity(|names|))
  {
    var r := SortIndexes(names, Identity(|names|));
    MultisetLength(r, Identity(|names|));
    r
  }

  lemma MultisetLength(a: seq<nat>, b: seq<nat>)
    requires multiset(a) == multiset(b)
    ensures |a| == |b|
  {
    assert |multiset(a)| == |a| && |multiset(b)| == |b|;
  }

  /** Every index 0 .. n-1 appears in the parse order. */
  lemma ParseOrderIsPermutation(names: seq<seq<char>>, i: nat)
    requires i < |names|
    ensures i in MakeParseOrder(names)
  {
    var r := MakeParseOrder(names);
    assert Identity(|names|)[i] == i;
    assert i in multiset(Identity(|names|));
    assert i in multiset(r);
  }

  /** A name that extends another name is tried before it. */
  lemma LongerNameFirst(names: seq<seq<char>>, a: nat, b: nat, i: nat, j: nat)
    requires a < |names| && b < |names|
    requires |names[a]| < |names[b]| && names[b][..|names[a]|] == names[a]
    requires i < |names| && j < |names|
    requires MakeParseOrder(names)[i] == b && MakeParseOrder(names)[j] == a
    ensures i < j
  {
    PrefixIsLess(names[a], names[b]);
    StrLessAsymmetric(names[a], names[b]);
  }

  lemma SortedHeadsEqual(names: seq<seq<char>>, r1: seq<nat>, r2: seq<nat>)
    requires InRange(names, r1) && InRange(names, r2)
    requires Sorted(names, r1) && Sorted(names, r2)
    requires multiset(r1) == multiset(r2) && |r1| > 0
    ensures |r2| > 0 && r1[0] == r2[0]
  {
    assert r1[0] in multiset(r2);
    var k :| 0 <= k < |r2| && r2[k] == r1[0];
    assert r2[0] in multiset(r1);
    var m :| 0 <= m < |r1| && r1[m] == r2[0];
    if r1[0] != r2[0] {
      assert Before(names, r2[0], r2[k]);
      assert Before(names, r1[0], r1[m]);
      BeforeTotal(names, r1[0], r2[0]);
      assert false;
    }
  }

  lemma TailMultiset(r1: seq<nat>, r2: seq<nat>)
    requires |r1| > 0 && |r2| > 0 && r1[0] == r2[0] && multiset(r1) == multiset(r2)
    ensures multiset(r1[1..]) == multiset(r2[1..])
  {
    assert r1 == [r1[0]] + r1[1..] && r2 == [r2[0]] + r2[1..];
    assert multiset(r1[1..]) == multiset(r1) - multiset{r1[0]};
    assert multiset(r2[1..]) == multiset(r2) - multiset{r2[0]};
  }

  /** The sorted order is unique: any arrangement of the same indexes that
      respects `Before` is the one computed, whatever sort produced it. */
  lemma {:induction false} SortedUnique(names: seq<seq<char>>, r1: seq<nat>, r2: seq<nat>)
    requires InRange(names, r1) && InRange(names, r2)
    requires Sorted(names, r1) && Sorted(names, r2)
    requires multiset(r1) == multiset(r2)
    ensures r1 == r2
    decreases |r1|
  {
    MultisetLength(r1, r2);
    if |r1| > 0 {
      SortedHeadsEqual(names, r1, r2);
      TailMultiset(r1, r2);
      SortedUnique(names, r1[1..], r2[1..]);
      assert r1 == [r1[0]] + r1[1..] && r2 == [r2[0]] + r2[1..];
    }
  }

  /** Whatever sorting algorithm the C library uses, the parse order is the
      one computed here. */
  lemma ParseOrderDeterminate(names: seq<seq<char>>, r: seq<nat>)
    requires InRange(names, r) && Sorted(names, r)
    requires multiset(r) == multiset(Identity(|names|))
    ensures r == MakeParseOrder(names)
  {
    SortedUnique(names, r, MakeParseOrder(names));
  }

  /** The calendar names of a locale, as the LDML file gave them.  The
      array sizes `CAL_MONTH_COUNT`, `CAL_DAY_COUNT` and `CAL_AM_PM_COUNT`
      are defined in a header that is not part of this model; here they are
      the lengths of the lists. */
  datatype Calendar = Calendar(
    monthNamesAbbr: seq<seq<char>>, monthNamesWide: seq<seq<char>>,
    dayNamesAbbr: seq<seq<char>>, dayNamesWide: seq<seq<char>>,
    amPm: seq<seq<char>>)
  {
    /** Abbreviated and wide names come in the same number. */
    predicate WellSized(monthCount: nat, dayCount: nat, amPmCount: nat) {
      |monthNamesAbbr| == monthCount && |monthNamesWide| == monthCount
      && |dayNamesAbbr| == dayCount && |dayNamesWide| == dayCount
      && |amPm| == amPmCount
    }
  }

  datatype ParseOrders = ParseOrders(
    monthAbbr: seq<nat>, monthWide: seq<nat>, dayAbbr: seq<nat>, dayWide: seq<nat>, amPm: seq<nat>)

  /** `locale_make_calendar_parse_order`: one parse order per name list. */
  function MakeCalendarParseOrder(cal: Calendar, monthCount: nat, dayCount: nat, amPmCount: nat): (po: ParseOrders)
    requires cal.WellSized(monthCount, dayCount, amPmCount)
    ensures |po.monthAbbr| == monthCount && |po.monthWide| == monthCount
    ensures |po.dayAbbr| == dayCount && |po.dayWide| == dayCount && |po.amPm| == amPmCount
    ensures InRange(cal.monthNamesAbbr, po.monthAbbr) && Sorted(cal.monthNamesAbbr, po.monthAbbr)
    ensures InRange(cal.monthNamesWide, po.monthWide) && Sorted(cal.monthNamesWide, po.monthWide)
    ensures InRange(cal.dayNamesAbbr, po.dayAbbr) && Sorted(cal.dayNamesAbbr, po.dayAbbr)
    ensures InRange(cal.dayNamesWide, po.dayWide) && Sorted(cal.dayNamesWide, po.dayWide)
    ensures InRange(cal.amPm, po.amPm) && Sorted(cal.amPm, po.amPm)
    ensures multiset(po.monthAbbr) == multiset(Identity(monthCount))
    ensures multiset(po.monthWide) == multiset(Identity(monthCount))
    ensures multiset(po.dayAbbr) == multiset(Identity(dayCount))
    ensures multiset(po.dayWide) == multiset(Identity(dayCount))
    ensures multiset(po.amPm) == multiset(Identity(amPmCount))
  {
    ParseOrders(
      MakeParseOrder(cal.monthNamesAbbr), MakeParseOrder(cal.monthNamesWide),
      MakeParseOrder(cal.dayNamesAbbr), MakeParseOrder(cal.dayNamesWide),
      MakeParseOrder(cal.amPm))
  }
}
