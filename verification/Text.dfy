/**
 String helpers the Auth App takes from Go's `strings` and `sort` packages, over sequences of
 characters, together with the generic table helpers (filter, first match, stable insertion sort)
 that the registries and the reconciler share.

 Case folding and white space are the ASCII ones.
 */
module Text {

  datatype Option<+T> = None | Some(value: T)

  // ---------------------------------------------------------------- affixes

  predicate HasPrefix(s: string, p: string) {
    |p| <= |s| && s[..|p|] == p
  }

  predicate HasSuffix(s: string, t: string) {
    |t| <= |s| && s[|s| - |t|..] == t
  }

  predicate Contains(s: string, part: string) {
    exists i :: 0 <= i <= |s| && HasPrefix(s[i..], part)
  }

  function TrimPrefix(s: string, p: string): string {
    if HasPrefix(s, p) then s[|p|..] else s
  }

  function TrimSuffix(s: string, t: string): string {
    if HasSuffix(s, t) then s[..|s| - |t|] else s
  }

  // ---------------------------------------------------------------- case and space

  predicate IsSpace(c: char) {
    c == ' ' || ('\t' <= c <= '\r')
  }

  function TrimLeft(s: string, drop: char -> bool): string {
    if s != "" && drop(s[0]) then TrimLeft(s[1..], drop) else s
  }

  function TrimRight(s: string, drop: char -> bool): string {
    if s != "" && drop(s[|s| - 1]) then TrimRight(s[..|s| - 1], drop) else s
  }

  function TrimSpace(s: string): string {
    TrimRight(TrimLeft(s, IsSpace), IsSpace)
  }

  function LowerChar(c: char): char {
    if 'A' <= c <= 'Z' then (c as int + 32) as char else c
  }

  function Lower(s: string): (r: string)
    ensures |r| == |s|
    ensures forall i :: 0 <= i < |s| ==> r[i] == LowerChar(s[i])
  {
    seq(|s|, i requires 0 <= i < |s| => LowerChar(s[i]))
  }

  /** Trimming neither end is a no-op when neither end is white space. */
  lemma TrimSpaceFixed(s: string)
    requires s == "" || (!IsSpace(s[0]) && !IsSpace(s[|s| - 1]))
    ensures TrimSpace(s) == s
  {}

  lemma {:induction false} TrimLeftEnds(s: string, drop: char -> bool)
    ensures var r := TrimLeft(s, drop);
            && |r| <= |s| && r == s[|s| - |r|..]
            && (r == "" || !drop(r[0]))
  {
    if s != "" && drop(s[0]) {
      TrimLeftEnds(s[1..], drop);
    }
  }

  lemma {:induction false} TrimRightEnds(s: string, drop: char -> bool)
    ensures var r := TrimRight(s, drop);
            && |r| <= |s| && r == s[..|r|]
            && (r == "" || !drop(r[|r| - 1]))
  {
    if s != "" && drop(s[|s| - 1]) {
      TrimRightEnds(s[..|s| - 1], drop);
    }
  }

  ghost predicate AllDropped(s: string, drop: char -> bool) {
    forall i :: 0 <= i < |s| ==> drop(s[i])
  }

  lemma {:induction false} TrimLeftOf(l: string, m: string, drop: char -> bool)
    requires AllDropped(l, drop) && (m == "" || !drop(m[0]))
    ensures TrimLeft(l + m, drop) == m
  {
    if l == "" {
      assert l + m == m;
    } else {
      assert (l + m)[1..] == l[1..] + m;
      TrimLeftOf(l[1..], m, drop);
    }
  }

  lemma {:induction false} TrimRightOf(m: string, r: string, drop: char -> bool)
    requires AllDropped(r, drop) && (m == "" || !drop(m[|m| - 1]))
    ensures TrimRight(m + r, drop) == m
  {
    if r == "" {
      assert m + r == m;
    } else {
      assert (m + r)[..|m + r| - 1] == m + r[..|r| - 1];
      TrimRightOf(m, r[..|r| - 1], drop);
    }
  }

  /** Trimming both ends leaves what stands between them. */
  lemma TrimBoth(l: string, m: string, r: string, drop: char -> bool)
    requires AllDropped(l, drop) && AllDropped(r, drop) && m != "" && !drop(m[0]) && !drop(m[|m| - 1])
    ensures TrimRight(TrimLeft(l + m + r, drop), drop) == m
  {
    assert l + m + r == l + (m + r);
    TrimLeftOf(l, m + r, drop);
    TrimRightOf(m, r, drop);
  }

  // ---------------------------------------------------------------- string order

  /** Byte-wise lexicographic order, the order of Go's `<=` on strings and of `ORDER BY`. */
  predicate LessEq(a: string, b: string) {
    a == "" || (b != "" && (a[0] < b[0] || (a[0] == b[0] && LessEq(a[1..], b[1..]))))
  }

  predicate Less(a: string, b: string) {
    LessEq(a, b) && a != b
  }

  lemma {:induction false} LessEqTotal(a: string, b: string)
    ensures LessEq(a, b) || LessEq(b, a)
  {
    if a != "" && b != "" && a[0] == b[0] {
      LessEqTotal(a[1..], b[1..]);
    }
  }

  lemma {:induction false} LessEqAntisymmetric(a: string, b: string)
    requires LessEq(a, b) && LessEq(b, a)
    ensures a == b
  {
    if a != "" {
      LessEqAntisymmetric(a[1..], b[1..]);
      assert a == [a[0]] + a[1..] && b == [b[0]] + b[1..];
    }
  }

  lemma {:induction false} LessEqTransitive(a: string, b: string, c: string)
    requires LessEq(a, b) && LessEq(b, c)
    ensures LessEq(a, c)
  {
    if a != "" && a[0] == b[0] && b[0] == c[0] {
      LessEqTransitive(a[1..], b[1..], c[1..]);
    }
  }

  lemma LessTransitive(a: string, b: string, c: string)
    requires Less(a, b) && LessEq(b, c)
    ensures Less(a, c)
  {
    LessEqTransitive(a, b, c);
    if a == c {
      LessEqAntisymmetric(a, b);
    }
  }

  /** The first difference decides: the smaller character comes first, whatever follows. */
  lemma {:induction false} LessAtFirstDifference(front: string, c: char, a: string, d: char, b: string)
    requires c < d
    ensures LessEq(front + [c] + a, front + [d] + b) && !LessEq(front + [d] + b, front + [c] + a)
  {
    var x, y := front + [c] + a, front + [d] + b;
    if front == "" {
      assert x[0] == c && y[0] == d;
    } else {
      assert x[1..] == front[1..] + [c] + a && y[1..] == front[1..] + [d] + b;
      LessAtFirstDifference(front[1..], c, a, d, b);
    }
  }

  // ---------------------------------------------------------------- splitting

  /** Go's `strings.Split` for a one-character separator. */
  function Split(s: string, sep: char): (parts: seq<string>)
    ensures |parts| >= 1
  {
    if s == "" then [""]
    else if s[0] == sep then [""] + Split(s[1..], sep)
    else
      var rest := Split(s[1..], sep);
      [[s[0]] + rest[0]] + rest[1..]
  }

  /** Go's `strings.Join` for a one-character separator. */
  function Join(parts: seq<string>, sep: char): string {
    if |parts| == 0 then ""
    else if |parts| == 1 then parts[0]
    else parts[0] + [sep] + Join(parts[1..], sep)
  }

  /** A part without the separator stays whole. */
  lemma {:induction false} SplitPart(part: string, sep: char)
    requires sep !in part
    ensures Split(part, sep) == [part]
  {
    if part != "" {
      assert sep !in part[1..];
      SplitPart(part[1..], sep);
      assert part == [part[0]] + part[1..];
    }
  }

  /** The first part ends at the first separator. */
  lemma {:induction false} SplitFirst(part: string, rest: string, sep: char)
    requires sep !in part
    ensures Split(part + [sep] + rest, sep) == [part] + Split(rest, sep)
  {
    var s := part + [sep] + rest;
    if part == "" {
      assert s[1..] == rest;
    } else {
      assert s[1..] == part[1..] + [sep] + rest;
      SplitFirst(part[1..], rest, sep);
      assert part == [part[0]] + part[1..];
    }
  }

  /** The first part is what stands before the first separator. */
  lemma {:induction false} SplitHead(s: string, sep: char) returns (rest: string)
    ensures sep !in Split(s, sep)[0]
    ensures if sep in s then s == Split(s, sep)[0] + [sep] + rest && Split(s, sep) == [Split(s, sep)[0]] + Split(rest, sep)
            else Split(s, sep) == [s]
  {
    rest := "";
    if sep in s {
      var part, tail := FirstSeparator(s, sep);
      SplitFirst(part, tail, sep);
      rest := tail;
    } else {
      SplitPart(s, sep);
    }
  }

  lemma {:induction false} FirstSeparator(s: string, sep: char) returns (part: string, tail: string)
    requires sep in s
    ensures sep !in part && s == part + [sep] + tail
  {
    if s[0] == sep {
      part, tail := "", s[1..];
      assert s == "" + [sep] + s[1..];
    } else {
      part, tail := FirstSeparator(s[1..], sep);
      part := [s[0]] + part;
      assert s == [s[0]] + s[1..];
    }
  }

  // ---------------------------------------------------------------- lists of rows

  function Filter<T(!new)>(s: seq<T>, keep: T -> bool): (r: seq<T>)
    ensures forall x :: x in r <==> x in s && keep(x)
    ensures |r| <= |s|
  {
    if s == [] then []
    else if keep(s[0]) then [s[0]] + Filter(s[1..], keep)
    else Filter(s[1..], keep)
  }

  /** The first row satisfying `hit`, the result of a scan that returns on its first match. */
  function First<T>(s: seq<T>, hit: T -> bool): (r: Option<T>)
    ensures r.Some? ==> r.value in s && hit(r.value)
    ensures r.None? <==> forall x :: x in s ==> !hit(x)
  {
    if s == [] then None
    else if hit(s[0]) then Some(s[0])
    else First(s[1..], hit)
  }

  /** Extending a scanned prefix by one row: the step of every scan loop. */
  lemma {:induction false} FirstSnoc<T>(s: seq<T>, x: T, hit: T -> bool)
    ensures First(s + [x], hit) ==
            if First(s, hit).Some? then First(s, hit) else if hit(x) then Some(x) else None
  {
    if s != [] {
      assert (s + [x])[1..] == s[1..] + [x];
      FirstSnoc(s[1..], x, hit);
    }
  }

  /** A scan that saw no hit before position `i` and hits there returns that row. */
  lemma FirstAt<T>(s: seq<T>, i: nat, hit: T -> bool)
    requires i < |s| && First(s[..i], hit).None?
    ensures hit(s[i]) ==> First(s, hit) == Some(s[i])
    ensures !hit(s[i]) ==> First(s[..i + 1], hit).None?
  {
    FirstSnoc(s[..i], s[i], hit);
    assert s[..i + 1] == s[..i] + [s[i]];
    if hit(s[i]) {
      FirstOfPrefix(s, i + 1, hit);
    }
  }

  lemma {:induction false} FirstOfPrefix<T>(s: seq<T>, n: nat, hit: T -> bool)
    requires n <= |s| && First(s[..n], hit).Some?
    ensures First(s, hit) == First(s[..n], hit)
    decreases n
  {
    if !hit(s[0]) {
      assert s[..n][1..] == s[1..][..n - 1];
      FirstOfPrefix(s[1..], n - 1, hit);
    }
  }

  lemma {:induction false} FilterSnoc<T(!new)>(s: seq<T>, x: T, keep: T -> bool)
    ensures Filter(s + [x], keep) == Filter(s, keep) + if keep(x) then [x] else []
  {
    if s != [] {
      assert (s + [x])[1..] == s[1..] + [x];
      FilterSnoc(s[1..], x, keep);
    }
  }

  lemma {:induction false} FilterAppend<T(!new)>(a: seq<T>, b: seq<T>, keep: T -> bool)
    ensures Filter(a + b, keep) == Filter(a, keep) + Filter(b, keep)
  {
    if a == [] {
      assert a + b == b;
    } else {
      assert (a + b)[1..] == a[1..] + b;
      FilterAppend(a[1..], b, keep);
    }
  }

  /** Extending a filtered prefix by one row: the step of every filter loop. */
  lemma FilterAt<T(!new)>(s: seq<T>, i: nat, keep: T -> bool)
    requires i < |s|
    ensures Filter(s[..i + 1], keep) == Filter(s[..i], keep) + if keep(s[i]) then [s[i]] else []
  {
    assert s[..i + 1] == s[..i] + [s[i]];
    FilterSnoc(s[..i], s[i], keep);
  }

  lemma {:induction false} FilterAll<T(!new)>(s: seq<T>, keep: T -> bool)
    requires forall x :: x in s ==> keep(x)
    ensures Filter(s, keep) == s
  {
    if s != [] {
      FilterAll(s[1..], keep);
    }
  }

  // ---------------------------------------------------------------- tables keyed by a string

  /** Rows listed in strictly increasing key order: `ORDER BY key` over a primary key. */
  ghost predicate KeyOrdered<T>(rows: seq<T>, key: T -> string) {
    forall i, j :: 0 <= i < j < |rows| ==> Less(key(rows[i]), key(rows[j]))
  }

  /** `INSERT` of a row whose key is absent, seen through `ORDER BY key`. */
  function Insert<T(!new)>(rows: seq<T>, row: T, key: T -> string): (r: seq<T>)
    ensures forall x :: x in r <==> x in rows || x == row
    ensures |r| == |rows| + 1
  {
    if rows == [] then [row]
    else if LessEq(key(row), key(rows[0])) then [row] + rows
    else [rows[0]] + Insert(rows[1..], row, key)
  }

  lemma KeyOrderedHead<T>(x: T, rest: seq<T>, key: T -> string)
    requires KeyOrdered(rest, key)
    requires forall y :: y in rest ==> Less(key(x), key(y))
    ensures KeyOrdered([x] + rest, key)
  {}

  lemma {:induction false} InsertOrdered<T(!new)>(rows: seq<T>, row: T, key: T -> string)
    requires KeyOrdered(rows, key)
    requires forall x :: x in rows ==> key(x) != key(row)
    ensures KeyOrdered(Insert(rows, row, key), key)
  {
    if rows != [] {
      if LessEq(key(row), key(rows[0])) {
        forall y | y in rows ensures Less(key(row), key(y)) {
          if y != rows[0] {
            LessTransitive(key(row), key(rows[0]), key(y));
          }
        }
        KeyOrderedHead(row, rows, key);
      } else {
        LessEqTotal(key(row), key(rows[0]));
        InsertOrdered(rows[1..], row, key);
        KeyOrderedHead(rows[0], Insert(rows[1..], row, key), key);
      }
    }
  }

  lemma {:induction false} FilterOrdered<T(!new)>(rows: seq<T>, keep: T -> bool, key: T -> string)
    requires KeyOrdered(rows, key)
    ensures KeyOrdered(Filter(rows, keep), key)
  {
    if rows != [] {
      FilterOrdered(rows[1..], keep, key);
      if keep(rows[0]) {
        KeyOrderedHead(rows[0], Filter(rows[1..], keep), key);
      }
    }
  }

  /** Deleting a row that stands between `before` and `after` closes the gap. */
  lemma {:induction false} DeleteRow<T(!new)>(before: seq<T>, row: T, after: seq<T>, keep: T -> bool)
    requires !keep(row)
    requires forall x :: x in before || x in after ==> keep(x)
    ensures Filter(before + [row] + after, keep) == before + after
  {
    if before == [] {
      assert before + [row] + after == [row] + after;
      FilterAll(after, keep);
    } else {
      assert (before + [row] + after)[1..] == before[1..] + [row] + after;
      DeleteRow(before[1..], row, after, keep);
    }
  }

  /** No other row of a table has the key of row `i`. */
  lemma OtherKeys<T>(rows: seq<T>, i: nat, key: T -> string)
    requires KeyOrdered(rows, key) && i < |rows|
    ensures forall x :: x in rows[..i] || x in rows[i + 1..] ==> key(x) != key(rows[i])
  {
    forall x | x in rows[..i] || x in rows[i + 1..] ensures key(x) != key(rows[i]) {
      if x in rows[..i] {
        var j :| 0 <= j < i && rows[j] == x;
        assert Less(key(rows[j]), key(rows[i]));
      } else {
        var j :| 0 <= j < |rows| - i - 1 && rows[i + 1..][j] == x;
        assert Less(key(rows[i]), key(rows[i + 1 + j]));
      }
    }
  }

  lemma KeyUnique<T>(rows: seq<T>, key: T -> string, x: T, y: T)
    requires KeyOrdered(rows, key) && x in rows && y in rows && key(x) == key(y)
    ensures x == y
  {
    var i :| 0 <= i < |rows| && rows[i] == x;
    var j :| 0 <= j < |rows| && rows[j] == y;
  }

  /** Two key-ordered listings of the same rows are the same listing. */
  lemma {:induction false} OrderedListingUnique<T>(a: seq<T>, b: seq<T>, key: T -> string)
    requires KeyOrdered(a, key) && KeyOrdered(b, key)
    requires forall x :: x in a <==> x in b
    ensures a == b
  {
    if a == [] {
      HasMember(b);
    } else if b == [] {
      HasMember(a);
    } else {
      HeadLeast(a, b, key);
      HeadLeast(b, a, key);
      LessEqAntisymmetric(key(a[0]), key(b[0]));
      KeyUnique(a, key, a[0], b[0]);
      forall x ensures x in a[1..] <==> x in b[1..] {
        TailMember(a, key, x);
        TailMember(b, key, x);
      }
      OrderedListingUnique(a[1..], b[1..], key);
    }
  }

  lemma HasMember<T>(s: seq<T>)
    ensures s != [] ==> exists x :: x in s
  {
    if s != [] {
      assert s[0] in s;
    }
  }

  lemma HeadLeast<T>(a: seq<T>, b: seq<T>, key: T -> string)
    requires KeyOrdered(a, key) && a != [] && b != []
    requires forall x :: x in b ==> x in a
    ensures LessEq(key(a[0]), key(b[0]))
  {
    assert b[0] in a;
    var i :| 0 <= i < |a| && a[i] == b[0];
    if i == 0 {
      LessEqTotal(key(a[0]), key(a[0]));
    }
  }

  lemma TailMember<T>(a: seq<T>, key: T -> string, x: T)
    requires KeyOrdered(a, key) && a != []
    ensures x in a[1..] <==> x in a && x != a[0]
  {
    if x in a[1..] {
      var i :| 0 <= i < |a[1..]| && a[1..][i] == x;
      assert Less(key(a[0]), key(a[i + 1]));
    }
  }

  // ---------------------------------------------------------------- stable insertion sort

  ghost predicate TotalPreorder<T(!new)>(leq: (T, T) -> bool) {
    && (forall x, y :: leq(x, y) || leq(y, x))
    && (forall x, y, z :: leq(x, y) && leq(y, z) ==> leq(x, z))
  }

  ghost predicate SortedBy<T>(s: seq<T>, leq: (T, T) -> bool) {
    forall i, j :: 0 <= i < j < |s| ==> leq(s[i], s[j])
  }

  /** Puts `x` behind every leading element that may stay before it. */
  function InsertSorted<T>(s: seq<T>, x: T, leq: (T, T) -> bool): (r: seq<T>)
    ensures multiset(r) == multiset(s) + multiset{x}
    ensures |r| == |s| + 1
  {
    if s != [] && leq(s[0], x) then
      assert s == [s[0]] + s[1..];
      [s[0]] + InsertSorted(s[1..], x, leq)
    else [x] + s
  }

  /** `sort.SliceStable`: equal elements keep their order. */
  function StableSort<T>(s: seq<T>, leq: (T, T) -> bool): (r: seq<T>)
    ensures multiset(r) == multiset(s)
    ensures |r| == |s|
  {
    if s == [] then []
    else
      assert s == s[..|s| - 1] + [s[|s| - 1]];
      InsertSorted(StableSort(s[..|s| - 1], leq), s[|s| - 1], leq)
  }

  lemma SortMembers<T>(s: seq<T>, leq: (T, T) -> bool)
    ensures forall x :: x in StableSort(s, leq) <==> x in s
  {
    forall x ensures x in StableSort(s, leq) <==> x in s {
      assert x in multiset(StableSort(s, leq)) <==> x in multiset(s);
    }
  }

  lemma {:induction false} InsertSortedMembers<T>(s: seq<T>, x: T, leq: (T, T) -> bool)
    ensures forall y :: y in InsertSorted(s, x, leq) <==> y in s || y == x
  {
    if s != [] && leq(s[0], x) {
      InsertSortedMembers(s[1..], x, leq);
    }
  }

  lemma {:induction false} InsertSortedSorted<T(!new)>(s: seq<T>, x: T, leq: (T, T) -> bool)
    requires TotalPreorder(leq) && SortedBy(s, leq)
    ensures SortedBy(InsertSorted(s, x, leq), leq)
  {
    if s != [] && leq(s[0], x) {
      InsertSortedSorted(s[1..], x, leq);
      InsertSortedMembers(s[1..], x, leq);
      var r := InsertSorted(s[1..], x, leq);
      forall j | 0 <= j < |r| ensures leq(s[0], r[j]) {
        assert r[j] in r;
      }
    } else {
      forall j | 0 <= j < |s| ensures leq(x, s[j]) {
        if j > 0 { assert leq(s[0], s[j]); }
      }
    }
  }

  lemma {:induction false} StableSortSorted<T(!new)>(s: seq<T>, leq: (T, T) -> bool)
    requires TotalPreorder(leq)
    ensures SortedBy(StableSort(s, leq), leq)
  {
    if s != [] {
      StableSortSorted(s[..|s| - 1], leq);
      InsertSortedSorted(StableSort(s[..|s| - 1], leq), s[|s| - 1], leq);
    }
  }

  // ---------------------------------------------------------------- sorting rows by key

  ghost predicate DistinctKeys<T>(rows: seq<T>, key: T -> string) {
    forall i, j :: 0 <= i < j < |rows| ==> key(rows[i]) != key(rows[j])
  }

  ghost predicate ComparesKeys<T(!new)>(leq: (T, T) -> bool, key: T -> string) {
    forall x, y :: leq(x, y) <==> LessEq(key(x), key(y))
  }

  lemma KeyPreorder<T(!new)>(leq: (T, T) -> bool, key: T -> string)
    requires ComparesKeys(leq, key)
    ensures TotalPreorder(leq)
  {
    forall x, y ensures leq(x, y) || leq(y, x) {
      LessEqTotal(key(x), key(y));
    }
    forall x, y, z | leq(x, y) && leq(y, z) ensures leq(x, z) {
      LessEqTransitive(key(x), key(y), key(z));
    }
  }

  lemma {:induction false} DistinctCounts<T(!new)>(rows: seq<T>, key: T -> string)
    requires DistinctKeys(rows, key)
    ensures forall a, b :: a in rows && b in rows && key(a) == key(b) ==> a == b
    ensures forall x :: multiset(rows)[x] <= 1
  {
    if rows != [] {
      var rest := rows[1..];
      assert forall i :: 0 <= i < |rest| ==> rest[i] == rows[i + 1];
      DistinctCounts(rest, key);
      assert rows == [rows[0]] + rest;
      assert forall x :: x in rest ==> key(x) != key(rows[0]);
      assert rows[0] !in multiset(rest);
    }
  }

  lemma ApartInSorted<T(!new)>(rows: seq<T>, sorted: seq<T>, key: T -> string, i: nat, j: nat)
    requires DistinctKeys(rows, key) && multiset(sorted) == multiset(rows) && i < j < |sorted|
    ensures key(sorted[i]) != key(sorted[j])
  {
    DistinctCounts(rows, key);
    assert sorted == sorted[..j] + sorted[j..];
    assert sorted[i] == sorted[..j][i] && sorted[j] == sorted[j..][0];
    assert multiset(sorted) == multiset(sorted[..j]) + multiset(sorted[j..]);
    assert sorted[i] in multiset(rows) && sorted[j] in multiset(rows);
  }

  /** Sorting rows of distinct keys lists them in strict key order, each once. */
  lemma SortKeyOrdered<T(!new)>(rows: seq<T>, leq: (T, T) -> bool, key: T -> string)
    requires DistinctKeys(rows, key) && ComparesKeys(leq, key)
    ensures KeyOrdered(StableSort(rows, leq), key)
    ensures forall x :: x in StableSort(rows, leq) <==> x in rows
  {
    var sorted := StableSort(rows, leq);
    KeyPreorder(leq, key);
    StableSortSorted(rows, leq);
    SortMembers(rows, leq);
    forall i, j | 0 <= i < j < |sorted| ensures Less(key(sorted[i]), key(sorted[j])) {
      assert leq(sorted[i], sorted[j]);
      ApartInSorted(rows, sorted, key, i, j);
    }
  }

  // ---------------------------------------------------------------- lists with no repeated element

  ghost predicate NoRepeats<T>(s: seq<T>) {
    forall i, j :: 0 <= i < j < |s| ==> s[i] != s[j]
  }

  lemma {:induction false} NoRepeatsCard<T>(s: seq<T>)
    requires NoRepeats(s)
    ensures |set x | x in s| == |s|
  {
    if s == [] {
      assert (set x | x in s) == {};
    } else {
      var rest := s[1..];
      assert NoRepeats(rest) by {
        forall i, j | 0 <= i < j < |rest| ensures rest[i] != rest[j] {
          assert s[i + 1] != s[j + 1];
        }
      }
      NoRepeatsCard(rest);
      assert forall j :: 0 <= j < |rest| ==> rest[j] == s[j + 1] != s[0];
      assert (set x | x in s) == (set x | x in rest) + {s[0]};
    }
  }
}
