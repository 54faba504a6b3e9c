/** The in-place insertion sort of a machine's hostname views. */
module HostnameViews {
  import opened Text

  datatype HostnameView = HostnameView(hostname: string, zone: string, createdAt: int)

  function ViewLeq(a: HostnameView, b: HostnameView): bool { LessEq(a.hostname, b.hostname) }

  function ViewKey(v: HostnameView): string { v.hostname }

  /** Go's `<` on strings is the negation of `>=`. */
  lemma NotLess(a: string, b: string)
    ensures Less(a, b) <==> !LessEq(b, a)
  {
    LessEqTotal(a, b);
    if LessEq(a, b) && LessEq(b, a) {
      LessEqAntisymmetric(a, b);
    }
  }

  /** `x` inserted at position `j`. */
  function Placed(p: seq<HostnameView>, x: HostnameView, j: nat): seq<HostnameView>
    requires j <= |p|
  {
    p[..j] + [x] + p[j..]
  }

  lemma PlacedIs(p: seq<HostnameView>, x: HostnameView, j: nat, r: seq<HostnameView>)
    requires j <= |p| && |r| == |p| + 1 && r[j] == x
    requires forall k :: 0 <= k < j ==> r[k] == p[k]
    requires forall k :: j < k < |r| ==> r[k] == p[k - 1]
    ensures r == Placed(p, x, j)
  {}

  /** Inserting behind everything not later, given where that is. */
  lemma {:induction false} InsertAt<T>(p: seq<T>, x: T, j: nat, leq: (T, T) -> bool)
    requires j <= |p|
    requires forall k :: 0 <= k < j ==> leq(p[k], x)
    requires j < |p| ==> !leq(p[j], x)
    ensures InsertSorted(p, x, leq) == p[..j] + [x] + p[j..]
    decreases |p|
  {
    if j > 0 {
      InsertAt(p[1..], x, j - 1, leq);
      InsertAtTail(p, x, j);
    } else {
      assert p[..0] + [x] + p[0..] == [x] + p;
    }
  }

  lemma InsertAtTail<T>(p: seq<T>, x: T, j: nat)
    requires 0 < j <= |p|
    ensures p[..j] + [x] + p[j..] == [p[0]] + (p[1..][..j - 1] + [x] + p[1..][j - 1..])
  {}

  /** Where the sinking element comes to rest is where the stable insert puts it. */
  lemma RestsWhereInserted(p: seq<HostnameView>, x: HostnameView, j: nat)
    requires j <= |p| && SortedBy(p, ViewLeq)
    requires j > 0 ==> !Less(x.hostname, p[j - 1].hostname)
    requires j < |p| ==> Less(x.hostname, p[j].hostname)
    ensures Placed(p, x, j) == InsertSorted(p, x, ViewLeq)
  {
    forall k | 0 <= k < j ensures ViewLeq(p[k], x) {
      NotLess(x.hostname, p[j - 1].hostname);
      if k < j - 1 {
        assert ViewLeq(p[k], p[j - 1]);
        LessEqTransitive(p[k].hostname, p[j - 1].hostname, x.hostname);
      }
    }
    if j < |p| {
      NotLess(x.hostname, p[j].hostname);
    }
    InsertAt(p, x, j, ViewLeq);
  }

  lemma SortSnoc(s: seq<HostnameView>, i: nat)
    requires i < |s|
    ensures StableSort(s[..i + 1], ViewLeq) == InsertSorted(StableSort(s[..i], ViewLeq), s[i], ViewLeq)
    ensures SortedBy(StableSort(s[..i], ViewLeq), ViewLeq)
  {
    assert s[..i + 1][..i] == s[..i];
    KeyPreorder(ViewLeq, ViewKey);
    StableSortSorted(s[..i], ViewLeq);
  }

  /** The first `i` views, sorted. */
  ghost function SortedTo(s: seq<HostnameView>, i: nat): (r: seq<HostnameView>)
    requires i <= |s|
    ensures |r| == i
  {
    if i == 0 then [] else InsertSorted(SortedTo(s, i - 1), s[i - 1], ViewLeq)
  }

  lemma {:induction false} SortedToIs(s: seq<HostnameView>, i: nat)
    requires i <= |s|
    ensures SortedTo(s, i) == StableSort(s[..i], ViewLeq)
  {
    if i > 0 {
      SortedToIs(s, i - 1);
      SortSnoc(s, i - 1);
    }
  }

  /** One turn of the outer loop. */
  lemma NextSorted(s: seq<HostnameView>, i: nat, p: seq<HostnameView>, j: nat)
    requires i < |s| && p == SortedTo(s, i) && j <= |p|
    requires j > 0 ==> !Less(s[i].hostname, p[j - 1].hostname)
    requires j < |p| ==> Less(s[i].hostname, p[j].hostname)
    ensures Placed(p, s[i], j) == SortedTo(s, i + 1)
  {
    SortedToIs(s, i);
    SortSnoc(s, i);
    RestsWhereInserted(p, s[i], j);
  }

  /** `sortMachineHostnameViews`: the stable sort by hostname, in place. */
  method SortViews(views: array<HostnameView>)
    modifies views
    ensures views[..] == StableSort(old(views[..]), ViewLeq)
    ensures multiset(views[..]) == multiset(old(views[..]))
    ensures forall i, j :: 0 <= i < j < views.Length ==> LessEq(views[i].hostname, views[j].hostname)
  {
    ghost var s := views[..];
    for i := 0 to views.Length
      invariant views[..i] == SortedTo(s, i)
      invariant forall k :: i <= k < views.Length ==> views[k] == s[k]
    {
      Place(views, i, s);
    }
    SortedToIs(s, views.Length);
    assert views[..] == views[..views.Length] && s[..views.Length] == s;
    ViewsOrdered(s, views[..]);
  }

  lemma ViewsOrdered(s: seq<HostnameView>, sorted: seq<HostnameView>)
    requires sorted == StableSort(s, ViewLeq)
    ensures forall i, j :: 0 <= i < j < |sorted| ==> LessEq(sorted[i].hostname, sorted[j].hostname)
  {
    KeyPreorder(ViewLeq, ViewKey);
    StableSortSorted(s, ViewLeq);
  }

  /** One turn of the outer loop. */
  method Place(views: array<HostnameView>, i: nat, ghost s: seq<HostnameView>)
    requires i < views.Length == |s| && views[..i] == SortedTo(s, i)
    requires forall k :: i <= k < views.Length ==> views[k] == s[k]
    modifies views
    ensures views[..i + 1] == SortedTo(s, i + 1)
    ensures forall k :: i < k < views.Length ==> views[k] == s[k]
  {
    ghost var j := Lift(views, i, SortedTo(s, i));
    NextSorted(s, i, SortedTo(s, i), j);
  }

  /** The inner loop: the element at `i` sinks past every later hostname before it, and rests at `j`. */
  method Lift(views: array<HostnameView>, i: nat, ghost p: seq<HostnameView>) returns (ghost j: nat)
    requires i < views.Length && views[..i] == p
    modifies views
    ensures j <= i && views[..i + 1] == Placed(p, old(views[i]), j)
    ensures forall k :: i < k < views.Length ==> views[k] == old(views[k])
    ensures j > 0 ==> !Less(old(views[i]).hostname, p[j - 1].hostname)
    ensures j < i ==> Less(old(views[i]).hostname, p[j].hostname)
  {
    var at := i;
    while at > 0 && Less(views[at].hostname, views[at - 1].hostname)
      invariant 0 <= at <= i && views[at] == old(views[i])
      invariant forall k :: 0 <= k < at ==> views[k] == p[k]
      invariant forall k :: at < k <= i ==> views[k] == p[k - 1]
      invariant forall k :: i < k < views.Length ==> views[k] == old(views[k])
      invariant at < i ==> Less(old(views[i]).hostname, p[at].hostname)
    {
      views[at], views[at - 1] := views[at - 1], views[at];
      at := at - 1;
    }
    j := at;
    PlacedIs(p, old(views[i]), at, views[..i + 1]);
  }
}
