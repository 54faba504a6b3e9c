/**
 Key operations of the ACME storage over its table of keys, which is listed in key order.
 */
module AcmeStorage {
  import opened Text
  import opened StorageKeys

  function Self(key: string): string { key }

  function IsSlash(c: char): bool { c == '/' }

  /** `cleanStorageKey`. */
  function CleanKey(key: string): string {
    TrimRight(TrimLeft(TrimSpace(key), IsSlash), IsSlash)
  }

  function JoinKey(prefix: string, rest: string): string {
    if prefix == "" then rest else prefix + "/" + rest
  }

  // ---------------------------------------------------------------- selection

  /** The condition of `Exists` and `Delete`. */
  function AtOrBelow(key: string): string -> bool {
    (k: string) => k == key || Like(LikePrefix(key + "/"), k)
  }

  function NotAtOrBelow(key: string): string -> bool {
    (k: string) => !(k == key || Like(LikePrefix(key + "/"), k))
  }

  function Exists(keys: seq<string>, key: string): bool {
    CleanKey(key) != "" && First(keys, AtOrBelow(CleanKey(key))).Some?
  }

  function Deleted(keys: seq<string>, key: string): seq<string> {
    if CleanKey(key) == "" then keys else Filter(keys, NotAtOrBelow(CleanKey(key)))
  }

  /** The condition of `List`. */
  function Selected(prefix: string): string -> bool {
    (k: string) => Like(if prefix == "" then "%" else LikePrefix(prefix + "/"), k)
  }

  function Rest(prefix: string, key: string): string {
    if prefix == "" then key else TrimPrefix(key, prefix + "/")
  }

  // ---------------------------------------------------------------- listings

  /** The name a row contributes with its first `n` segments. */
  function Contribution(prefix: string, key: string, n: nat): string
    requires n <= |Split(Rest(prefix, key), '/')|
  {
    JoinKey(prefix, Join(Split(Rest(prefix, key), '/')[..n], '/'))
  }

  function Depth(prefix: string, recursive: bool, key: string): (n: nat)
    ensures 1 <= n <= |Split(Rest(prefix, key), '/')|
  {
    if recursive then |Split(Rest(prefix, key), '/')| else 1
  }

  ghost predicate Contributes(prefix: string, recursive: bool, key: string, x: string) {
    exists n :: 1 <= n <= Depth(prefix, recursive, key) && x == Contribution(prefix, key, n)
  }

  ghost predicate Listed(rows: seq<string>, prefix: string, recursive: bool, x: string) {
    exists key :: key in rows && Contributes(prefix, recursive, key, x)
  }

  datatype Listing = NotExist | Listing(keys: seq<string>)

  /** What `List` returns: the contributions of the selected rows, sorted, each once. */
  ghost predicate IsListing(keys: seq<string>, rawPrefix: string, recursive: bool, r: Listing) {
    var prefix := CleanKey(rawPrefix);
    var rows := Filter(keys, Selected(prefix));
    && (r.NotExist? <==> rows == [] && prefix != "" && !Exists(keys, prefix))
    && (r.Listing? ==>
          && KeyOrdered(r.keys, Self)
          && forall x :: x in r.keys <==> Listed(rows, prefix, recursive, x))
  }

  /** No key differs from the prefix in case only. */
  ghost predicate NoCaseClash(keys: seq<string>, prefix: string) {
    forall k :: k in keys && FoldedPrefix(k, prefix + "/") ==> HasPrefix(k, prefix + "/")
  }

  predicate Below(prefix: string, x: string) {
    prefix == "" || HasPrefix(x, prefix + "/")
  }

  /** The key tree: names below the prefix on the way to some key; only immediate children unless recursive. */
  ghost predicate InTree(keys: seq<string>, prefix: string, recursive: bool, x: string) {
    && Below(prefix, x)
    && (recursive || '/' !in Rest(prefix, x))
    && exists key :: key in keys && PathPrefix(key, x)
  }

  // ---------------------------------------------------------------- listings are the tree

  /** The first segment is the only path prefix without a separator. */
  lemma FirstSegment(rest: string, r: string)
    ensures r == Join(Split(rest, '/')[..1], '/') <==> PathPrefix(rest, r) && '/' !in r
  {
    assert Join(Split(rest, '/')[..1], '/') == Split(rest, '/')[0];
    if '/' !in rest {
      SplitPart(rest, '/');
      NoSlashNoDirectory(rest, r);
    } else {
      var part, tail := Separate(rest);
      SplitFirst(part, tail, '/');
      assert part + "/" + tail == part + ['/'] + tail;
      PathPrefixSplit(part, tail, r);
      assert HasPrefix(r, part + "/") ==> r[..|part| + 1][|part|] == '/';
    }
  }

  /** `r` is what a row contributes, without the prefix. */
  ghost predicate ContributesRest(prefix: string, recursive: bool, key: string, r: string) {
    exists n :: 1 <= n <= Depth(prefix, recursive, key) && r == Join(Split(Rest(prefix, key), '/')[..n], '/')
  }

  lemma ContributesMeans(prefix: string, recursive: bool, key: string, r: string)
    ensures ContributesRest(prefix, recursive, key, r) <==> PathPrefix(Rest(prefix, key), r) && (recursive || '/' !in r)
  {
    var rest := Rest(prefix, key);
    if recursive {
      LeadingIsPathPrefix(rest, r);
    } else {
      FirstSegment(rest, r);
    }
  }

  lemma ContributesBelow(prefix: string, recursive: bool, key: string, x: string)
    ensures Contributes(prefix, recursive, key, x) <==>
            Below(prefix, x) && ContributesRest(prefix, recursive, key, Rest(prefix, x))
  {
    if Contributes(prefix, recursive, key, x) {
      var n :| 1 <= n <= Depth(prefix, recursive, key) && x == Contribution(prefix, key, n);
      JoinKeyRest(prefix, Join(Split(Rest(prefix, key), '/')[..n], '/'));
    }
    if Below(prefix, x) && ContributesRest(prefix, recursive, key, Rest(prefix, x)) {
      BelowIs(prefix, x);
      var n :| 1 <= n <= Depth(prefix, recursive, key) && Rest(prefix, x) == Join(Split(Rest(prefix, key), '/')[..n], '/');
      assert x == Contribution(prefix, key, n);
    }
  }

  lemma SelectedExact(prefix: string, key: string)
    ensures Selected(prefix)(key) <==> prefix == "" || FoldedPrefix(key, prefix + "/")
  {
    if prefix == "" {
      LikeAnything(key);
    } else {
      LikePrefixExact(prefix + "/", key);
    }
  }

  /** A key really below the prefix contributes exactly the tree names on its way. */
  lemma KeyContributes(prefix: string, recursive: bool, key: string, x: string)
    requires Below(prefix, key)
    ensures Contributes(prefix, recursive, key, x) <==>
            Below(prefix, x) && (recursive || '/' !in Rest(prefix, x)) && PathPrefix(key, x)
  {
    ContributesBelow(prefix, recursive, key, x);
    if Below(prefix, x) {
      ContributesMeans(prefix, recursive, key, Rest(prefix, x));
      PathPrefixBelow(prefix, key, x);
    }
  }

  lemma BelowIs(prefix: string, x: string)
    requires Below(prefix, x)
    ensures x == JoinKey(prefix, Rest(prefix, x))
  {
    if prefix != "" {
      assert x == x[..|prefix| + 1] + x[|prefix| + 1..];
    }
  }

  lemma JoinKeyRest(prefix: string, r: string)
    ensures Below(prefix, JoinKey(prefix, r)) && Rest(prefix, JoinKey(prefix, r)) == r
  {
    if prefix != "" {
      BehindHead(prefix, r);
    }
  }

  lemma PathPrefixBelow(prefix: string, key: string, x: string)
    requires Below(prefix, key) && Below(prefix, x)
    ensures PathPrefix(key, x) <==> PathPrefix(Rest(prefix, key), Rest(prefix, x))
  {
    if prefix != "" {
      BelowIs(prefix, key);
      BelowIs(prefix, x);
      UnderHead(prefix + "/", Rest(prefix, key), Rest(prefix, x));
    }
  }

  /** Keys on the way to which a name below the prefix lies are themselves below the prefix. */
  lemma OnTheWayBelow(prefix: string, key: string, x: string)
    requires Below(prefix, x) && PathPrefix(key, x)
    ensures Below(prefix, key)
  {
    if prefix != "" && key != x {
      assert key[..|x| + 1] == x + "/";
      assert key[..|prefix| + 1] == (x + "/")[..|prefix| + 1] == x[..|prefix| + 1];
    }
  }

  /** A key that is below the prefix after folding only. */
  predicate Clashes(prefix: string, key: string) {
    prefix != "" && FoldedPrefix(key, prefix + "/") && !HasPrefix(key, prefix + "/")
  }

  /** A name contributed by such a key. */
  ghost predicate FromClash(keys: seq<string>, prefix: string, recursive: bool, x: string) {
    exists key :: key in keys && Clashes(prefix, key) && Contributes(prefix, recursive, key, x)
  }

  /** A listing is the key tree below the prefix and what clashing keys contribute. */
  lemma ListedIs(keys: seq<string>, prefix: string, recursive: bool, x: string)
    ensures Listed(Filter(keys, Selected(prefix)), prefix, recursive, x) <==>
            InTree(keys, prefix, recursive, x) || FromClash(keys, prefix, recursive, x)
  {
    var selected := Selected(prefix);
    var rows := Filter(keys, selected);
    if Listed(rows, prefix, recursive, x) {
      var key :| key in rows && Contributes(prefix, recursive, key, x);
      SelectedExact(prefix, key);
      if !Clashes(prefix, key) {
        KeyContributes(prefix, recursive, key, x);
      }
    }
    if InTree(keys, prefix, recursive, x) {
      var key :| key in keys && PathPrefix(key, x);
      OnTheWayBelow(prefix, key, x);
      BelowFolds(prefix, key);
      SelectedExact(prefix, key);
      KeyContributes(prefix, recursive, key, x);
      assert key in rows;
    }
    if FromClash(keys, prefix, recursive, x) {
      var key :| key in keys && Clashes(prefix, key) && Contributes(prefix, recursive, key, x);
      SelectedExact(prefix, key);
      assert key in rows;
    }
  }

  /** Without case-only clashes a listing is exactly the key tree below the prefix. */
  lemma ListingIsTree(keys: seq<string>, prefix: string, recursive: bool, x: string)
    requires prefix == "" || NoCaseClash(keys, prefix)
    ensures Listed(Filter(keys, Selected(prefix)), prefix, recursive, x) <==> InTree(keys, prefix, recursive, x)
  {
    ListedIs(keys, prefix, recursive, x);
  }

  /** A listing is the key tree exactly when every name a clashing key contributes is in the tree anyway. */
  lemma ListingIsTreeIff(keys: seq<string>, prefix: string, recursive: bool)
    ensures (forall x :: Listed(Filter(keys, Selected(prefix)), prefix, recursive, x) <==> InTree(keys, prefix, recursive, x))
            <==> (forall key, x :: key in keys && Clashes(prefix, key) && Contributes(prefix, recursive, key, x) ==>
                    InTree(keys, prefix, recursive, x))
  {
    var rows := Filter(keys, Selected(prefix));
    if forall x :: Listed(rows, prefix, recursive, x) <==> InTree(keys, prefix, recursive, x) {
      forall key, x | key in keys && Clashes(prefix, key) && Contributes(prefix, recursive, key, x)
        ensures InTree(keys, prefix, recursive, x) {
        assert FromClash(keys, prefix, recursive, x);
        ListedIs(keys, prefix, recursive, x);
      }
    }
    if forall key, x :: key in keys && Clashes(prefix, key) && Contributes(prefix, recursive, key, x) ==>
         InTree(keys, prefix, recursive, x) {
      forall x ensures Listed(rows, prefix, recursive, x) <==> InTree(keys, prefix, recursive, x) {
        ListedIs(keys, prefix, recursive, x);
      }
    }
  }

  lemma BelowFolds(prefix: string, key: string)
    requires Below(prefix, key)
    ensures prefix == "" || FoldedPrefix(key, prefix + "/")
  {
    if prefix != "" {
      var p := prefix + "/";
      assert forall i :: 0 <= i < |p| ==> key[i] == p[i] by {
        assert forall i :: 0 <= i < |p| ==> key[..|p|][i] == p[i];
      }
      assert Lower(key)[..|p|] == Lower(p);
    }
  }

  /** A key that clashes in case only is listed below the prefix although it is not there. */
  lemma ClashIsListed(keys: seq<string>, prefix: string, recursive: bool, key: string)
    requires key in keys && Clashes(prefix, key)
    ensures !Below(prefix, key)
    ensures Listed(Filter(keys, Selected(prefix)), prefix, recursive, prefix + "/" + Split(key, '/')[0])
  {
    assert Split(key, '/')[..1] == [Split(key, '/')[0]];
    assert Contribution(prefix, key, 1) == prefix + "/" + Split(key, '/')[0];
    assert Contributes(prefix, recursive, key, prefix + "/" + Split(key, '/')[0]);
    ListedIs(keys, prefix, recursive, prefix + "/" + Split(key, '/')[0]);
  }

  /** Concretely: with only "A/b" stored, listing "a" answers "a/A", which is on the way to no key. */
  lemma ClashExample(recursive: bool)
    ensures Listed(Filter(["A/b"], Selected("a")), "a", recursive, "a/A")
    ensures !InTree(["A/b"], "a", recursive, "a/A")
  {
    var key := "A/b";
    assert key[0] == 'A' && "a/"[0] == 'a' && key[..2] == "A/";
    assert Lower(key)[..2] == Lower("a/");
    assert Clashes("a", key);
    SplitFirst("A", "b", '/');
    assert "A" + ['/'] + "b" == key;
    ClashIsListed([key], "a", recursive, key);
    assert "a" + "/" + "A" == "a/A";
    assert "a/A"[0] == 'a';
    assert !PathPrefix(key, "a/A");
  }

  // ---------------------------------------------------------------- existence and deletion

  /** A key exists exactly when it, or something below its folded name, is stored. */
  lemma ExistsIff(keys: seq<string>, key: string)
    ensures Exists(keys, key) <==>
            CleanKey(key) != "" && exists k :: k in keys && (k == CleanKey(key) || FoldedPrefix(k, CleanKey(key) + "/"))
  {
    var hit := AtOrBelow(CleanKey(key));
    assert First(keys, hit).None? <==> forall k :: k in keys ==> !hit(k);
    forall k ensures hit(k) <==> k == CleanKey(key) || FoldedPrefix(k, CleanKey(key) + "/") {
      LikePrefixExact(CleanKey(key) + "/", k);
    }
  }

  /** A deleted key is gone with everything below it, whatever is left was not selected, and nothing else went. */
  lemma DeleteExact(keys: seq<string>, key: string)
    ensures !Exists(Deleted(keys, key), key)
    ensures CleanKey(key) == "" ==> Deleted(keys, key) == keys
    ensures CleanKey(key) != "" ==>
              forall k :: k in Deleted(keys, key) <==>
                k in keys && k != CleanKey(key) && !FoldedPrefix(k, CleanKey(key) + "/")
    ensures KeyOrdered(keys, Self) ==> KeyOrdered(Deleted(keys, key), Self)
  {
    var kept := NotAtOrBelow(CleanKey(key));
    forall k ensures kept(k) <==> k != CleanKey(key) && !FoldedPrefix(k, CleanKey(key) + "/") {
      LikePrefixExact(CleanKey(key) + "/", k);
    }
    ExistsIff(Deleted(keys, key), key);
    if KeyOrdered(keys, Self) {
      FilterOrdered(keys, kept, Self);
    }
  }

  /** A key between blanks and slashes is stored without them. */
  lemma CleanKeyOf(l: string, a: string, key: string, b: string, r: string)
    requires AllDropped(l, IsSpace) && AllDropped(a, IsSlash) && AllDropped(b, IsSlash) && AllDropped(r, IsSpace)
    requires key != "" && !IsSlash(key[0]) && !IsSlash(key[|key| - 1])
    requires !IsSpace((a + key + b)[0]) && !IsSpace((a + key + b)[|a + key + b| - 1])
    ensures CleanKey(l + (a + key + b) + r) == key
  {
    TrimBoth(l, a + key + b, r, IsSpace);
    TrimBoth(a, key, b, IsSlash);
  }

  /** A cleaned key begins and ends with something else than a slash. */
  lemma CleanKeyEnds(key: string)
    ensures CleanKey(key) != "" ==> CleanKey(key)[0] != '/' && CleanKey(key)[|CleanKey(key)| - 1] != '/'
  {
    var t := TrimLeft(TrimSpace(key), IsSlash);
    TrimLeftEnds(TrimSpace(key), IsSlash);
    TrimRightEnds(t, IsSlash);
  }

  /** The key itself, or something below its folded name, is stored. */
  ghost predicate Stored(keys: seq<string>, key: string) {
    key != "" && exists k :: k in keys && (k == key || FoldedPrefix(k, key + "/"))
  }

  /**
   A listing is refused exactly when its prefix is not empty, nothing below it is stored, and the prefix, cleaned once
   more by the existence check, is not stored either.
   */
  lemma NotExistIff(keys: seq<string>, rawPrefix: string, recursive: bool, r: Listing)
    requires IsListing(keys, rawPrefix, recursive, r)
    ensures var prefix := CleanKey(rawPrefix);
            r.NotExist? <==>
            prefix != "" && !Stored(keys, CleanKey(prefix)) && forall k :: k in keys ==> !FoldedPrefix(k, prefix + "/")
  {
    ExistsIff(keys, CleanKey(rawPrefix));
    NothingBelow(keys, CleanKey(rawPrefix));
  }

  /** A prefix without blanks at its ends is refused exactly when neither it nor anything below it is stored. */
  lemma CleanPrefixNotExist(keys: seq<string>, rawPrefix: string, recursive: bool, r: Listing)
    requires IsListing(keys, rawPrefix, recursive, r)
    requires var prefix := CleanKey(rawPrefix); prefix != "" && !IsSpace(prefix[0]) && !IsSpace(prefix[|prefix| - 1])
    ensures r.NotExist? <==> !Stored(keys, CleanKey(rawPrefix))
  {
    NotExistIff(keys, rawPrefix, recursive, r);
    CleanKeyEnds(rawPrefix);
    TrimSpaceFixed(CleanKey(rawPrefix));
    assert CleanKey(CleanKey(rawPrefix)) == CleanKey(rawPrefix);
  }

  lemma NothingBelow(keys: seq<string>, prefix: string)
    ensures Filter(keys, Selected(prefix)) == [] <==>
            forall k :: k in keys ==> prefix != "" && !FoldedPrefix(k, prefix + "/")
  {
    var selected := Selected(prefix);
    HasMember(Filter(keys, selected));
    forall k | k in keys ensures k in Filter(keys, selected) <==> prefix == "" || FoldedPrefix(k, prefix + "/") {
      SelectedExact(prefix, k);
    }
  }

  // ---------------------------------------------------------------- the listing loop

  function StringsLessEq(a: string, b: string): bool { LessEq(a, b) }

  class Storage {
    var keys: seq<string>

    ghost predicate Valid()
      reads this
    {
      KeyOrdered(keys, Self)
    }

    constructor ()
      ensures Valid() && keys == []
    {
      keys := [];
    }

    /** The key side of `Store`; an empty key is an error. */
    method Store(rawKey: string) returns (ok: bool)
      requires Valid()
      modifies this
      ensures Valid() && ok == (CleanKey(rawKey) != "")
      ensures forall k :: k in keys <==> k in old(keys) || (ok && k == CleanKey(rawKey))
    {
      var key := CleanKey(rawKey);
      ok := key != "";
      if ok && key !in keys {
        InsertOrdered(keys, key, Self);
        keys := Insert(keys, key, Self);
      }
    }

    method Delete(rawKey: string) returns (ok: bool)
      requires Valid()
      modifies this
      ensures Valid() && ok == (CleanKey(rawKey) != "")
      ensures keys == Deleted(old(keys), rawKey)
    {
      DeleteExact(keys, rawKey);
      var key := CleanKey(rawKey);
      ok := key != "";
      if ok {
        keys := Filter(keys, NotAtOrBelow(key));
      }
    }

    /** `List`. */
    method List(rawPrefix: string, recursive: bool) returns (r: Listing)
      ensures IsListing(keys, rawPrefix, recursive, r)
    {
      var prefix := CleanKey(rawPrefix);
      var rows := Filter(keys, Selected(prefix));
      var names := Collect(rows, prefix, recursive);
      if names == [] && prefix != "" && !Exists(keys, prefix) {
        NothingListed(rows, prefix, recursive, names);
        return NotExist;
      }
      SortKeyOrdered(names, StringsLessEq, Self);
      NothingListed(rows, prefix, recursive, names);
      r := Listing(StableSort(names, StringsLessEq));
    }
  }

  /** Names stay empty exactly when there are no rows. */
  lemma NothingListed(rows: seq<string>, prefix: string, recursive: bool, names: seq<string>)
    requires forall x :: x in names <==> Listed(rows, prefix, recursive, x)
    ensures names == [] <==> rows == []
  {
    if rows != [] {
      var key := rows[0];
      assert Contributes(prefix, recursive, key, Contribution(prefix, key, 1));
      assert Listed(rows, prefix, recursive, Contribution(prefix, key, 1));
    } else {
      HasMember(names);
    }
  }

  /** The row loop of `List`: every name the rows contribute, once. */
  method Collect(rows: seq<string>, prefix: string, recursive: bool) returns (names: seq<string>)
    ensures NoRepeats(names)
    ensures forall x :: x in names <==> Listed(rows, prefix, recursive, x)
  {
    names := [];
    for i := 0 to |rows|
      invariant NoRepeats(names)
      invariant forall x :: x in names <==> Listed(rows[..i], prefix, recursive, x)
    {
      names := CollectRow(names, rows[i], prefix, recursive);
      forall x ensures x in names <==> Listed(rows[..i + 1], prefix, recursive, x) {
        ListedSnoc(rows, i, prefix, recursive, x);
      }
    }
    assert rows[..|rows|] == rows;
  }

  lemma ListedSnoc(rows: seq<string>, i: nat, prefix: string, recursive: bool, x: string)
    requires i < |rows|
    ensures Listed(rows[..i + 1], prefix, recursive, x) <==>
            Listed(rows[..i], prefix, recursive, x) || Contributes(prefix, recursive, rows[i], x)
  {
    assert forall key :: key in rows[..i + 1] <==> key in rows[..i] || key == rows[i];
  }

  method CollectRow(names: seq<string>, key: string, prefix: string, recursive: bool) returns (more: seq<string>)
    requires NoRepeats(names)
    ensures NoRepeats(more)
    ensures forall x :: x in more <==> x in names || Contributes(prefix, recursive, key, x)
  {
    more := names;
    var depth := Depth(prefix, recursive, key);
    for n := 1 to depth + 1
      invariant NoRepeats(more)
      invariant forall x :: x in more <==> x in names || exists k :: 1 <= k < n && x == Contribution(prefix, key, k)
    {
      var name := Contribution(prefix, key, n);
      if name !in more {
        more := more + [name];
      }
    }
  }
}
