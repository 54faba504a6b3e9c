/**
 The key tree of the ACME storage: keys are "/"-separated paths, and a directory is a strict path prefix
 of other keys. Subtrees are selected by SQL's `LIKE` with an escaped prefix.
 */
module StorageKeys {
  import opened Text

  // ---------------------------------------------------------------- LIKE

  /** SQLite's `s LIKE p ESCAPE '\'`: ASCII case-insensitive, a pattern ending in `\` matches nothing. */
  predicate Like(p: string, s: string)
    decreases |p| + |s|
  {
    if p == "" then s == ""
    else if p[0] == '%' then Like(p[1..], s) || (s != "" && Like(p, s[1..]))
    else if p[0] == '_' then s != "" && Like(p[1..], s[1..])
    else if p[0] == '\\' then |p| >= 2 && s != "" && LowerChar(p[1]) == LowerChar(s[0]) && Like(p[2..], s[1..])
    else s != "" && LowerChar(p[0]) == LowerChar(s[0]) && Like(p[1..], s[1..])
  }

  predicate Special(c: char) {
    c == '\\' || c == '%' || c == '_'
  }

  function Escape(s: string): string {
    if s == "" then "" else (if Special(s[0]) then ['\\', s[0]] else [s[0]]) + Escape(s[1..])
  }

  /** `likePrefix`. */
  function LikePrefix(prefix: string): string {
    Escape(prefix) + "%"
  }

  predicate FoldedPrefix(s: string, prefix: string) {
    HasPrefix(Lower(s), Lower(prefix))
  }

  lemma {:induction false} LikeAnything(s: string)
    ensures Like("%", s)
    decreases |s|
  {
    if s == "" {
      assert Like("", s);
    } else {
      LikeAnything(s[1..]);
    }
  }

  lemma FoldedPrefixStep(s: string, prefix: string)
    requires prefix != ""
    ensures FoldedPrefix(s, prefix) <==>
            s != "" && LowerChar(prefix[0]) == LowerChar(s[0]) && FoldedPrefix(s[1..], prefix[1..])
  {
    var n := |prefix|;
    if |s| >= n {
      assert Lower(s)[..n] == Lower(prefix) <==> forall i :: 0 <= i < n ==> LowerChar(s[i]) == LowerChar(prefix[i]);
      assert Lower(s[1..])[..n - 1] == Lower(prefix[1..]) <==>
             forall i :: 0 <= i < n - 1 ==> LowerChar(s[1..][i]) == LowerChar(prefix[1..][i]);
      assert forall i :: 0 < i < n ==> s[i] == s[1..][i - 1] && prefix[i] == prefix[1..][i - 1];
    }
  }

  lemma LikeStep(prefix: string, s: string)
    requires prefix != ""
    ensures Like(LikePrefix(prefix), s) <==>
            s != "" && LowerChar(prefix[0]) == LowerChar(s[0]) && Like(LikePrefix(prefix[1..]), s[1..])
  {
    var p, rest := LikePrefix(prefix), LikePrefix(prefix[1..]);
    if Special(prefix[0]) {
      assert p == ['\\', prefix[0]] + rest;
      assert p[0] == '\\' && p[1] == prefix[0] && p[2..] == rest;
    } else {
      assert p == [prefix[0]] + rest;
      assert p[0] == prefix[0] && p[1..] == rest;
    }
  }

  /** The escaped pattern accepts exactly the strings whose folded form starts with the folded prefix. */
  lemma {:induction false} LikePrefixExact(prefix: string, s: string)
    ensures Like(LikePrefix(prefix), s) <==> FoldedPrefix(s, prefix)
    decreases |prefix|
  {
    if prefix == "" {
      assert LikePrefix("") == "%";
      LikeAnything(s);
    } else {
      LikeStep(prefix, s);
      FoldedPrefixStep(s, prefix);
      if s != "" {
        LikePrefixExact(prefix[1..], s[1..]);
      }
    }
  }

  // ---------------------------------------------------------------- path prefixes

  /** `x` is `key` itself or a directory on the way to it. */
  predicate PathPrefix(key: string, x: string) {
    key == x || HasPrefix(key, x + "/")
  }

  lemma PathPrefixSplit(part: string, tail: string, r: string)
    requires '/' !in part
    ensures PathPrefix(part + "/" + tail, r) <==>
            r == part || (HasPrefix(r, part + "/") && PathPrefix(tail, r[|part| + 1..]))
  {
    if |r| < |part| {
      ShorterThanFirst(part, tail, r);
    } else if |r| == |part| {
      SameLengthAsFirst(part, tail, r);
    } else {
      Beyond(part, tail, r);
    }
  }

  lemma ShorterThanFirst(part: string, tail: string, r: string)
    requires '/' !in part && |r| < |part|
    ensures !PathPrefix(part + "/" + tail, r)
  {
    var key, n := part + "/" + tail, |r|;
    assert key[..n + 1][n] == part[n] && part[n] in part;
    assert (r + "/")[n] == '/';
  }

  lemma SameLengthAsFirst(part: string, tail: string, r: string)
    requires |r| == |part|
    ensures PathPrefix(part + "/" + tail, r) <==> r == part
  {
    var key := part + "/" + tail;
    assert key[..|part| + 1] == part + "/";
    assert (r + "/")[..|r|] == r && (part + "/")[..|r|] == part;
  }

  lemma Beyond(part: string, tail: string, r: string)
    requires |r| > |part|
    ensures PathPrefix(part + "/" + tail, r) <==> HasPrefix(r, part + "/") && PathPrefix(tail, r[|part| + 1..])
  {
    var key, head := part + "/" + tail, part + "/";
    assert key == head + tail;
    LongerPathPrefix(head, tail, r);
    if HasPrefix(r, head) {
      UnderHead(head, tail, r[|head|..]);
      assert r == head + r[|head|..];
    }
  }

  lemma LongerPathPrefix(head: string, tail: string, r: string)
    requires |r| >= |head|
    ensures PathPrefix(head + tail, r) ==> HasPrefix(r, head)
  {
    var key := head + tail;
    assert key[..|head|] == head;
    if PathPrefix(key, r) {
      assert r == key[..|r|];
    }
  }

  /** Path prefixes below a directory are those of what stands behind it. */
  lemma UnderHead(head: string, tail: string, r: string)
    ensures PathPrefix(head + tail, head + r) <==> PathPrefix(tail, r)
  {
    assert (head + r) + "/" == head + (r + "/");
    HeadPrefix(head, tail, r + "/");
    if head + tail == head + r {
      assert (head + tail)[|head|..] == tail && (head + r)[|head|..] == r;
    }
  }

  lemma HeadPrefix(head: string, a: string, b: string)
    ensures HasPrefix(head + a, head + b) <==> HasPrefix(a, b)
  {
    if |b| <= |a| {
      assert (head + a)[..|head + b|] == head + a[..|b|];
      if head + a[..|b|] == head + b {
        assert (head + a[..|b|])[|head|..] == a[..|b|] && (head + b)[|head|..] == b;
      }
    }
  }

  lemma NoSlashNoDirectory(s: string, r: string)
    requires '/' !in s
    ensures !HasPrefix(s, r + "/")
  {
    if |r| < |s| {
      assert s[..|r| + 1][|r|] == s[|r|] && s[|r|] in s;
    }
  }

  /** The first separator of a string, if it has one. */
  lemma {:induction false} Separate(s: string) returns (part: string, tail: string)
    requires '/' in s
    ensures '/' !in part && s == part + "/" + tail && |tail| < |s|
  {
    if s[0] == '/' {
      part, tail := "", s[1..];
      assert s == "" + "/" + s[1..];
    } else {
      part, tail := Separate(s[1..]);
      part := [s[0]] + part;
      assert s == [s[0]] + s[1..];
    }
  }

  /** `r` is the join of the first segments of `rest`. */
  ghost predicate Leading(rest: string, r: string) {
    exists n :: 1 <= n <= |Split(rest, '/')| && r == Join(Split(rest, '/')[..n], '/')
  }

  /** Joining leading segments gives exactly the path prefixes. */
  lemma {:induction false} LeadingIsPathPrefix(rest: string, r: string)
    ensures Leading(rest, r) <==> PathPrefix(rest, r)
    decreases |rest|
  {
    if '/' !in rest {
      SplitPart(rest, '/');
      assert Join([rest][..1], '/') == rest;
      NoSlashNoDirectory(rest, r);
    } else {
      var part, tail := Separate(rest);
      PathPrefixSplit(part, tail, r);
      SplitFirst(part, tail, '/');
      assert part + "/" + tail == part + ['/'] + tail;
      LeadingSplit(rest, part, tail, r);
      if HasPrefix(r, part + "/") {
        LeadingIsPathPrefix(tail, r[|part| + 1..]);
      }
    }
  }

  lemma LeadingSplit(rest: string, part: string, tail: string, r: string)
    requires Split(rest, '/') == [part] + Split(tail, '/')
    ensures Leading(rest, r) <==> r == part || (HasPrefix(r, part + "/") && Leading(tail, r[|part| + 1..]))
  {
    if Leading(rest, r) {
      LeadingDown(rest, part, tail, r);
    }
    if r == part {
      assert Split(rest, '/')[..1] == [part];
      assert Join([part], '/') == r;
    }
    if HasPrefix(r, part + "/") && Leading(tail, r[|part| + 1..]) {
      LeadingUp(rest, part, tail, r);
    }
  }

  lemma LeadingDown(rest: string, part: string, tail: string, r: string)
    requires Split(rest, '/') == [part] + Split(tail, '/') && Leading(rest, r)
    ensures r == part || (HasPrefix(r, part + "/") && Leading(tail, r[|part| + 1..]))
  {
    var segs, more := Split(rest, '/'), Split(tail, '/');
    var n :| 1 <= n <= |segs| && r == Join(segs[..n], '/');
    if n == 1 {
      assert segs[..1] == [part];
    } else {
      JoinCons(part, more, n - 1);
      BehindHead(part, Join(more[..n - 1], '/'));
    }
  }

  lemma LeadingUp(rest: string, part: string, tail: string, r: string)
    requires Split(rest, '/') == [part] + Split(tail, '/')
    requires HasPrefix(r, part + "/") && Leading(tail, r[|part| + 1..])
    ensures Leading(rest, r)
  {
    var segs, more := Split(rest, '/'), Split(tail, '/');
    var n :| 1 <= n <= |more| && r[|part| + 1..] == Join(more[..n], '/');
    JoinCons(part, more, n);
    assert r == part + "/" + r[|part| + 1..];
    assert r == Join(segs[..n + 1], '/');
  }

  lemma BehindHead(part: string, tail: string)
    ensures HasPrefix(part + "/" + tail, part + "/") && (part + "/" + tail)[|part| + 1..] == tail
  {}

  lemma JoinCons(part: string, more: seq<string>, n: nat)
    requires 1 <= n <= |more|
    ensures Join(([part] + more)[..n + 1], '/') == part + "/" + Join(more[..n], '/')
  {
    var all := ([part] + more)[..n + 1];
    assert all[0] == part && all[1..] == more[..n];
  }
}
