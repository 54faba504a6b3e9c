/**
 The dotted-suffix order on DNS names that every reservation rule is written in, the wildcard
 prefix, and the normalizations that decide which spelling of a name is stored.
 */
module Names {
  import opened Text

  // ---------------------------------------------------------------- the dotted-suffix order

  /** `x` is `d` itself or lies below it on a label boundary. */
  predicate Under(x: string, d: string) {
    x == d || HasSuffix(x, "." + d)
  }

  predicate StrictlyUnder(x: string, d: string) {
    HasSuffix(x, "." + d)
  }

  predicate Related(a: string, b: string) {
    Under(a, b) || Under(b, a)
  }

  lemma UnderTransitive(x: string, y: string, z: string)
    requires Under(x, y) && Under(y, z)
    ensures Under(x, z)
    ensures StrictlyUnder(x, y) || StrictlyUnder(y, z) ==> StrictlyUnder(x, z)
  {
    if x != y && y != z {
      var dz := "." + z;
      assert x[|x| - |y|..] == y by {
        assert x[|x| - |y| - 1..][1..] == x[|x| - |y|..];
      }
      assert x[|x| - |dz|..] == x[|x| - |y|..][|y| - |dz|..];
    }
  }

  lemma UnderAntisymmetric(x: string, y: string)
    requires Under(x, y) && Under(y, x)
    ensures x == y
  {}

  /** Two dotted suffixes of one name are always comparable. */
  lemma SuffixesComparable(x: string, a: string, b: string)
    requires Under(x, a) && Under(x, b)
    ensures Related(a, b)
  {
    if |a| <= |b| {
      ShorterSuffix(x, a, b);
    } else {
      ShorterSuffix(x, b, a);
    }
  }

  lemma SuffixOf(x: string, d: string)
    requires Under(x, d)
    ensures |d| <= |x| && x[|x| - |d|..] == d
  {
    if x != d {
      assert x[|x| - |d| - 1..][1..] == x[|x| - |d|..];
    }
  }

  lemma ShorterSuffix(x: string, a: string, b: string)
    requires Under(x, a) && Under(x, b) && |a| <= |b|
    ensures Under(b, a)
  {
    SuffixOf(x, a);
    SuffixOf(x, b);
    if |a| < |b| {
      var da := "." + a;
      assert b[|b| - |da|..] == x[|x| - |b|..][|b| - |da|..] == x[|x| - |da|..] == da;
    }
  }

  /** Everything below a name has that name as its dotted suffix, and conversely. */
  lemma BelowIs(prefix: string, d: string)
    ensures StrictlyUnder(prefix + "." + d, d)
  {
    var x := prefix + "." + d;
    assert x == prefix + ("." + d);
    assert x[|x| - |"." + d|..] == "." + d;
  }

  lemma BelowSplit(x: string, d: string) returns (prefix: string)
    requires StrictlyUnder(x, d)
    ensures x == prefix + "." + d
  {
    prefix := x[..|x| - |"." + d|];
    assert x == prefix + x[|prefix|..];
    assert x == prefix + ("." + d);
  }

  // ---------------------------------------------------------------- wildcards

  const WILDCARD := "*."

  predicate IsWildcard(h: string) {
    HasPrefix(h, WILDCARD)
  }

  /** The name without a leading wildcard label. */
  function Base(h: string): string {
    TrimPrefix(h, WILDCARD)
  }

  lemma BaseOfWildcard(n: string)
    ensures IsWildcard(WILDCARD + n) && Base(WILDCARD + n) == n && Base("*" + "." + n) == n
  {
    assert "*" + "." + n == WILDCARD + n;
    assert (WILDCARD + n)[..2] == WILDCARD && (WILDCARD + n)[2..] == n;
  }

  /** A name covering a wildcard also covers its base, unless the name itself holds a `*`. */
  lemma BaseUnder(h: string, z: string)
    requires Under(h, z) && '*' !in z
    ensures Under(Base(h), z)
  {
    if IsWildcard(h) {
      var b := Base(h);
      assert h == WILDCARD + b;
      assert h[0] in h && h[0] == '*';
      var dz := "." + z;
      assert h[|h| - |dz|..] == dz;
      assert h[|h| - |dz|] == '.';
      if |dz| == |h| - 1 {
        assert h[1..][1..] == b && dz[1..] == z;
      } else {
        assert h[|h| - |dz|..] == b[|b| - |dz|..];
      }
    }
  }

  /** A hostname lies at or under its base. */
  lemma HostUnderBase(h: string)
    ensures Under(h, Base(h))
  {
    if IsWildcard(h) {
      assert h == WILDCARD + Base(h) == "*" + "." + Base(h);
      BelowIs("*", Base(h));
    }
  }

  // ---------------------------------------------------------------- well-formed names

  predicate LabelChar(c: char) {
    'a' <= c <= 'z' || '0' <= c <= '9' || c == '-'
  }

  predicate ValidLabel(part: string) {
    && part != ""
    && part[0] != '-' && part[|part| - 1] != '-'
    && forall i :: 0 <= i < |part| ==> LabelChar(part[i])
  }

  /** What `validateDomainLabels` accepts. */
  predicate ValidName(name: string) {
    forall part :: part in Split(name, '.') ==> ValidLabel(part)
  }

  ghost predicate NameChars(name: string) {
    forall i :: 0 <= i < |name| ==> LabelChar(name[i]) || name[i] == '.'
  }

  lemma ValidNameShape(name: string)
    requires ValidName(name)
    ensures NameChars(name)
    ensures name != "" && name[0] != '.' && name[|name| - 1] != '.'
  {
    ValidNameIff(name);
  }

  /** A valid label in front of a valid name makes a valid name. */
  lemma ValidNameBelow(part: string, name: string)
    requires ValidLabel(part) && ValidName(name)
    ensures ValidName(part + "." + name)
  {
    SplitFirst(part, name, '.');
  }

  lemma NameCharsFixed(name: string)
    requires NameChars(name)
    requires name == "" || name[|name| - 1] != '.'
    ensures TrimSpace(name) == name && Lower(name) == name && TrimSuffix(name, ".") == name
    ensures '*' !in name && '@' !in name && !IsWildcard(name)
  {
    TrimSpaceFixed(name);
    if name != "" {
      assert name[|name| - 1..] == [name[|name| - 1]];
    }
  }

  /** A valid name is free of wildcards and survives trimming and folding. */
  lemma ValidNameFixed(name: string)
    requires ValidName(name)
    ensures name != "" && name[|name| - 1] != '.'
    ensures TrimSpace(name) == name && Lower(name) == name && TrimSuffix(name, ".") == name
    ensures '*' !in name && '@' !in name && !IsWildcard(name)
  {
    ValidNameShape(name);
    NameCharsFixed(name);
  }

  /** A dotted suffix of a valid name is spelled with name characters only. */
  lemma SuffixOfValid(name: string, d: string)
    requires ValidName(name) && Under(name, d)
    ensures NameChars(d) && (d == "" || d[|d| - 1] != '.')
  {
    ValidNameShape(name);
    SuffixOf(name, d);
    assert forall i :: 0 <= i < |d| ==> d[i] == name[|name| - |d| + i];
  }

  // ---------------------------------------------------------------- normalizations

  /** Trim, lower-case, drop one trailing dot. */
  function FoldName(value: string): string {
    TrimSuffix(Lower(TrimSpace(value)), ".")
  }

  /** Project Domains and machine hostnames: folded, and refused (`None`) unless well formed. */
  function NormalizeName(value: string): (r: Option<string>)
    ensures r.Some? ==> ValidName(r.value)
  {
    var name := FoldName(value);
    if name != "" && ValidName(name) then Some(name) else None
  }

  /** A Public DNS Zone also needs two labels. */
  function NormalizeZone(value: string): (r: Option<string>)
    ensures r.Some? ==> ValidName(r.value)
  {
    var name := NormalizeName(value);
    if name.Some? && '.' in name.value then name else None
  }

  /** A machine hostname may carry one leading wildcard label. */
  function NormalizeMachineHostname(value: string): (r: Option<string>)
    ensures r.Some? ==> ValidName(Base(r.value))
  {
    var trimmed := TrimSpace(value);
    var name := NormalizeName(Base(trimmed));
    if name.None? then None
    else if IsWildcard(trimmed) then Some(WILDCARD + name.value)
    else ValidNameFixed(name.value); name
  }

  lemma NormalizeNameFixed(name: string)
    requires ValidName(name)
    ensures NormalizeName(name) == Some(name)
  {
    ValidNameFixed(name);
  }

  /** A stored hostname normalizes to itself, so a release finds the row a claim wrote. */
  lemma NormalizeMachineHostnameFixed(h: string)
    requires ValidName(Base(h))
    ensures NormalizeMachineHostname(h) == Some(h)
  {
    HostnameTrimmed(h);
    NormalizeNameFixed(Base(h));
    assert h == if IsWildcard(h) then WILDCARD + Base(h) else Base(h);
  }

  lemma HostnameTrimmed(h: string)
    requires ValidName(Base(h))
    ensures TrimSpace(h) == h
  {
    var b := Base(h);
    ValidNameShape(b);
    assert h[|h| - 1] == b[|b| - 1];
    assert h[0] == if IsWildcard(h) then '*' else b[0];
    TrimSpaceFixed(h);
  }

  /** Go's `strings.Trim(s, ".")`. */
  function TrimDots(s: string): string {
    TrimRight(TrimLeft(s, IsDot), IsDot)
  }

  function IsDot(c: char): bool { c == '.' }

  lemma TrimDotsFixed(name: string)
    requires name != "" && name[0] != '.' && name[|name| - 1] != '.'
    ensures TrimDots(name) == name
  {}

  /** Public Route hostnames: trimmed, one trailing dot dropped, trimmed again, lower-cased. */
  function NormalizeHostname(value: string): string {
    Lower(TrimSpace(TrimSuffix(TrimSpace(value), ".")))
  }

  /** The name a stored route is compared by; it is normalized a second time and loses its wildcard. */
  function RouteName(stored: string): string {
    Base(NormalizeHostname(stored))
  }

  // ---------------------------------------------------------------- which spellings are accepted

  predicate Alphanumeric(c: char) {
    'a' <= c <= 'z' || '0' <= c <= '9'
  }

  /** Letters, digits, hyphens and dots; the ends, and both sides of every dot, are letters or digits. */
  ghost predicate WellSpelled(name: string) {
    && name != "" && Alphanumeric(name[0]) && Alphanumeric(name[|name| - 1])
    && (forall i :: 0 <= i < |name| ==> Alphanumeric(name[i]) || name[i] == '-' || name[i] == '.')
    && forall i :: 0 < i < |name| - 1 && name[i] == '.' ==> Alphanumeric(name[i - 1]) && Alphanumeric(name[i + 1])
  }

  lemma LabelSpelled(part: string)
    requires '.' !in part
    ensures ValidLabel(part) <==> WellSpelled(part)
  {
    if part != "" {
      assert part[0] in part && part[|part| - 1] in part;
      assert forall i :: 0 <= i < |part| ==> part[i] in part;
    }
  }

  lemma SpelledApart(part: string, rest: string)
    requires '.' !in part
    ensures WellSpelled(part + "." + rest) <==> WellSpelled(part) && WellSpelled(rest)
  {
    if WellSpelled(part + "." + rest) {
      SpelledParts(part + "." + rest, part, rest);
    }
    if WellSpelled(part) && WellSpelled(rest) {
      SpelledTogether(part + "." + rest, part, rest);
    }
  }

  lemma SpelledTogether(name: string, part: string, rest: string)
    requires '.' !in part && name == part + "." + rest && WellSpelled(part) && WellSpelled(rest)
    ensures WellSpelled(name)
  {
    assert name[|name| - 1] == rest[|rest| - 1];
    forall i | 0 <= i < |name| ensures Alphanumeric(name[i]) || name[i] == '-' || name[i] == '.' {
      SpelledAt(name, part, rest, i);
    }
    forall i | 0 < i < |name| - 1 && name[i] == '.' ensures Alphanumeric(name[i - 1]) && Alphanumeric(name[i + 1]) {
      DotBetween(name, part, rest, i);
    }
  }

  lemma SpelledAt(name: string, part: string, rest: string, i: int)
    requires name == part + "." + rest && 0 <= i < |name|
    ensures name[i] == if i < |part| then part[i] else if i == |part| then '.' else rest[i - |part| - 1]
  {}

  lemma DotBetween(name: string, part: string, rest: string, i: int)
    requires '.' !in part && name == part + "." + rest && WellSpelled(part) && WellSpelled(rest)
    requires 0 < i < |name| - 1 && name[i] == '.'
    ensures Alphanumeric(name[i - 1]) && Alphanumeric(name[i + 1])
  {
    SpelledAt(name, part, rest, i);
    SpelledAt(name, part, rest, i - 1);
    SpelledAt(name, part, rest, i + 1);
    assert forall k :: 0 <= k < |part| ==> part[k] in part;
  }

  lemma SpelledParts(name: string, part: string, rest: string)
    requires '.' !in part && name == part + "." + rest && WellSpelled(name)
    ensures WellSpelled(part) && WellSpelled(rest)
  {
    var n := |part|;
    SpelledAt(name, part, rest, n);
    SpelledAt(name, part, rest, 0);
    SpelledAt(name, part, rest, |name| - 1);
    assert forall i :: 0 <= i < n ==> name[i] == part[i] && part[i] in part;
    assert name[0] != '.' && name[|name| - 1] != '.';
    RestSpelled(name, part, rest);
  }

  lemma RestSpelled(name: string, part: string, rest: string)
    requires name == part + "." + rest && WellSpelled(name)
    ensures WellSpelled(rest)
  {
    var n := |part| + 1;
    assert forall i :: 0 <= i < |rest| ==> name[n + i] == rest[i];
    assert name[n - 1] == '.' && name[|name| - 1] != '.';
    forall i | 0 < i < |rest| - 1 && rest[i] == '.' ensures Alphanumeric(rest[i - 1]) && Alphanumeric(rest[i + 1]) {
      assert name[n + i] == '.' && name[n + i - 1] == rest[i - 1] && name[n + i + 1] == rest[i + 1];
    }
  }

  /** The accepted names, character by character. */
  lemma {:induction false} ValidNameIff(name: string)
    ensures ValidName(name) <==> WellSpelled(name)
    decreases |name|
  {
    var part := Split(name, '.')[0];
    var rest := SplitHead(name, '.');
    LabelSpelled(part);
    if '.' in name {
      assert part + ['.'] + rest == part + "." + rest;
      SpelledApart(part, rest);
      ValidNameIff(rest);
    }
  }

  /** White space around a name. */
  ghost predicate Blanks(s: string) {
    AllDropped(s, IsSpace)
  }

  lemma SpelledEnds(name: string, spelled: string)
    requires ValidName(name) && Lower(spelled) == name
    ensures spelled != "" && !IsSpace(spelled[0]) && !IsSpace(spelled[|spelled| - 1]) && spelled[|spelled| - 1] != '.'
  {
    ValidNameIff(name);
    assert |spelled| == |name| && LowerChar(spelled[0]) == name[0] && LowerChar(spelled[|spelled| - 1]) == name[|name| - 1];
  }

  /** A well-formed name in any letter case, between blanks, with or without a trailing dot, is stored as that name. */
  lemma SpellingsNormalize(l: string, spelled: string, r: string, name: string)
    requires ValidName(name) && Lower(spelled) == name && Blanks(l) && Blanks(r)
    ensures NormalizeName(l + spelled + r) == Some(name) && NormalizeName(l + (spelled + ".") + r) == Some(name)
    ensures NormalizeHostname(l + spelled + r) == name && NormalizeHostname(l + (spelled + ".") + r) == name
  {
    SpelledEnds(name, spelled);
    ValidNameFixed(name);
    TrimBoth(l, spelled, r, IsSpace);
    TrimBoth(l, spelled + ".", r, IsSpace);
    DotDropped(spelled);
    DotDropped(name);
    assert Lower(spelled + ".") == name + ".";
    TrimSpaceFixed(spelled);
  }

  lemma DotDropped(s: string)
    requires s != "" && s[|s| - 1] != '.'
    ensures TrimSuffix(s + ".", ".") == s && TrimSuffix(s, ".") == s
  {
    assert (s + ".")[|s|..] == "." && (s + ".")[..|s|] == s;
    assert s[|s| - 1..] == [s[|s| - 1]];
  }

  /** Nothing else is: what is stored is the trimmed, folded input without one trailing dot, when well spelled. */
  lemma NormalizeNameIff(value: string)
    ensures NormalizeName(value) ==
            var name := TrimSuffix(Lower(TrimSpace(value)), "."); if WellSpelled(name) then Some(name) else None
  {
    ValidNameIff(TrimSuffix(Lower(TrimSpace(value)), "."));
  }

  /** A zone needs at least two labels. */
  lemma ZoneNeedsTwoLabels(value: string)
    ensures NormalizeZone(value) ==
            var name := NormalizeName(value); if name.Some? && |Split(name.value, '.')| >= 2 then name else None
  {
    if NormalizeName(value).Some? {
      var rest := SplitHead(NormalizeName(value).value, '.');
    }
  }
}
