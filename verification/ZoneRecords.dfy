/**
 One zone's record pass: which A records a set of targets wants, which records of the zone are
 managed, and the diff against the provider's listing that is written back.
 */
module ZoneRecords {
  import opened Text
  import opened Names

  // ---------------------------------------------------------------- names relative to the Cloudflare zone

  /** libdns: the name below the zone, "@" for the zone itself; trailing dots are ignored. */
  function RelativeName(fqdn: string, zone: string): string {
    var rel := TrimSuffix(TrimSuffix(TrimSuffix(fqdn, "."), TrimSuffix(zone, ".")), ".");
    if rel == "" then "@" else rel
  }

  function LibdnsZone(cloudflareZone: string): string {
    FoldName(cloudflareZone) + "."
  }

  /** Both records of a hostname map onto its relative name. */
  function MachineRelativeName(name: string): string {
    if name == "*" then "@" else Base(name)
  }

  function RelativeWildcard(rel: string): string {
    if rel == "@" then "*" else WILDCARD + rel
  }

  /** The full name a relative record name stands for. */
  function Absolute(rel: string, cf: string): string {
    if rel == "@" then cf else rel + "." + cf
  }

  /** A name that may be stored: a valid name, possibly behind a wildcard. */
  ghost predicate Storable(h: string) {
    ValidName(Base(h))
  }

  lemma StorableShape(h: string)
    requires Storable(h)
    ensures h != "" && h[0] != '.' && h[|h| - 1] != '.' && '@' !in h
    ensures h == if IsWildcard(h) then WILDCARD + Base(h) else Base(h)
  {
    ValidNameShape(Base(h));
    ValidNameFixed(Base(h));
  }

  lemma TrimSuffixExact(p: string, t: string)
    ensures TrimSuffix(p + t, t) == p
  {
    assert (p + t)[|p + t| - |t|..] == t;
    assert (p + t)[..|p + t| - |t|] == p;
  }

  lemma NoTrailingDot(s: string)
    requires s != "" && s[|s| - 1] != '.'
    ensures TrimSuffix(s, ".") == s
  {
    assert s[|s| - 1..] == [s[|s| - 1]];
  }

  /** The relative name of a name below the zone is what stands in front of the zone. */
  lemma RelativeBelow(p: string, cf: string)
    requires p != "" && cf != "" && cf[|cf| - 1] != '.'
    ensures RelativeName(p + "." + cf, cf + ".") == p
  {
    TrimSuffixExact(cf, ".");
    NoTrailingDot(p + "." + cf);
    TrimSuffixExact(p + ".", cf);
    TrimSuffixExact(p, ".");
  }

  lemma RelativeApex(cf: string)
    requires cf != "" && cf[|cf| - 1] != '.'
    ensures RelativeName(cf, cf + ".") == "@"
  {
    TrimSuffixExact(cf, ".");
    NoTrailingDot(cf);
    TrimSuffixExact("", cf);
    assert "" + cf == cf;
  }

  /** Relative names are exact for every storable name inside the zone. */
  lemma RelativeExact(h: string, cf: string)
    requires Storable(h) && Under(h, cf) && cf != ""
    ensures Absolute(RelativeName(h, cf + "."), cf) == h
    ensures RelativeName(h, cf + ".") == "@" <==> h == cf
    ensures h != cf ==> h == RelativeName(h, cf + ".") + "." + cf
  {
    StorableShape(h);
    SuffixOf(h, cf);
    assert cf[|cf| - 1] == h[|h| - 1];
    if h == cf {
      RelativeApex(cf);
    } else {
      var p := BelowSplit(h, cf);
      assert h[0] == if p == "" then '.' else p[0];
      RelativeBelow(p, cf);
      assert p[0] == h[0] && h[0] in h;
    }
  }

  /** The libdns zone of a Cloudflare zone name that is already folded. */
  lemma LibdnsZoneFixed(cf: string)
    requires NameChars(cf) && (cf == "" || cf[|cf| - 1] != '.')
    ensures LibdnsZone(cf) == cf + "."
  {
    NameCharsFixed(cf);
  }

  /** The relative name of a stored hostname without its wildcard is that of its base. */
  lemma RelativeBase(h: string, cf: string)
    requires Storable(h) && Under(h, cf) && Under(Base(h), cf) && cf != ""
    ensures MachineRelativeName(RelativeName(h, cf + ".")) == RelativeName(Base(h), cf + ".")
  {
    var b := Base(h);
    StorableShape(h);
    ValidNameFixed(b);
    assert Base(b) == b;
    RelativeExact(b, cf);
    SuffixOf(b, cf);
    if IsWildcard(h) {
      assert cf[|cf| - 1] == b[|b| - 1];
      WildcardRelative(RelativeName(b, cf + "."), cf);
    } else {
      NoStar(b, RelativeName(b, cf + "."), cf);
    }
  }

  /** The wildcard of a name at relative name `rel`. */
  lemma WildcardRelative(rel: string, cf: string)
    requires rel != "" && cf != "" && cf[|cf| - 1] != '.'
    ensures RelativeName(WILDCARD + Absolute(rel, cf), cf + ".") == RelativeWildcard(rel)
    ensures MachineRelativeName(RelativeWildcard(rel)) == rel
  {
    if rel == "@" {
      assert WILDCARD + cf == "*" + "." + cf;
      RelativeBelow("*", cf);
    } else {
      assert WILDCARD + (rel + "." + cf) == (WILDCARD + rel) + "." + cf;
      RelativeBelow(WILDCARD + rel, cf);
      assert (WILDCARD + rel)[..2] == WILDCARD && (WILDCARD + rel)[2..] == rel;
    }
  }

  lemma NoStar(h: string, r: string, cf: string)
    requires '*' !in h && Absolute(r, cf) == h
    ensures MachineRelativeName(r) == r
  {
    if r != "@" && r != "" {
      assert h[0] == r[0] && h[0] in h;
    }
  }

  // ---------------------------------------------------------------- records and plans

  datatype Record = A(name: string, addr: int) | Other(name: string, kind: string, data: string)

  /** One machine hostname to serve; `addr` is the machine's IPv4 bridge address, None when stopped. */
  datatype Target = Target(hostname: string, zone: string, projectDomain: string, derived: bool, addr: Option<int>)

  /** What a pass over one zone works with; every name is relative to the Cloudflare zone. */
  datatype Plan = Plan(want: map<string, int>, keep: set<string>, suffixes: seq<string>, reserved: set<string>)

  /** `desiredZoneRecords`: base and wildcard of every target with an address, later targets win. */
  function Want(lz: string, targets: seq<Target>): map<string, int> {
    if targets == [] then map[]
    else
      var want, t := Want(lz, targets[..|targets| - 1]), targets[|targets| - 1];
      var rel := RelativeName(t.hostname, lz);
      if t.addr.None? then want
      else if !IsWildcard(t.hostname) && (t.projectDomain == "" || t.derived)
      then want[rel := t.addr.value][RelativeWildcard(rel) := t.addr.value]
      else want[rel := t.addr.value]
  }

  /** Every live target's relative name, address or not. */
  function Keep(lz: string, targets: seq<Target>): (keep: set<string>)
    ensures forall t :: t in targets ==> MachineRelativeName(RelativeName(t.hostname, lz)) in keep
  {
    if targets == [] then {}
    else
      Keep(lz, targets[..|targets| - 1]) + {MachineRelativeName(RelativeName(targets[|targets| - 1].hostname, lz))}
  }

  /** The loop of `desiredZoneRecords`. */
  method DesiredZoneRecords(lz: string, targets: seq<Target>) returns (want: map<string, int>, keep: set<string>)
    ensures want == Want(lz, targets) && keep == Keep(lz, targets)
  {
    want, keep := map[], {};
    for i := 0 to |targets|
      invariant want == Want(lz, targets[..i]) && keep == Keep(lz, targets[..i])
    {
      assert targets[..i + 1][..i] == targets[..i];
      var t := targets[i];
      var rel := RelativeName(t.hostname, lz);
      keep := keep + {MachineRelativeName(rel)};
      if t.addr.None? {
        continue;
      }
      want := want[rel := t.addr.value];
      if !HasPrefix(t.hostname, WILDCARD) && (t.projectDomain == "" || t.derived) {
        want := want[RelativeWildcard(rel) := t.addr.value];
      }
    }
    assert targets[..|targets|] == targets;
  }

  /** A target with an address asks for its own name and, unless it is covered or a wildcard, for its wildcard. */
  predicate AskedBy(lz: string, x: Target, name: string) {
    var rel := RelativeName(x.hostname, lz);
    x.addr.Some? && (name == rel || (!IsWildcard(x.hostname) && (x.projectDomain == "" || x.derived) && name == RelativeWildcard(rel)))
  }

  /** The address of the last target that asks for a name. */
  function LastAsker(lz: string, targets: seq<Target>, name: string): Option<int> {
    if targets == [] then None
    else if AskedBy(lz, targets[|targets| - 1], name) then targets[|targets| - 1].addr
    else LastAsker(lz, targets[..|targets| - 1], name)
  }

  lemma {:induction false} WantIsLastAsker(lz: string, targets: seq<Target>, name: string)
    ensures LastAsker(lz, targets, name) == if name in Want(lz, targets) then Some(Want(lz, targets)[name]) else None
  {
    if targets != [] {
      WantIsLastAsker(lz, targets[..|targets| - 1], name);
    }
  }

  lemma {:induction false} LastAskerAppend(lz: string, a: seq<Target>, b: seq<Target>, name: string)
    ensures LastAsker(lz, a + b, name) == if LastAsker(lz, b, name).Some? then LastAsker(lz, b, name) else LastAsker(lz, a, name)
  {
    if b == [] {
      assert a + b == a;
    } else {
      assert (a + b)[..|a + b| - 1] == a + b[..|b| - 1];
      LastAskerAppend(lz, a, b[..|b| - 1], name);
    }
  }

  /** Targets of one address can only ask for that address. */
  lemma {:induction false} LastAskerOne(lz: string, targets: seq<Target>, name: string, addr: int, x: Target)
    requires forall y :: y in targets ==> y.addr == Some(addr)
    requires x in targets && AskedBy(lz, x, name)
    ensures LastAsker(lz, targets, name) == Some(addr)
  {
    var last := targets[|targets| - 1];
    if !AskedBy(lz, last, name) {
      assert x in targets[..|targets| - 1];
      LastAskerOne(lz, targets[..|targets| - 1], name, addr, x);
    }
  }

  lemma {:induction false} AskedIsWanted(lz: string, targets: seq<Target>, x: Target, name: string)
    requires x in targets && AskedBy(lz, x, name)
    ensures name in Want(lz, targets)
  {
    if x != targets[|targets| - 1] {
      assert x in targets[..|targets| - 1];
      AskedIsWanted(lz, targets[..|targets| - 1], x, name);
    }
  }

  predicate Managed(plan: Plan, name: string) {
    (exists s :: s in plan.suffixes && HasSuffix(name, s)) || MachineRelativeName(name) in plan.reserved
  }

  function IsStale(plan: Plan): Record -> bool {
    (r: Record) =>
      && r.A? && r.name !in plan.want && Managed(plan, r.name)
      && MachineRelativeName(r.name) !in plan.keep
  }

  // ---------------------------------------------------------------- what a listing says about one name

  /** The addresses of one name, in the provider's order. */
  function AddrsOf(records: seq<Record>, name: string): seq<int> {
    if records == [] then []
    else if records[0].A? && records[0].name == name then [records[0].addr] + AddrsOf(records[1..], name)
    else AddrsOf(records[1..], name)
  }

  lemma {:induction false} AddrsOfMember(records: seq<Record>, name: string, addr: int)
    ensures addr in AddrsOf(records, name) <==> A(name, addr) in records
  {
    if records != [] {
      AddrsOfMember(records[1..], name, addr);
    }
  }

  lemma {:induction false} AddrsOfAppend(a: seq<Record>, b: seq<Record>, name: string)
    ensures AddrsOf(a + b, name) == AddrsOf(a, name) + AddrsOf(b, name)
  {
    if a == [] {
      assert a + b == b;
    } else {
      assert (a + b)[1..] == a[1..] + b;
      AddrsOfAppend(a[1..], b, name);
    }
  }

  lemma {:induction false} AddrsOfKept(records: seq<Record>, keep: Record -> bool, name: string)
    requires forall r :: r in records && r.A? && r.name == name ==> keep(r)
    ensures AddrsOf(Filter(records, keep), name) == AddrsOf(records, name)
  {
    if records != [] {
      AddrsOfKept(records[1..], keep, name);
    }
  }

  lemma {:induction false} AddrsOfDropped(records: seq<Record>, keep: Record -> bool, name: string)
    requires forall r :: r in records && r.A? && r.name == name ==> !keep(r)
    ensures AddrsOf(Filter(records, keep), name) == []
  {
    if records != [] {
      AddrsOfDropped(records[1..], keep, name);
    }
  }

  /** The address the diff remembers for a name: the last one listed. */
  predicate LastIs(addrs: seq<int>, addr: int) {
    addrs != [] && addrs[|addrs| - 1] == addr
  }

  // ---------------------------------------------------------------- the diff

  function RecordName(r: Record): string { r.name }

  /** The A records a pass sets: sorted by name, one per wanted name whose remembered address differs. */
  ghost predicate IsSetList(plan: Plan, actual: seq<Record>, sets: seq<Record>) {
    && KeyOrdered(sets, RecordName)
    && forall r :: r in sets <==>
         r.A? && r.name in plan.want && r.addr == plan.want[r.name] && !LastIs(AddrsOf(actual, r.name), r.addr)
  }

  /** `present` holds, for every wanted name, the last address listed so far. */
  ghost predicate Remembers(plan: Plan, actual: seq<Record>, present: map<string, int>) {
    forall n :: n in plan.want ==>
      if n in present then LastIs(AddrsOf(actual, n), present[n]) else AddrsOf(actual, n) == []
  }

  function Remember(plan: Plan, present: map<string, int>, rec: Record): map<string, int> {
    if rec.A? && rec.name in plan.want then present[rec.name := rec.addr] else present
  }

  lemma RememberStep(plan: Plan, actual: seq<Record>, i: nat, present: map<string, int>)
    requires i < |actual| && Remembers(plan, actual[..i], present)
    ensures Remembers(plan, actual[..i + 1], Remember(plan, present, actual[i]))
  {
    var next := Remember(plan, present, actual[i]);
    forall n | n in plan.want
      ensures if n in next then LastIs(AddrsOf(actual[..i + 1], n), next[n]) else AddrsOf(actual[..i + 1], n) == []
    {
      AddrsOfAt(actual, i, n);
    }
  }

  /** The listing loop: what is present under a wanted name, and what is stale. */
  method ReadListing(plan: Plan, actual: seq<Record>) returns (present: map<string, int>, stale: seq<Record>)
    ensures stale == Filter(actual, IsStale(plan))
    ensures Remembers(plan, actual, present)
  {
    present, stale := map[], [];
    for i := 0 to |actual|
      invariant stale == Filter(actual[..i], IsStale(plan))
      invariant Remembers(plan, actual[..i], present)
    {
      FilterAt(actual, i, IsStale(plan));
      RememberStep(plan, actual, i, present);
      var rec := actual[i];
      if !rec.A? {
        continue;
      }
      if rec.name in plan.want {
        present := present[rec.name := rec.addr];
        continue;
      }
      if !Managed(plan, rec.name) {
        continue;
      }
      if MachineRelativeName(rec.name) in plan.keep {
        continue;  // stopped machine: records stay
      }
      stale := stale + [rec];
    }
    assert actual[..|actual|] == actual;
  }

  lemma AddrsOfAt(records: seq<Record>, i: nat, name: string)
    requires i < |records|
    ensures AddrsOf(records[..i + 1], name) ==
            AddrsOf(records[..i], name) + if records[i].A? && records[i].name == name then [records[i].addr] else []
  {
    assert records[..i + 1] == records[..i] + [records[i]];
    AddrsOfAppend(records[..i], [records[i]], name);
  }

  /** `reconcileZoneRecords` up to the provider calls. */
  method DiffZone(plan: Plan, actual: seq<Record>) returns (sets: seq<Record>, stale: seq<Record>)
    ensures IsSetList(plan, actual, sets)
    ensures stale == Filter(actual, IsStale(plan))
  {
    var present;
    present, stale := ReadListing(plan, actual);
    sets := [];
    var names := plan.want.Keys;
    while names != {}
      invariant names <= plan.want.Keys
      invariant KeyOrdered(sets, RecordName)
      invariant forall r :: r in sets <==>
        r.A? && r.name in plan.want.Keys - names && r.addr == plan.want[r.name] && !LastIs(AddrsOf(actual, r.name), r.addr)
    {
      var name :| name in names;
      if !(name in present && present[name] == plan.want[name]) {
        InsertOrdered(sets, A(name, plan.want[name]), RecordName);
        sets := Insert(sets, A(name, plan.want[name]), RecordName);
      }
      names := names - {name};
    }
  }

  // ---------------------------------------------------------------- the provider

  function NotSetBy(sets: seq<Record>): Record -> bool {
    (r: Record) => !(r.A? && exists s :: s in sets && s.name == r.name)
  }

  /** `SetRecords` replaces all A records of the names it is given. */
  function SetRecords(records: seq<Record>, sets: seq<Record>): seq<Record> {
    Filter(records, NotSetBy(sets)) + sets
  }

  function NotIn(gone: seq<Record>): Record -> bool {
    (r: Record) => r !in gone
  }

  function DeleteRecords(records: seq<Record>, gone: seq<Record>): seq<Record> {
    Filter(records, NotIn(gone))
  }

  /** The zone's records after a pass whose provider calls succeed. */
  function After(actual: seq<Record>, sets: seq<Record>, stale: seq<Record>): seq<Record> {
    DeleteRecords(SetRecords(actual, sets), stale)
  }

  // ---------------------------------------------------------------- the pass, one name at a time

  /** What a pass makes of the addresses of one name. */
  function PassName(plan: Plan, name: string, addrs: seq<int>): seq<int> {
    if name in plan.want then (if LastIs(addrs, plan.want[name]) then addrs else [plan.want[name]])
    else if Managed(plan, name) && MachineRelativeName(name) !in plan.keep then []
    else addrs
  }

  lemma {:induction false} SetListAddrs(sets: seq<Record>, name: string)
    requires KeyOrdered(sets, RecordName) && forall r :: r in sets ==> r.A?
    ensures forall addr :: A(name, addr) in sets ==> AddrsOf(sets, name) == [addr]
    ensures (forall addr :: A(name, addr) !in sets) ==> AddrsOf(sets, name) == []
  {
    if sets != [] {
      var rest := sets[1..];
      SetListAddrs(rest, name);
      forall r | r in rest ensures r.name != sets[0].name {
        TailMember(sets, RecordName, r);
        if r.name == sets[0].name {
          KeyUnique(sets, RecordName, r, sets[0]);
        }
      }
    }
  }

  /** The provider calls of a pass, seen at one name, are `PassName`. */
  lemma PassAtName(plan: Plan, actual: seq<Record>, sets: seq<Record>, stale: seq<Record>, name: string)
    requires IsSetList(plan, actual, sets) && stale == Filter(actual, IsStale(plan))
    ensures AddrsOf(After(actual, sets, stale), name) == PassName(plan, name, AddrsOf(actual, name))
  {
    var addrs := AddrsOf(actual, name);
    var kept := Filter(actual, NotSetBy(sets));
    SetListAddrs(sets, name);
    AddrsOfAppend(kept, sets, name);
    if name in plan.want && !LastIs(addrs, plan.want[name]) {
      assert A(name, plan.want[name]) in sets;
      AddrsOfDropped(actual, NotSetBy(sets), name);
      AddrsOfKept(kept + sets, NotIn(stale), name);
    } else {
      assert forall addr :: A(name, addr) !in sets;
      AddrsOfKept(actual, NotSetBy(sets), name) by {
        forall r | r in actual && r.A? && r.name == name ensures NotSetBy(sets)(r) {
          assert forall s :: s in sets ==> s == A(s.name, s.addr);
        }
      }
      if IsStale(plan)(A(name, 0)) {
        AddrsOfDropped(kept + sets, NotIn(stale), name) by {
          forall r | r in kept + sets && r.A? && r.name == name ensures !NotIn(stale)(r) {
            assert r == A(r.name, r.addr);
            assert r !in sets;
          }
        }
      } else {
        AddrsOfKept(kept + sets, NotIn(stale), name);
      }
    }
  }

  function IsOther(r: Record): bool { r.Other? }

  /** Records of every other type pass through untouched, in order. */
  lemma OthersUntouched(plan: Plan, actual: seq<Record>, sets: seq<Record>, stale: seq<Record>)
    requires IsSetList(plan, actual, sets) && stale == Filter(actual, IsStale(plan))
    ensures Filter(After(actual, sets, stale), IsOther) == Filter(actual, IsOther)
  {
    FilterTwice(actual, NotSetBy(sets), IsOther);
    OnlyA(sets);
    FilterOtherAppend(Filter(actual, NotSetBy(sets)), sets);
    FilterTwice(SetRecords(actual, sets), NotIn(stale), IsOther);
  }

  lemma {:induction false} FilterTwice(records: seq<Record>, first: Record -> bool, second: Record -> bool)
    requires forall r :: r in records && second(r) ==> first(r)
    ensures Filter(Filter(records, first), second) == Filter(records, second)
  {
    if records != [] {
      FilterTwice(records[1..], first, second);
    }
  }

  lemma {:induction false} OnlyA(sets: seq<Record>)
    requires forall r :: r in sets ==> r.A?
    ensures Filter(sets, IsOther) == []
  {
    if sets != [] {
      OnlyA(sets[1..]);
    }
  }

  lemma {:induction false} FilterOtherAppend(a: seq<Record>, b: seq<Record>)
    requires Filter(b, IsOther) == []
    ensures Filter(a + b, IsOther) == Filter(a, IsOther)
  {
    if a == [] {
      assert a + b == b;
    } else {
      assert (a + b)[1..] == a[1..] + b;
      FilterOtherAppend(a[1..], b);
    }
  }

  // ---------------------------------------------------------------- convergence

  /** The wanted names a pass leaves with a second address: the wanted one is listed last, another stays. */
  ghost predicate Shadowed(plan: Plan, actual: seq<Record>, name: string) {
    name in plan.want && LastIs(AddrsOf(actual, name), plan.want[name])
    && exists addr :: addr in AddrsOf(actual, name) && addr != plan.want[name]
  }

  /**
   A pass whose provider calls succeed gives every wanted name its wanted address, clears every managed
   name without a live target, and leaves all other names as they were.
   */
  lemma PassConverges(plan: Plan, actual: seq<Record>, sets: seq<Record>, stale: seq<Record>, name: string)
    requires IsSetList(plan, actual, sets) && stale == Filter(actual, IsStale(plan))
    ensures var before, after := AddrsOf(actual, name), AddrsOf(After(actual, sets, stale), name);
            && (name in plan.want ==> plan.want[name] in after)
            && (name in plan.want ==>
                  ((forall addr :: addr in after ==> addr == plan.want[name]) <==> !Shadowed(plan, actual, name)))
            && (name !in plan.want && Managed(plan, name) && MachineRelativeName(name) !in plan.keep ==> after == [])
            && (name !in plan.want && (!Managed(plan, name) || MachineRelativeName(name) in plan.keep) ==> after == before)
  {
    PassAtName(plan, actual, sets, stale, name);
  }

  /** Nothing to write. */
  ghost predicate Quiet(plan: Plan, actual: seq<Record>) {
    && (forall name :: name in plan.want ==> LastIs(AddrsOf(actual, name), plan.want[name]))
    && (forall r :: r in actual ==> !IsStale(plan)(r))
  }

  lemma QuietMeansNoWrites(plan: Plan, actual: seq<Record>, sets: seq<Record>, stale: seq<Record>)
    requires IsSetList(plan, actual, sets) && stale == Filter(actual, IsStale(plan))
    ensures Quiet(plan, actual) <==> sets == [] && stale == []
  {
    HasMember(sets);
    HasMember(stale);
    var hit := IsStale(plan);
    assert forall r :: r in stale <==> r in actual && hit(r);
    forall name | name in plan.want && !LastIs(AddrsOf(actual, name), plan.want[name])
      ensures A(name, plan.want[name]) in sets {}
  }

  /** An immediate second pass over the records as left issues no writes. */
  lemma SecondPassQuiet(plan: Plan, actual: seq<Record>, sets: seq<Record>, stale: seq<Record>)
    requires IsSetList(plan, actual, sets) && stale == Filter(actual, IsStale(plan))
    ensures Quiet(plan, After(actual, sets, stale))
  {
    var after := After(actual, sets, stale);
    forall name | name in plan.want ensures LastIs(AddrsOf(after, name), plan.want[name]) {
      PassAtName(plan, actual, sets, stale, name);
    }
    forall r | r in after ensures !IsStale(plan)(r) {
      if r.A? {
        PassAtName(plan, actual, sets, stale, r.name);
        AddrsOfMember(after, r.name, r.addr);
      }
    }
  }

  /** The same records, possibly listed in another order. */
  ghost predicate Relisted(a: seq<Record>, b: seq<Record>) {
    multiset(a) == multiset(b)
  }

  /** A provider that lists the records in another order sees no second write exactly when no name is shadowed. */
  lemma SecondPassQuietAnyOrder(plan: Plan, actual: seq<Record>, sets: seq<Record>, stale: seq<Record>)
    requires IsSetList(plan, actual, sets) && stale == Filter(actual, IsStale(plan))
    ensures (forall again :: Relisted(again, After(actual, sets, stale)) ==> Quiet(plan, again))
            <==> (forall name :: !Shadowed(plan, actual, name))
  {
    var after := After(actual, sets, stale);
    if forall name :: !Shadowed(plan, actual, name) {
      forall again | Relisted(again, after) ensures Quiet(plan, again) {
        RelistedQuiet(plan, actual, sets, stale, again);
      }
    } else {
      var name :| Shadowed(plan, actual, name);
      var again := ShadowedRelisting(plan, actual, sets, stale, name);
      assert !Quiet(plan, again);
    }
  }

  lemma RelistedMembers(a: seq<Record>, b: seq<Record>)
    requires Relisted(a, b)
    ensures forall r :: r in a <==> r in b
  {
    forall r ensures r in a <==> r in b {
      assert r in multiset(a) <==> r in multiset(b);
    }
  }

  lemma RelistedQuiet(plan: Plan, actual: seq<Record>, sets: seq<Record>, stale: seq<Record>, again: seq<Record>)
    requires IsSetList(plan, actual, sets) && stale == Filter(actual, IsStale(plan))
    requires Relisted(again, After(actual, sets, stale)) && forall name :: !Shadowed(plan, actual, name)
    ensures Quiet(plan, again)
  {
    var after := After(actual, sets, stale);
    RelistedMembers(again, after);
    SecondPassQuiet(plan, actual, sets, stale);
    forall name | name in plan.want ensures LastIs(AddrsOf(again, name), plan.want[name]) {
      PassConverges(plan, actual, sets, stale, name);
      var addrs := AddrsOf(again, name);
      AddrsOfMember(again, name, plan.want[name]);
      AddrsOfMember(after, name, plan.want[name]);
      assert addrs != [];
      var last := addrs[|addrs| - 1];
      AddrsOfMember(again, name, last);
      AddrsOfMember(after, name, last);
    }
  }

  lemma MovedToEnd(records: seq<Record>, i: nat)
    requires i < |records|
    ensures Relisted(records[..i] + records[i + 1..] + [records[i]], records)
  {
    assert records == records[..i] + [records[i]] + records[i + 1..];
  }

  /** Moving the surviving second address to the end of the listing makes the next pass write. */
  lemma ShadowedRelisting(plan: Plan, actual: seq<Record>, sets: seq<Record>, stale: seq<Record>, name: string)
    returns (again: seq<Record>)
    requires IsSetList(plan, actual, sets) && stale == Filter(actual, IsStale(plan))
    requires Shadowed(plan, actual, name)
    ensures Relisted(again, After(actual, sets, stale)) && !LastIs(AddrsOf(again, name), plan.want[name])
  {
    var after := After(actual, sets, stale);
    PassAtName(plan, actual, sets, stale, name);
    var addr :| addr in AddrsOf(actual, name) && addr != plan.want[name];
    AddrsOfMember(after, name, addr);
    var i :| 0 <= i < |after| && after[i] == A(name, addr);
    again := after[..i] + after[i + 1..] + [after[i]];
    MovedToEnd(after, i);
    AddrsOfAppend(after[..i] + after[i + 1..], [after[i]], name);
  }

  /**
   A concrete listing: the wanted address of "a" is listed last behind another one. The pass writes nothing and
   leaves both, and the same two records listed the other way round make the next pass write.
   */
  lemma ShadowedExample()
    ensures var plan := Plan(map["a" := 1], {"a"}, [], {"a"});
            var actual, again := [A("a", 2), A("a", 1)], [A("a", 1), A("a", 2)];
            && IsSetList(plan, actual, []) && Filter(actual, IsStale(plan)) == []
            && Shadowed(plan, actual, "a") && After(actual, [], []) == actual
            && Relisted(again, actual) && !Quiet(plan, again)
  {
    var plan := Plan(map["a" := 1], {"a"}, [], {"a"});
    var actual, again := [A("a", 2), A("a", 1)], [A("a", 1), A("a", 2)];
    ListedPair(2, 1);
    ListedPair(1, 2);
    assert 2 in AddrsOf(actual, "a");
    FilterAll(actual, NotSetBy([]));
    FilterAll(actual, NotIn([]));
    assert SetRecords(actual, []) == actual;
    assert multiset(again) == multiset(actual);
    assert "a" in plan.want && !LastIs(AddrsOf(again, "a"), plan.want["a"]);
  }

  lemma ListedPair(first: int, second: int)
    ensures AddrsOf([A("a", first), A("a", second)], "a") == [first, second]
  {
    var records := [A("a", first), A("a", second)];
    assert records[1..] == [A("a", second)] && [A("a", second)][1..] == [];
    assert AddrsOf([A("a", second)], "a") == [second];
  }
}
