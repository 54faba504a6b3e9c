/** A fleet where two machines ask for one name: the registry where machine n holds machine m's derived name. */
module FleetExample {
  import opened Text
  import opened Names
  import opened Registry
  import opened RegistryInvariant
  import opened ExampleRegistry
  import opened ZoneRecords
  import opened ZoneFleet

  const M := Machine("t", "p", "m", "", Some(1))
  const N := Machine("t", "p", "n", "", Some(2))

  lemma DerivedOfM() returns (x: Target)
    ensures x in FleetTargets([M], Borrowing()) && x.hostname == "m.a.z.de" && x.zone == "z.de" && x.addr == Some(1)
  {
    OwnersFixed();
    assert "t" + "/" + "p" == "t/p";
    assert Derives(Borrowing(), M, Held("a.z.de"));
    assert Lower("m") == "m" && "m" + "." + "a.z.de" == "m.a.z.de";
    x := DerivedTarget([M], Borrowing(), M, Held("a.z.de"));
  }

  lemma HeldByN() returns (y: Target)
    ensures y in Classify(N, Borrowing()).targets && y.hostname == "m.a.z.de" && y.zone == "z.de" && y.addr == Some(2)
  {
    assert MachineRef(BORROWED) == "t" + "/" + "p" + "/" + "n";
    y := ClassifiedExplicit(Borrowing(), N, BORROWED);
  }

  lemma InBorrowing()
    ensures ZONE_ROW in Borrowing().zones && ZONE_ROW.name == "z.de" && ZONE_ROW.cloudflareZone == "z.de"
  {}

  lemma OrderTakesUp()
    ensures TakesUp(Borrowing(), [ZONE_ROW]) && NoRepeats([ZONE_ROW])
  {}

  /** Concretely: with m at address 1 and n at address 2, the loop leaves m's own name at another address. */
  lemma FleetServesExample(stores: Stores)
    ensures Inv(Install("", ""), Borrowing())
    ensures var name := RelativeName("m.a.z.de", LibdnsZone("z.de"));
            var records := RecordsOf(PassAll(Borrowing(), FleetTargets([M, N], Borrowing()), stores, [ZONE_ROW]), "z.de");
            !LastIs(AddrsOf(records, name), 1)
  {
    BorrowingOk();
    OrderTakesUp();
    var x := DerivedOfM();
    var y := HeldByN();
    assert [M] + [N] == [M, N];
    InBorrowing();
    EarlierMachineNotServed(Install("", ""), Borrowing(), [M], N, stores, [ZONE_ROW], ZONE_ROW, x, y,
                            RelativeName("m.a.z.de", LibdnsZone("z.de")));
  }
}
