/**
 `Allocate`: the checks, the block search with its 32-bit loop, and what repeated allocation hands out.
 */
module CidrAllocator {
  import opened Text
  import opened Cidr

  const DEFAULT_BITS := 24

  datatype Outcome =
    | Allocated(block: Prefix)
    | BadPool | NotV4 | LargerThanPool | TooFewHosts | BadOccupied | Exhausted

  function EffectiveBits(bits: int): int {
    if bits == 0 then DEFAULT_BITS else bits
  }

  /** `prefixContainsPrefix`: first and last address of the child lie in the parent. */
  predicate ContainsPrefix(parent: Prefix, child: Prefix) {
    && child.V4?
    && Covers(parent, child.addr)
    && Covers(parent, U32(U32(child.addr + U32(Size(child.bits))) - 1))
  }

  predicate OverlapsAny(c: Prefix, occupied: seq<Prefix>) {
    exists o :: o in occupied && Overlaps(c, o)
  }

  // ---------------------------------------------------------------- the blocks of a pool

  /** A pool the search runs on, with the size of the blocks it hands out. */
  ghost predicate Searchable(pool: Prefix, t: int) {
    pool.V4? && IsMasked(pool) && pool.bits <= t <= 30
  }

  ghost function Count(pool: Prefix, t: int): int
    requires Searchable(pool, t)
  {
    Pow2(t - pool.bits)
  }

  /** The pool's last address is not the last of the address space. */
  ghost predicate EndsBelow(pool: Prefix)
    requires pool.V4?
  {
    pool.addr + Size(pool.bits) < TWO32
  }

  lemma PoolGeometry(pool: Prefix, t: int)
    requires Searchable(pool, t)
    ensures Size(pool.bits) == Count(pool, t) * Size(t)
    ensures pool.addr % Size(t) == 0
    ensures pool.addr + Size(pool.bits) <= TWO32
  {
    MaskedIff(pool);
    Pow2Add(t - pool.bits, 32 - t);
    AlignedFiner(pool.addr, Count(pool, t), Size(t));
    PoolInSpace(pool);
  }

  /** An aligned prefix ends inside the address space. */
  lemma PoolInSpace(pool: Prefix)
    requires pool.V4? && IsMasked(pool)
    ensures pool.addr + Size(pool.bits) <= TWO32
  {
    var s, k := Size(pool.bits), Pow2(pool.bits);
    Pow2Add(pool.bits, 32 - pool.bits);
    Pow2Of32();
    MultipleAligned(0, s);
    MaskedIff(pool);
    var i := BlockNumber(0, k, s, pool.addr);
    BlockArithmetic(0, k, s, i);
  }

  /** Where the i-th block starts: one block size behind the one before. */
  ghost function BlockStart(pool: Prefix, t: int, i: nat): int
    requires Searchable(pool, t)
  {
    if i == 0 then pool.addr else BlockStart(pool, t, i - 1) + Size(t)
  }

  lemma {:induction false} BlockStartIs(pool: Prefix, t: int, i: nat)
    requires Searchable(pool, t)
    ensures BlockStart(pool, t, i) == pool.addr + i * Size(t)
  {
    if i > 0 {
      BlockStartIs(pool, t, i - 1);
    }
  }

  lemma BlockStartAligned(pool: Prefix, t: int, i: nat)
    requires Searchable(pool, t)
    ensures BlockStart(pool, t, i) % Size(t) == 0
  {
    PoolGeometry(pool, t);
    BlockStartIs(pool, t, i);
    BlockAligned(pool.addr, Size(t), i);
  }

  /** Later blocks start at least one block size behind. */
  lemma {:induction false} BlockOrder(pool: Prefix, t: int, i: nat, j: nat)
    requires Searchable(pool, t) && i < j
    ensures BlockStart(pool, t, i) + Size(t) <= BlockStart(pool, t, j)
  {
    if i < j - 1 {
      BlockOrder(pool, t, i, j - 1);
    }
  }

  /** The blocks fill the pool. */
  lemma BlocksFill(pool: Prefix, t: int)
    requires Searchable(pool, t)
    ensures BlockStart(pool, t, Count(pool, t)) == pool.addr + Size(pool.bits) <= TWO32
  {
    PoolGeometry(pool, t);
    BlockStartIs(pool, t, Count(pool, t));
  }

  /** Every block lies in the pool. */
  lemma BlockFits(pool: Prefix, t: int, i: int)
    requires Searchable(pool, t) && 0 <= i < Count(pool, t)
    ensures pool.addr <= BlockStart(pool, t, i) && BlockStart(pool, t, i) + Size(t) <= pool.addr + Size(pool.bits) <= TWO32
  {
    BlocksFill(pool, t);
    BlockOrder(pool, t, i, Count(pool, t));
    if i > 0 {
      BlockOrder(pool, t, 0, i);
    }
  }

  ghost function Block(pool: Prefix, t: int, i: int): (b: Prefix)
    requires Searchable(pool, t) && 0 <= i < Count(pool, t)
    ensures b.V4? && IsMasked(b) && b.bits == t
  {
    BlockFits(pool, t, i);
    BlockStartAligned(pool, t, i);
    MaskedIff(V4(BlockStart(pool, t, i), t));
    V4(BlockStart(pool, t, i), t)
  }

  /** Masking and the containment check never reject a block of the pool. */
  lemma BlockAdmitted(pool: Prefix, t: int, i: int)
    requires Searchable(pool, t) && 0 <= i < Count(pool, t)
    ensures Masked(Block(pool, t, i)) == Block(pool, t, i)
    ensures ContainsPrefix(pool, Block(pool, t, i))
  {
    var b, s := Block(pool, t, i), Size(t);
    BlockFits(pool, t, i);
    LastAddress(b.addr, s);
    CoversRange(pool, b.addr);
    CoversRange(pool, b.addr + s - 1);
  }

  /** The wrapped computation of a block's last address is exact. */
  lemma LastAddress(addr: int, s: int)
    requires 0 <= addr && 1 <= s && addr + s <= TWO32
    ensures U32(U32(addr + U32(s)) - 1) == addr + s - 1
  {}

  /** Every aligned prefix of the block size inside the pool is one of its blocks. */
  lemma BlockIndex(pool: Prefix, t: int, c: Prefix) returns (i: int)
    requires Searchable(pool, t) && c.V4? && IsMasked(c) && c.bits == t && InRange(pool, c.addr)
    ensures 0 <= i < Count(pool, t) && c == Block(pool, t, i)
  {
    PoolGeometry(pool, t);
    MaskedIff(c);
    i := BlockNumber(pool.addr, Count(pool, t), Size(t), c.addr);
    BlockStartIs(pool, t, i);
  }

  // ---------------------------------------------------------------- the search

  ghost predicate Free(pool: Prefix, t: int, occupied: seq<Prefix>, i: int)
    requires Searchable(pool, t) && 0 <= i < Count(pool, t)
  {
    !OverlapsAny(Block(pool, t, i), occupied)
  }

  /** The first free block from `i` on. */
  ghost function FirstFree(pool: Prefix, t: int, occupied: seq<Prefix>, i: int): (r: Option<int>)
    requires Searchable(pool, t) && 0 <= i <= Count(pool, t)
    ensures r.Some? ==> i <= r.value < Count(pool, t) && Free(pool, t, occupied, r.value)
    ensures forall j :: i <= j < (if r.Some? then r.value else Count(pool, t)) ==> !Free(pool, t, occupied, j)
    decreases Count(pool, t) - i
  {
    if i == Count(pool, t) then None
    else if Free(pool, t, occupied, i) then Some(i)
    else FirstFree(pool, t, occupied, i + 1)
  }

  /** What the search finds: nothing at all when the pool ends at the end of the address space. */
  ghost function Found(pool: Prefix, t: int, occupied: seq<Prefix>): Outcome
    requires Searchable(pool, t)
  {
    if !EndsBelow(pool) then Exhausted
    else
      var i := FirstFree(pool, t, occupied, 0);
      if i.Some? then Allocated(Block(pool, t, i.value)) else Exhausted
  }

  function Parsed(values: seq<Option<Prefix>>): Option<seq<Prefix>> {
    if values == [] then Some([])
    else
      var front, last := Parsed(values[..|values| - 1]), values[|values| - 1];
      if front.None? || last.None? then None else Some(front.value + [Masked(last.value)])
  }

  lemma {:induction false} ParsedMasked(values: seq<Option<Prefix>>)
    ensures Parsed(values).Some? <==> forall i :: 0 <= i < |values| ==> values[i].Some?
    ensures Parsed(values).Some? ==>
              |Parsed(values).value| == |values| &&
              forall i :: 0 <= i < |values| ==> Parsed(values).value[i] == Masked(values[i].value) && IsMasked(Parsed(values).value[i])
  {
    if values != [] {
      var front := values[..|values| - 1];
      ParsedMasked(front);
      assert forall i :: 0 <= i < |front| ==> values[i] == front[i];
      if values[|values| - 1].Some? {
        MaskedIsMasked(values[|values| - 1].value);
      }
    }
  }

  /** The whole call, on parsed arguments; None is text that does not parse. */
  ghost function Allocation(pool: Option<Prefix>, bits: int, occupied: seq<Option<Prefix>>): Outcome {
    if pool.None? then BadPool
    else if !pool.value.V4? then NotV4
    else
      var t, p := EffectiveBits(bits), Masked(pool.value);
      MaskedIsMasked(pool.value);
      if t < p.bits then LargerThanPool
      else if t > 30 then TooFewHosts
      else
        var occ := Parsed(occupied);
        if occ.None? then BadOccupied else Found(p, t, occ.value)
  }

  method MeetsAny(c: Prefix, occupied: seq<Prefix>) returns (hit: bool)
    ensures hit == OverlapsAny(c, occupied)
  {
    for i := 0 to |occupied|
      invariant forall j :: 0 <= j < i ==> !Overlaps(c, occupied[j])
    {
      if Overlaps(c, occupied[i]) {
        return true;
      }
    }
    return false;
  }

  method ParseOccupied(values: seq<Option<Prefix>>) returns (r: Option<seq<Prefix>>)
    ensures r == Parsed(values)
  {
    var prefixes: seq<Prefix> := [];
    for i := 0 to |values|
      invariant Parsed(values[..i]) == Some(prefixes)
    {
      assert values[..i + 1][..i] == values[..i];
      if values[i].None? {
        ParsedMasked(values);
        return None;
      }
      prefixes := prefixes + [Masked(values[i].value)];
    }
    assert values[..|values|] == values;
    return Some(prefixes);
  }

  /** `Allocate`. */
  method Allocate(pool: Option<Prefix>, bits: int, occupied: seq<Option<Prefix>>) returns (r: Outcome)
    ensures r == Allocation(pool, bits, occupied)
  {
    if pool.None? {
      return BadPool;
    }
    var p := Masked(pool.value);
    MaskedIsMasked(pool.value);
    if !p.V4? {
      return NotV4;
    }
    var t := bits;
    if t == 0 {
      t := DEFAULT_BITS;
    }
    if t < p.bits {
      return LargerThanPool;
    }
    if t > 30 {
      return TooFewHosts;
    }
    var occ := ParseOccupied(occupied);
    if occ.None? {
      return BadOccupied;
    }
    r := Search(p, t, occ.value);
  }

  /** The bounds of the search in 32-bit arithmetic: the end of the last pool wraps to zero. */
  method Search(p: Prefix, t: int, occupied: seq<Prefix>) returns (r: Outcome)
    requires Searchable(p, t)
    ensures r == Found(p, t, occupied)
  {
    var end := EndOf(p);
    r := Scan(p, t, occupied, p.addr, end, U32(Size(t)));
  }

  method EndOf(p: Prefix) returns (end: int)
    requires p.V4? && IsMasked(p)
    ensures end == SearchLimit(p)
  {
    PoolInSpace(p);
    EndWraps(p.addr, Size(p.bits));
    end := U32(p.addr + U32(Size(p.bits)));
  }

  /** One turn of the loop: the candidate at a position, unless it is outside the pool or occupied. */
  function Candidate(p: Prefix, t: int, occupied: seq<Prefix>, addr: int): Option<Prefix>
    requires 0 <= addr < TWO32 && 0 <= t <= 32
  {
    var c: Prefix := Masked(V4(addr, t));
    if ContainsPrefix(p, c) && !OverlapsAny(c, occupied) then Some(c) else None
  }

  method TryCandidate(p: Prefix, t: int, occupied: seq<Prefix>, addr: int) returns (r: Option<Prefix>)
    requires 0 <= addr < TWO32 && 0 <= t <= 32
    ensures r == Candidate(p, t, occupied, addr)
  {
    var c: Prefix := Masked(V4(addr, t));
    if !ContainsPrefix(p, c) {
      return None;
    }
    var hit := MeetsAny(c, occupied);
    r := if hit then None else Some(c);
  }

  /** Where the loop stands: on the i-th block's start, no earlier block being free. */
  ghost predicate Standing(p: Prefix, t: int, occupied: seq<Prefix>, current: int, i: int)
    requires Searchable(p, t)
  {
    && 0 <= i <= Count(p, t) && 0 <= current == BlockStart(p, t, i)
    && forall j :: 0 <= j < i ==> !Free(p, t, occupied, j)
  }

  /** Turns left before the end of the pool. */
  ghost function TurnsLeft(p: Prefix, t: int, i: int): nat
    requires Searchable(p, t)
  {
    if i < Count(p, t) then Count(p, t) - i else 0
  }

  /** The search loop; it never wraps, because its end would have wrapped first. */
  method Scan(p: Prefix, t: int, occupied: seq<Prefix>, start: int, end: int, step: int) returns (r: Outcome)
    requires Searchable(p, t)
    requires start == p.addr && end == SearchLimit(p) && step == U32(Size(t))
    ensures r == Found(p, t, occupied)
  {
    var current := start;
    ghost var i := 0;
    ScanStart(p, t, occupied);
    while current < end
      invariant Standing(p, t, occupied, current, i)
      decreases TurnsLeft(p, t, i)
    {
      var candidate, next := Turn(p, t, occupied, current, end, step, i);
      if candidate.Some? {
        return Allocated(candidate.value);
      }
      current := next;
      i := i + 1;
    }
    ScanEnd(p, t, occupied, current, i);
    return Exhausted;
  }

  /** Where the loop ends: behind the pool, or at once when that wraps. */
  ghost function SearchLimit(p: Prefix): int
    requires p.V4?
  {
    if EndsBelow(p) then p.addr + Size(p.bits) else 0
  }

  /** One turn: the candidate at the position, and the next position. */
  method Turn(p: Prefix, t: int, occupied: seq<Prefix>, current: int, end: int, step: int, ghost i: int)
    returns (candidate: Option<Prefix>, next: int)
    requires Searchable(p, t) && Standing(p, t, occupied, current, i)
    requires current < end == SearchLimit(p) && step == U32(Size(t))
    ensures if candidate.Some? then Found(p, t, occupied) == Allocated(candidate.value)
            else Standing(p, t, occupied, next, i + 1) && TurnsLeft(p, t, i + 1) < TurnsLeft(p, t, i)
  {
    ScanTurn(p, t, occupied, current, i);
    candidate := TryCandidate(p, t, occupied, current);
    next := U32(current + step);
  }

  lemma ScanStart(p: Prefix, t: int, occupied: seq<Prefix>)
    requires Searchable(p, t)
    ensures Standing(p, t, occupied, p.addr, 0)
  {}

  /** A turn of the loop before its end: it returns what the search finds, or stands on the next block. */
  lemma ScanTurn(p: Prefix, t: int, occupied: seq<Prefix>, current: int, i: int)
    requires Searchable(p, t) && Standing(p, t, occupied, current, i) && current < SearchLimit(p)
    ensures 0 <= current < TWO32 && 0 <= t <= 32 && i < Count(p, t)
    ensures var c := Candidate(p, t, occupied, current);
            if c.Some? then Found(p, t, occupied) == Allocated(c.value)
            else Standing(p, t, occupied, U32(current + U32(Size(t))), i + 1)
  {
    SearchStep(p, t, i);
    var c := Candidate(p, t, occupied, current);
    assert c == if Free(p, t, occupied, i) then Some(Block(p, t, i)) else None;
    if c.Some? {
      FirstIs(p, t, occupied, i);
    }
  }

  /** The block the search finds is the first free one. */
  lemma FirstIs(p: Prefix, t: int, occupied: seq<Prefix>, i: int)
    requires Searchable(p, t) && 0 <= i < Count(p, t) && Free(p, t, occupied, i)
    requires forall j :: 0 <= j < i ==> !Free(p, t, occupied, j)
    ensures FirstFree(p, t, occupied, 0) == Some(i)
  {
    var r := FirstFree(p, t, occupied, 0);
    assert r.Some? ==> Free(p, t, occupied, r.value);
  }

  /** At the end of the loop nothing was found. */
  lemma ScanEnd(p: Prefix, t: int, occupied: seq<Prefix>, current: int, i: int)
    requires Searchable(p, t) && Standing(p, t, occupied, current, i) && current >= SearchLimit(p)
    ensures Found(p, t, occupied) == Exhausted
  {
    SearchEnd(p, t, i);
    var r := FirstFree(p, t, occupied, 0);
    assert r.Some? ==> Free(p, t, occupied, r.value);
  }

  /** Before the end the loop stands on a block, and the next position does not wrap. */
  lemma SearchStep(p: Prefix, t: int, i: int)
    requires Searchable(p, t) && 0 <= i <= Count(p, t)
    requires EndsBelow(p) && BlockStart(p, t, i) < p.addr + Size(p.bits)
    ensures i < Count(p, t) && 0 <= BlockStart(p, t, i) < TWO32
    ensures Masked(V4(BlockStart(p, t, i), t)) == Block(p, t, i) && ContainsPrefix(p, Block(p, t, i))
    ensures U32(BlockStart(p, t, i) + U32(Size(t))) == BlockStart(p, t, i + 1)
  {
    BlocksFill(p, t);
    BlockAdmitted(p, t, i);
    SearchNext(p, t, i);
  }

  lemma SearchNext(p: Prefix, t: int, i: int)
    requires Searchable(p, t) && 0 <= i < Count(p, t) && EndsBelow(p)
    ensures 0 <= BlockStart(p, t, i) < TWO32
    ensures U32(BlockStart(p, t, i) + U32(Size(t))) == BlockStart(p, t, i + 1)
  {
    BlockFits(p, t, i);
    EndWraps(BlockStart(p, t, i), Size(t));
  }

  lemma SearchEnd(p: Prefix, t: int, i: int)
    requires Searchable(p, t) && 0 <= i <= Count(p, t)
    ensures BlockStart(p, t, i) >= p.addr + Size(p.bits) ==> i == Count(p, t)
  {
    if i < Count(p, t) {
      BlockFits(p, t, i);
    }
  }

  lemma EndWraps(start: int, size: int)
    requires 0 <= start && 1 <= size && start + size <= TWO32
    ensures U32(start + U32(size)) == if start + size < TWO32 then start + size else 0
  {}

  // ---------------------------------------------------------------- what an allocation means

  /** A block of the requested size inside the pool that shares no address with anything occupied. */
  ghost predicate Available(pool: Prefix, t: int, occupied: seq<Prefix>, c: Prefix) {
    && c.V4? && IsMasked(c) && c.bits == t && InRange(pool, c.addr)
    && forall o :: o in occupied ==> !Meet(c, o)
  }

  lemma FreeIsAvailable(pool: Prefix, t: int, occupied: seq<Prefix>, i: int)
    requires Searchable(pool, t) && 0 <= i < Count(pool, t) && forall o :: o in occupied ==> IsMasked(o)
    ensures Free(pool, t, occupied, i) <==> Available(pool, t, occupied, Block(pool, t, i))
  {
    var b := Block(pool, t, i);
    BlockFits(pool, t, i);
    forall o | o in occupied ensures Overlaps(b, o) <==> Meet(b, o) {
      OverlapExact(b, o);
    }
  }

  /** An allocated block is available, and no available block lies lower. */
  lemma LowestAvailable(pool: Prefix, t: int, occupied: seq<Prefix>, c: Prefix)
    requires Searchable(pool, t) && forall o :: o in occupied ==> IsMasked(o)
    requires Found(pool, t, occupied).Allocated?
    ensures var block := Found(pool, t, occupied).block;
            && Available(pool, t, occupied, block)
            && (Available(pool, t, occupied, c) ==> block.addr <= c.addr)
  {
    var i := FirstFree(pool, t, occupied, 0).value;
    FreeIsAvailable(pool, t, occupied, i);
    if Available(pool, t, occupied, c) {
      var j := AvailableBlock(pool, t, occupied, c);
      NotLower(pool, t, i, j);
    }
  }

  lemma AvailableBlock(pool: Prefix, t: int, occupied: seq<Prefix>, c: Prefix) returns (j: int)
    requires Searchable(pool, t) && Available(pool, t, occupied, c) && forall o :: o in occupied ==> IsMasked(o)
    ensures 0 <= j < Count(pool, t) && c == Block(pool, t, j) && Free(pool, t, occupied, j)
  {
    j := BlockIndex(pool, t, c);
    FreeIsAvailable(pool, t, occupied, j);
  }

  lemma NotLower(pool: Prefix, t: int, i: int, j: int)
    requires Searchable(pool, t) && 0 <= i <= j < Count(pool, t)
    ensures Block(pool, t, i).addr <= Block(pool, t, j).addr
  {
    if i < j {
      BlockOrder(pool, t, i, j);
    }
  }

  /** An available block of a pool that ends below 2^32 makes the search succeed. */
  lemma AvailableFound(pool: Prefix, t: int, occupied: seq<Prefix>, c: Prefix)
    requires Searchable(pool, t) && EndsBelow(pool) && forall o :: o in occupied ==> IsMasked(o)
    ensures Available(pool, t, occupied, c) ==> FirstFree(pool, t, occupied, 0).Some?
  {
    if Available(pool, t, occupied, c) {
      var j := AvailableBlock(pool, t, occupied, c);
    }
  }

  /** The search succeeds exactly when the pool ends below 2^32 and some block is available. */
  lemma FoundIff(pool: Prefix, t: int, occupied: seq<Prefix>)
    requires Searchable(pool, t) && forall o :: o in occupied ==> IsMasked(o)
    ensures Found(pool, t, occupied).Allocated? <==> EndsBelow(pool) && exists c :: Available(pool, t, occupied, c)
  {
    if Found(pool, t, occupied).Allocated? {
      LowestAvailable(pool, t, occupied, Found(pool, t, occupied).block);
    } else if EndsBelow(pool) {
      forall c ensures !Available(pool, t, occupied, c) {
        AvailableFound(pool, t, occupied, c);
      }
    }
  }

  /** The whole call allocates exactly when its arguments pass, the pool ends below 2^32 and a block is available. */
  lemma AllocatesIff(pool: Option<Prefix>, bits: int, occupied: seq<Option<Prefix>>)
    ensures Parsed(occupied).Some? <==> forall i :: 0 <= i < |occupied| ==> occupied[i].Some?
    ensures Allocation(pool, bits, occupied).Allocated? <==>
            && pool.Some? && pool.value.V4?
            && pool.value.bits <= EffectiveBits(bits) <= 30
            && Parsed(occupied).Some?
            && EndsBelow(Masked(pool.value))
            && exists c :: Available(Masked(pool.value), EffectiveBits(bits), Parsed(occupied).value, c)
  {
    ParsedMasked(occupied);
    if pool.Some? && pool.value.V4? && pool.value.bits <= EffectiveBits(bits) <= 30 && Parsed(occupied).Some? {
      MaskedIsMasked(pool.value);
      FoundIff(Masked(pool.value), EffectiveBits(bits), Parsed(occupied).value);
    }
  }

  /** The bits asked for; zero stands for 24. */
  function AskedBits(bits: int): int {
    if bits != 0 then bits else 24
  }

  /** The answers of a call, each with the arguments it is given to; the checks come in this order. */
  lemma AllocationAnswers(pool: Option<Prefix>, bits: int, occupied: seq<Option<Prefix>>)
    ensures var r := Allocation(pool, bits, occupied);
            && (r == BadPool <==> pool == None)
            && (r == NotV4 <==> pool.Some? && pool.value.V6?)
            && (r == LargerThanPool <==> pool.Some? && pool.value.V4? && AskedBits(bits) < pool.value.bits)
            && (r == TooFewHosts <==> pool.Some? && pool.value.V4? && AskedBits(bits) >= pool.value.bits && AskedBits(bits) > 30)
            && (r == BadOccupied <==>
                  && pool.Some? && pool.value.V4? && pool.value.bits <= AskedBits(bits) <= 30
                  && exists i :: 0 <= i < |occupied| && occupied[i] == None)
            && (r.Allocated? ==> r.block.V4? && r.block.bits == AskedBits(bits))
  {
    ParsedMasked(occupied);
  }

  /** A masked prefix keeps the size and holds the address it was given. */
  lemma MaskedIs(p: Prefix)
    requires p.V4?
    ensures var m := Masked(p);
            && m.V4? && m.bits == p.bits && m.addr % Size(p.bits) == 0 && m.addr <= p.addr < m.addr + Size(p.bits)
  {
    ClearAligns(p.addr, 32 - p.bits);
    QuotientBounds(p.addr, Size(p.bits));
    MultipleAligned(p.addr / Size(p.bits), Size(p.bits));
  }

  /** An occupied prefix blocks every address that shares its leading bits. */
  lemma OccupiedAre(occupied: seq<Option<Prefix>>)
    requires forall i :: 0 <= i < |occupied| ==> occupied[i].Some?
    ensures Parsed(occupied).Some? && |Parsed(occupied).value| == |occupied|
    ensures forall i :: 0 <= i < |occupied| && occupied[i].value.V4? ==>
              InRange(Parsed(occupied).value[i], occupied[i].value.addr) && Parsed(occupied).value[i].bits == occupied[i].value.bits
  {
    ParsedMasked(occupied);
    forall i | 0 <= i < |occupied| && occupied[i].value.V4?
      ensures InRange(Parsed(occupied).value[i], occupied[i].value.addr)
              && Parsed(occupied).value[i].bits == occupied[i].value.bits {
      MaskedIs(occupied[i].value);
    }
  }

  /** The failing family: a pool that reaches the end of the address space never allocates. */
  lemma LastPoolNeverAllocates(pool: Prefix, bits: int, occupied: seq<Option<Prefix>>)
    requires pool.V4? && Masked(pool).addr + Size(pool.bits) == TWO32
    ensures !Allocation(Some(pool), bits, occupied).Allocated?
  {
    AllocatesIff(Some(pool), bits, occupied);
  }

  /** A concrete one: 255.0.0.0/8 with nothing occupied and /24 tenants. */
  lemma LastPoolExample()
    ensures Allocation(Some(V4(0xff00_0000, 8)), 24, []) == Exhausted
  {
    var pool: Prefix := V4(0xff00_0000, 8);
    assert Size(8) == 0x100_0000 by {
      Pow2Add(8, 16);
      Pow2Add(8, 8);
      assert Pow2(8) == 256;
    }
    MaskedIff(pool);
    LastPoolNeverAllocates(pool, 24, []);
  }

  // ---------------------------------------------------------------- feeding results back

  /** Allocating n times from an empty pool, each result becoming occupied. */
  ghost function Feed(pool: Prefix, t: int, n: nat): (blocks: seq<Prefix>)
    requires Searchable(pool, t)
  {
    if n == 0 then []
    else
      var before := Feed(pool, t, n - 1);
      var r := Found(pool, t, before);
      if r.Allocated? then before + [r.block] else before
  }

  /** Different blocks never overlap, and a block overlaps itself. */
  lemma BlocksApart(pool: Prefix, t: int, i: int, j: int)
    requires Searchable(pool, t) && 0 <= i < Count(pool, t) && 0 <= j < Count(pool, t)
    ensures Overlaps(Block(pool, t, i), Block(pool, t, j)) <==> i == j
  {
    var a, b := Block(pool, t, i), Block(pool, t, j);
    CoversRange(a, b.addr);
    CoversRange(b, a.addr);
    if i < j {
      BlockOrder(pool, t, i, j);
    } else if j < i {
      BlockOrder(pool, t, j, i);
    }
  }

  lemma FreeIff(pool: Prefix, t: int, blocks: seq<Prefix>, j: int)
    requires Searchable(pool, t) && |blocks| <= Count(pool, t) && 0 <= j < Count(pool, t)
    requires forall i :: 0 <= i < |blocks| ==> blocks[i] == Block(pool, t, i)
    ensures Free(pool, t, blocks, j) <==> j >= |blocks|
  {
    if j < |blocks| {
      BlocksApart(pool, t, j, j);
      assert blocks[j] in blocks;
    } else {
      forall o | o in blocks ensures !Overlaps(Block(pool, t, j), o) {
        var i :| 0 <= i < |blocks| && blocks[i] == o;
        BlocksApart(pool, t, j, i);
      }
    }
  }

  /** With exactly the first n blocks occupied, block n is the first free one. */
  lemma FreeAfter(pool: Prefix, t: int, blocks: seq<Prefix>)
    requires Searchable(pool, t) && |blocks| <= Count(pool, t)
    requires forall i :: 0 <= i < |blocks| ==> blocks[i] == Block(pool, t, i)
    ensures FirstFree(pool, t, blocks, 0) == if |blocks| < Count(pool, t) then Some(|blocks|) else None
  {
    var r := FirstFree(pool, t, blocks, 0);
    if r.Some? {
      FreeIff(pool, t, blocks, r.value);
    }
    if |blocks| < Count(pool, t) {
      FreeIff(pool, t, blocks, |blocks|);
    }
  }

  /** From empty, the n-th call hands out the n-th block; there are exactly 2^(t - poolBits) successes. */
  lemma {:induction false} FeedHandsOutAll(pool: Prefix, t: int, n: nat)
    requires Searchable(pool, t) && EndsBelow(pool)
    ensures |Feed(pool, t, n)| == if n <= Count(pool, t) then n else Count(pool, t)
    ensures forall i :: 0 <= i < |Feed(pool, t, n)| ==> Feed(pool, t, n)[i] == Block(pool, t, i)
    ensures Found(pool, t, Feed(pool, t, n)).Allocated? <==> n < Count(pool, t)
  {
    if n > 0 {
      FeedHandsOutAll(pool, t, n - 1);
      FreeAfter(pool, t, Feed(pool, t, n - 1));
    }
    FreeAfter(pool, t, Feed(pool, t, n));
  }

  /** Blocks handed out one after the other never share an address. */
  lemma FeedDisjoint(pool: Prefix, t: int, n: nat, i: int, j: int)
    requires Searchable(pool, t) && EndsBelow(pool)
    requires 0 <= i < j < |Feed(pool, t, n)|
    ensures !Meet(Feed(pool, t, n)[i], Feed(pool, t, n)[j])
  {
    FeedHandsOutAll(pool, t, n);
    BlocksApart(pool, t, i, j);
    OverlapExact(Block(pool, t, i), Block(pool, t, j));
  }
}
