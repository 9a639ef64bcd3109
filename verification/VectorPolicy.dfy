/** The growth and shrink policy of VectorImpl and its amortised cost. */
module VectorPolicy {
  import opened Arithmetic

  const MIN_CAPACITY: nat := 4

  function Max(a: nat, b: nat): nat {
    if a > b then a else b
  }

  /** The capacity after _grow to newSize items. */
  function Grown(capacity: nat, newSize: nat): nat {
    if capacity < newSize then Max(MIN_CAPACITY, (newSize * 3 + 1) / 2) else capacity
  }

  /** The capacity after _shrink to newSize items. */
  function Shrunk(capacity: nat, newSize: nat): nat {
    if newSize * 3 < capacity then Max(MIN_CAPACITY, newSize * 2) else capacity
  }

  /** Size, capacity and the items moved so far by changes of capacity. */
  datatype Gauge = Gauge(size: nat, capacity: nat, moved: nat)

  datatype Op = Push | Pop

  function Step(g: Gauge, op: Op): Gauge {
    match op
    case Push =>
      Gauge(g.size + 1, Grown(g.capacity, g.size + 1), g.moved + if g.capacity < g.size + 1 then g.size else 0)
    case Pop =>
      if g.size == 0 then g
      else Gauge(g.size - 1, Shrunk(g.capacity, g.size - 1),
                 g.moved + if (g.size - 1) * 3 < g.capacity then g.size - 1 else 0)
  }

  function Run(ops: seq<Op>): Gauge {
    if ops == [] then Gauge(0, 0, 0) else Step(Run(ops[..|ops| - 1]), ops[|ops| - 1])
  }

  /** The buffer is never too small and never more than three times too large. */
  predicate Bounded(g: Gauge) {
    g.size <= g.capacity <= Max(MIN_CAPACITY, 3 * g.size)
  }

  /** Work saved up for the next change of capacity. */
  function Potential(g: Gauge): nat {
    Max(0, if 3 * g.size >= 2 * g.capacity then 3 * g.size - 2 * g.capacity else 0)
    + Max(0, if g.capacity >= 2 * g.size then g.capacity - 2 * g.size else 0)
  }

  lemma StepCost(g: Gauge, op: Op)
    requires Bounded(g)
    ensures Bounded(Step(g, op))
    ensures Step(g, op).moved + Potential(Step(g, op)) <= g.moved + Potential(g) + 5
  {
  }

  /**
    From an empty vector every run of pushes and pops keeps the capacity between the size
    and max(4, 3 * size) and moves at most five items per operation in all.
   */
  lemma {:induction false} AmortisedMoves(ops: seq<Op>)
    ensures Bounded(Run(ops)) && Run(ops).moved + Potential(Run(ops)) <= 5 * |ops|
  {
    if ops != [] {
      AmortisedMoves(ops[..|ops| - 1]);
      StepCost(Run(ops[..|ops| - 1]), ops[|ops| - 1]);
    }
  }

  lemma {:induction false} RunSize(ops: seq<Op>)
    ensures Run(ops).size <= |ops|
  {
    if ops != [] {
      RunSize(ops[..|ops| - 1]);
    }
  }

  // ---------- in a size_t ----------

  /** What _grow asks malloc for in a size_t of so many values: a header and the new capacity. */
  function Request(newSize: nat, itemSize: nat, header: nat, values: nat): nat
    requires values > 0
  {
    var capacity := Max(MIN_CAPACITY, (newSize * 3 + 1) % values / 2);
    (header + capacity * itemSize % values) % values
  }

  /** Neither the capacity nor its bytes wrap around. */
  predicate Growable(newSize: nat, itemSize: nat, header: nat, values: nat) {
    newSize * 3 + 1 < values && header + Max(MIN_CAPACITY, (newSize * 3 + 1) / 2) * itemSize < values
  }

  lemma Product(a: nat, b: nat, c: nat)
    requires a <= b
    ensures a * c <= b * c
  {
  }

  lemma WrapOnce(x: nat, values: nat)
    requires values > 0 && x < 2 * values
    ensures x % values == if x < values then x else x - values
  {
    DivUnique(x, values, if x < values then 0 else 1, if x < values then x else x - values);
  }

  /** A header and some bytes, below twice the values: wrapping the bytes first makes no difference. */
  lemma RequestOf(bytes: nat, header: nat, values: nat)
    requires header + bytes < 2 * values && header < values
    ensures (header + bytes % values) % values == if header + bytes < values then header + bytes else header + bytes - values
  {
    WrapOnce(bytes, values);
    WrapOnce(header + bytes % values, values);
  }

  /** Where the capacity does not wrap around, the request is enough if and only if its bytes do not either. */
  lemma BytesDecide(newSize: nat, itemSize: nat, header: nat, values: nat)
    requires newSize > MIN_CAPACITY && itemSize >= 1 && header + newSize * itemSize < values && newSize * 3 + 1 < values
    ensures Request(newSize, itemSize, header, values) >= header + newSize * itemSize <==>
            Growable(newSize, itemSize, header, values)
  {
    var capacity, bytes := (newSize * 3 + 1) / 2, newSize * itemSize;
    WrapOnce(newSize * 3 + 1, values);
    Product(newSize, capacity, itemSize);
    Product(capacity, 2 * newSize, itemSize);
    assert bytes <= capacity * itemSize <= 2 * newSize * itemSize == 2 * bytes;
    RequestOf(capacity * itemSize, header, values);
  }

  /** Where it does, the capacity is smaller than the size. */
  lemma CapacityWraps(newSize: nat, itemSize: nat, header: nat, values: nat)
    requires newSize > MIN_CAPACITY && itemSize >= 1 && header >= 2 && header + newSize * itemSize < values
    requires newSize * 3 + 1 >= values
    ensures Request(newSize, itemSize, header, values) < header + newSize * itemSize
  {
    Product(1, itemSize, newSize);
    var x := (newSize * 3 + 1) % values;
    if newSize * 3 + 1 < 2 * values {
      WrapOnce(newSize * 3 + 1, values);
    } else {
      DivUnique(newSize * 3 + 1, values, 2, newSize * 3 + 1 - 2 * values);
    }
    var capacity := Max(MIN_CAPACITY, x / 2);
    assert capacity < newSize;
    Product(capacity, newSize - 1, itemSize);
    assert (newSize - 1) * itemSize == newSize * itemSize - itemSize;
    RequestOf(capacity * itemSize, header, values);
  }

  /**
    For more than four items that an address space can hold, what _grow asks for is enough for them
    if and only if neither the capacity nor its bytes wrap around.
   */
  lemma RequestIsEnough(newSize: nat, itemSize: nat, header: nat, values: nat)
    requires newSize > MIN_CAPACITY && itemSize >= 1 && header >= 2 && header + newSize * itemSize < values
    ensures Request(newSize, itemSize, header, values) >= header + newSize * itemSize <==>
            Growable(newSize, itemSize, header, values)
  {
    if newSize * 3 + 1 < values {
      BytesDecide(newSize, itemSize, header, values);
    } else {
      CapacityWraps(newSize, itemSize, header, values);
    }
  }

  /** 0x55555556 one-byte items in a 32-bit size_t: room for four of them. */
  lemma GrowthWraps()
    ensures Request(0x5555_5556, 1, 16, 0x1_0000_0000) == 20
  {
  }

  lemma GrowableBelow(n: nat, m: nat, itemSize: nat, header: nat, values: nat)
    requires n <= m && Growable(m, itemSize, header, values)
    ensures Growable(n, itemSize, header, values)
  {
    Product(Max(MIN_CAPACITY, (n * 3 + 1) / 2), Max(MIN_CAPACITY, (m * 3 + 1) / 2), itemSize);
  }

  /** If the longest run of pushes can grow, so can every run that is as long. */
  lemma NextIsGrowable(ops: seq<Op>, n: nat, itemSize: nat, header: nat, values: nat)
    requires n < |ops| && Growable(|ops|, itemSize, header, values)
    ensures Growable(Run(ops[..n]).size + 1, itemSize, header, values)
  {
    RunSize(ops[..n]);
    GrowableBelow(Run(ops[..n]).size + 1, |ops|, itemSize, header, values);
  }

  /** The test of _shrink is right if and only if three times the size does not wrap around below the capacity. */
  predicate ShrinkTested(newSize: nat, capacity: nat, values: nat)
    requires values > 0
  {
    newSize * 3 < values || newSize * 3 % values >= capacity
  }

  lemma ShrinkTestIsRight(newSize: nat, capacity: nat, values: nat)
    requires newSize <= capacity < values
    ensures (newSize * 3 % values < capacity <==> newSize * 3 < capacity) <==> ShrinkTested(newSize, capacity, values)
  {
    if newSize * 3 < values {
      WrapOnce(newSize * 3, values);
    }
  }

  /** 3 * 2^30 one-byte items that are left, in a 32-bit size_t: the new capacity would be smaller. */
  lemma ShrinkWraps()
    ensures var n := 0xc000_0000; !ShrinkTested(n, n + 0x1000, 0x1_0000_0000) && n * 2 % 0x1_0000_0000 < n
  {
  }
}
