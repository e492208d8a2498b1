/**
 * The id generator: next() post-increments a function-local static size_t
 * counter, one per Target type, and returns the value it had. The value
 * is first stored in an int, so it passes through a 32-bit signed
 * conversion before being returned as a size_t again.
 */
module Id {
  /** size_t is 64 bits wide, int 32 bits. */
  const SizeLimit: nat := 0x1_0000_0000_0000_0000
  const IntLimit: nat := 0x1_0000_0000
  const IntMax: nat := 0x7FFF_FFFF

  /** Conversion of a size_t to int: the value modulo 2^32, read as a
    * two's-complement signed number. */
  function ToInt(n: nat): (r: int)
    ensures -(IntMax + 1) <= r <= IntMax
    ensures (r - n) % IntLimit == 0
    ensures n <= IntMax ==> r == n
  {
    var low := n % IntLimit;
    if low <= IntMax then low else low - IntLimit
  }

  /** Conversion of an int back to size_t: modulo 2^64. */
  function ToSize(i: int): (r: nat)
    ensures r < SizeLimit
    ensures (r - i) % SizeLimit == 0
    ensures 0 <= i < SizeLimit ==> r == i
  {
    i % SizeLimit
  }

  /** A Target type, named. */
  type Target = string

  class IdGenerators {
    /** The static counter of each Target type whose next() has run; the
      * others are still at their initial 0. */
    var counters: map<Target, nat>

    ghost predicate Valid()
      reads this
    {
      forall t :: t in counters ==> counters[t] < SizeLimit
    }

    /** The current counter of target. */
    function Counter(target: Target): (r: nat)
      reads this
      requires Valid()
      ensures r < SizeLimit
    {
      if target in counters then counters[target] else 0
    }

    constructor ()
      ensures Valid() && counters == map[]
      ensures forall t :: Counter(t) == 0
    {
      counters := map[];
    }

    /** next() as written: the counter's old value goes through an int.
      * Only the counter of target changes. */
    method NextAsWritten(target: Target) returns (r: nat)
      requires Valid()
      modifies this
      ensures Valid()
      ensures r == ToSize(ToInt(old(Counter(target))))
      ensures counters == old(counters)[target := (old(Counter(target)) + 1) % SizeLimit]
    {
      var id := Counter(target);
      counters := counters[target := (id + 1) % SizeLimit];
      var currentId := ToInt(id);
      r := ToSize(currentId);
    }

    /** next() as evidently intended: the counter's old value, as size_t.
      * Only the counter of target changes. */
    method Next(target: Target) returns (r: nat)
      requires Valid()
      modifies this
      ensures Valid()
      ensures r == old(Counter(target))
      ensures Counter(target) == (r + 1) % SizeLimit
      ensures forall t :: t != target ==> Counter(t) == old(Counter(t))
    {
      var id := Counter(target);
      counters := counters[target := (id + 1) % SizeLimit];
      r := id;
    }
  }

  /** Below INT_MAX the conversion through int is harmless. */
  lemma AsWrittenBelowIntMax(n: nat)
    requires n <= IntMax
    ensures ToSize(ToInt(n)) == n
  {
  }

  /** Ids count from 0, so the call that should return 2^31 returns
    * 2^64 - 2^31 instead. */
  lemma AsWrittenWrapsPastIntMax()
    ensures ToSize(ToInt(IntMax + 1)) == SizeLimit - (IntMax + 1)
    ensures ToSize(ToInt(IntMax + 1)) != IntMax + 1
  {
    assert ToInt(IntMax + 1) == -(IntMax + 1);
  }

  /** A fresh generator hands out 0, 1, 2 for one target, and a separate
    * sequence for another target. */
  method FirstIds() returns (a: nat, b: nat, c: nat, d: nat)
    ensures a == 0 && b == 1 && c == 0 && d == 2
  {
    var g := new IdGenerators();
    a := g.Next("session");
    b := g.Next("session");
    c := g.Next("message");
    d := g.Next("session");
  }
}
