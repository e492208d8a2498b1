/**
 * The storage state: iostream-style state bits (bad, eof, fail) and an
 * exception mask. Setting a state bit that is also in the mask raises an
 * exception; the model reports that as a returned flag, after the state
 * has been changed, as the source does before it throws.
 *
 * The state type is an enumeration whose operators work on its int
 * value; int is 32 bits wide here, so states are bv32.
 */
module Sts {
  type State = bv32

  const GoodBit: State := 0
  const BadBit: State := 1
  const EofBit: State := 2
  const FailBit: State := 4
  const StateEnd: State := 0x1_0000

  /** Whether the flag bit f is set in s. */
  predicate Has(s: State, f: State) {
    s & f != 0
  }

  /** Whether a state s raises an exception under the mask. */
  predicate Throws(mask: State, s: State) {
    mask & s != 0
  }


  /** operator&: bitwise on the int values. */
  function And(a: State, b: State): (r: State)
    ensures Has(r, BadBit) <==> (Has(a, BadBit) && Has(b, BadBit))
    ensures Has(r, EofBit) <==> (Has(a, EofBit) && Has(b, EofBit))
    ensures Has(r, FailBit) <==> (Has(a, FailBit) && Has(b, FailBit))
  {
    a & b
  }

  /** operator|. */
  function Or(a: State, b: State): (r: State)
    ensures Has(r, BadBit) <==> (Has(a, BadBit) || Has(b, BadBit))
    ensures Has(r, EofBit) <==> (Has(a, EofBit) || Has(b, EofBit))
    ensures Has(r, FailBit) <==> (Has(a, FailBit) || Has(b, FailBit))
  {
    a | b
  }

  /** operator^. */
  function Xor(a: State, b: State): (r: State)
    ensures Has(r, BadBit) <==> (Has(a, BadBit) != Has(b, BadBit))
    ensures Has(r, EofBit) <==> (Has(a, EofBit) != Has(b, EofBit))
    ensures Has(r, FailBit) <==> (Has(a, FailBit) != Has(b, FailBit))
  {
    a ^ b
  }

  /** operator~. */
  function Not(a: State): (r: State)
    ensures Has(r, BadBit) <==> !Has(a, BadBit)
    ensures Has(r, EofBit) <==> !Has(a, EofBit)
    ensures Has(r, FailBit) <==> !Has(a, FailBit)
  {
    !a
  }

  class Sts {
    var state: State
    var exception: State

    /** A new state is good and throws on nothing. */
    constructor ()
      ensures state == GoodBit && exception == GoodBit
      ensures Good()
    {
      state := GoodBit;
      exception := GoodBit;
    }

    /** good(): no bit set, so none of the three flags is raised. */
    predicate Good()
      reads this
      ensures Good() ==> !Has(state, BadBit) && !Has(state, EofBit) && !Has(state, FailBit)
    {
      state == 0
    }

    /** eof(). */
    predicate Eof()
      reads this
      ensures Eof() ==> !Good()
    {
      Has(state, EofBit)
    }

    /** fail(): bad or fail set. */
    predicate Fail()
      reads this
      ensures Fail() <==> Has(state, BadBit) || Has(state, FailBit)
    {
      Has(state, Or(BadBit, FailBit))
    }

    /** bad(). */
    predicate Bad()
      reads this
      ensures Bad() ==> !Good()
    {
      Has(state, BadBit)
    }

    /** operator!: the same as fail(). */
    predicate Failed()
      reads this
      ensures Failed() <==> Fail()
    {
      Fail()
    }

    /** rdstate(). */
    function RdState(): (r: State)
      reads this
      ensures r == GoodBit <==> Good()
      ensures Has(r, EofBit) <==> Eof()
      ensures Has(r, BadBit) <==> Bad()
    {
      state
    }

    /** exceptions(): the mask. */
    function Exceptions(): (r: State)
      reads this
      ensures r == GoodBit <==> forall f :: !Throws(exception, f)
    {
      assert Throws(exception, exception) <==> exception != 0;
      exception
    }

    /** clear(f): the state becomes f; throws when the mask and the new
      * state share a bit. */
    method Clear(f: State) returns (thrown: bool)
      modifies this`state
      ensures state == f
      ensures thrown == Throws(exception, f)
    {
      state := f;
      thrown := Throws(exception, state);
    }

    /** clear() with the default argument: back to good, never throws. */
    method ClearAll() returns (thrown: bool)
      modifies this`state
      ensures state == GoodBit && Good() && !thrown
    {
      thrown := Clear(GoodBit);
    }

    /** setstate(f): adds the bits of f to the state, keeping those set. */
    method SetState(f: State) returns (thrown: bool)
      modifies this`state
      ensures state == Or(old(state), f)
      ensures thrown == Throws(exception, state)
    {
      thrown := Clear(Or(RdState(), f));
    }

    /** exceptions(ex): replaces the mask and re-checks the unchanged
      * state against it. */
    method SetExceptions(ex: State) returns (thrown: bool)
      modifies this`exception, this`state
      ensures exception == ex && state == old(state)
      ensures thrown == Throws(ex, state)
    {
      exception := ex;
      thrown := Clear(state);
    }
  }

  /** fail() is bad or fail; bad implies fail; good means no flag. */
  lemma StatePredicates(s: Sts)
    ensures s.Fail() <==> Has(s.state, BadBit) || Has(s.state, FailBit)
    ensures s.Bad() ==> s.Fail()
    ensures s.Good() ==> !s.Eof() && !s.Fail() && !s.Bad()
  {
  }

  /** Once a flag is set, setstate keeps it; the flags it is given are set;
    * setting the bad bit makes the state fail. */
  lemma SetStateKeepsFlags(prior: State, f: State)
    ensures Has(prior, BadBit) ==> Has(Or(prior, f), BadBit)
    ensures Has(prior, EofBit) ==> Has(Or(prior, f), EofBit)
    ensures Has(prior, FailBit) ==> Has(Or(prior, f), FailBit)
    ensures Has(f, BadBit) ==> Has(Or(prior, f), Or(BadBit, FailBit))
  {
  }

  /** A mask that names a flag throws exactly when that flag is set. */
  lemma SingleFlagMask(s: State)
    ensures Throws(BadBit, s) <==> Has(s, BadBit)
    ensures Throws(FailBit, s) <==> Has(s, FailBit)
    ensures Throws(EofBit, s) <==> Has(s, EofBit)
    ensures !Throws(GoodBit, s)
  {
  }
}
