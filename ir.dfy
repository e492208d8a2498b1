/**
 * The intermediate representation of a query: a tree of table, logic_and,
 * logic_or and operation nodes. Tables and the two logic nodes carry an
 * ordered, duplicate-free keyset of primary keys; an operation carries a
 * comparison kind, the name of the index it reads and the storage it is
 * attached to.
 */
module IR {
  import opened Keys
  import Storehouse

  /** The comparison kinds of an operation, in declaration order. */
  datatype OpKind =
    | EqualTo | NotEqualTo | Greater | GreaterEqual | Less | LessEqual
    | BeginWith | Contain | EndWith | In | NotIn | Between
    | Root | NotRoot | Function

  /** The number of comparison kinds. */
  const OpKindCount: nat := 15

  /** The enumerator value of a kind: its position in the declaration. */
  function Ordinal(k: OpKind): (r: nat)
    ensures r < OpKindCount
  {
    match k
    case EqualTo => 0
    case NotEqualTo => 1
    case Greater => 2
    case GreaterEqual => 3
    case Less => 4
    case LessEqual => 5
    case BeginWith => 6
    case Contain => 7
    case EndWith => 8
    case In => 9
    case NotIn => 10
    case Between => 11
    case Root => 12
    case NotRoot => 13
    case Function => 14
  }

  /** The kind with a given enumerator value. */
  function FromOrdinal(n: nat): (r: OpKind)
    requires n < OpKindCount
  {
    if n == 0 then EqualTo
    else if n == 1 then NotEqualTo
    else if n == 2 then Greater
    else if n == 3 then GreaterEqual
    else if n == 4 then Less
    else if n == 5 then LessEqual
    else if n == 6 then BeginWith
    else if n == 7 then Contain
    else if n == 8 then EndWith
    else if n == 9 then In
    else if n == 10 then NotIn
    else if n == 11 then Between
    else if n == 12 then Root
    else if n == 13 then NotRoot
    else Function
  }

  /** There are exactly fifteen kinds: the enumerator values 0..14 and the
    * kinds correspond one to one. */
  lemma OrdinalBijection(k: OpKind, n: nat)
    requires n < OpKindCount
    ensures FromOrdinal(Ordinal(k)) == k
    ensures Ordinal(FromOrdinal(n)) == n
  {
  }

  /** A table node. */
  class Table {
    var name: string
    var keyset: set<Key>
    /** The storage the attacher binds; null until then. */
    var repository: Storehouse.Storehouse?

    constructor ()
      ensures name == [] && keyset == {} && repository == null
    {
      name := [];
      keyset := {};
      repository := null;
    }

    /** name(s). */
    method SetName(s: string)
      modifies this`name
      ensures name == s && Name() == s
    {
      name := s;
    }

    /** name(). */
    function Name(): (r: string)
      reads this
    {
      name
    }
  }

  /** A logic_and node. */
  class LogicAnd {
    var keyset: set<Key>

    constructor ()
      ensures keyset == {}
    {
      keyset := {};
    }
  }

  /** A logic_or node. */
  class LogicOr {
    var keyset: set<Key>

    constructor ()
      ensures keyset == {}
    {
      keyset := {};
    }
  }

  /** An operation node. */
  class Operation {
    var op: OpKind
    var name: string
    /** The storage whose index the operation reads; null until attached. */
    var index: Storehouse.Storehouse?

    /** operation(): the kind defaults to equal_to. */
    constructor Default()
      ensures op == EqualTo && name == [] && index == null
    {
      op := EqualTo;
      name := [];
      index := null;
    }

    /** operation(kind). */
    constructor (kind: OpKind)
      ensures op == kind && name == [] && index == null
    {
      op := kind;
      name := [];
      index := null;
    }

    method SetName(s: string)
      modifies this`name
      ensures name == s && Name() == s
    {
      name := s;
    }

    function Name(): (r: string)
      reads this
    {
      name
    }

    /** op2set(kind): replaces the comparison kind. */
    method Op2Set(kind: OpKind)
      modifies this`op
      ensures op == kind
    {
      op := kind;
    }

    /** keyset(set&&): ignores its argument. */
    method SetKeyset(ks: set<Key>)
      ensures unchanged(this)
    {
    }

    /** index(ptr): binds the storage. */
    method SetIndex(s: Storehouse.Storehouse?)
      modifies this`index
      ensures index == s
    {
      index := s;
    }
  }
}
