/**
 * The processors that walk a query's IR tree: the dispatcher choosing a
 * processor by (parent kind, child kind), the initializer collecting
 * names, the attacher binding storage, and the executor combining an
 * operation's index range with its parent's keyset.
 *
 * An operation's index range is the set of primary keys stored in the
 * index of the operation's name, in the storage it is attached to.
 */
module Processor {
  import opened Keys
  import opened Wrappers
  import Storehouse
  import IR
  import Algorithm

  /** The node kinds of the processor trees; Root is the generic node
    * above the table. */
  datatype Kind = Root | Table | LogicAnd | LogicOr | Operation

  /** An entry of a processor tree: (parent kind, child kind). */
  datatype Path = Path(parent: Kind, child: Kind)

  /** The dispatcher as written: a table child under a table parent goes to
    * the (table, logic_or) entry, and a logic_or child under a table goes
    * nowhere. */
  function DispatchAsWritten(parent: Kind, current: Kind): (r: Option<Path>)
    ensures r.Some? ==> r.value.parent == parent && IsInner(parent) && IsBranch(r.value.child)
    ensures parent != Table ==> r == Dispatch(parent, current)
  {
    match parent
    case Table =>
      (match current
       case Operation => Some(Path(Table, Operation))
       case LogicAnd => Some(Path(Table, LogicAnd))
       case Table => Some(Path(Table, LogicOr))
       case _ => None)
    case LogicAnd =>
      (match current
       case Operation => Some(Path(LogicAnd, Operation))
       case LogicAnd => Some(Path(LogicAnd, LogicAnd))
       case LogicOr => Some(Path(LogicAnd, LogicOr))
       case _ => None)
    case LogicOr =>
      (match current
       case Operation => Some(Path(LogicOr, Operation))
       case LogicAnd => Some(Path(LogicOr, LogicAnd))
       case LogicOr => Some(Path(LogicOr, LogicOr))
       case _ => None)
    case _ => None
  }

  /** The parents and children the processor trees list below a table. */
  predicate IsInner(k: Kind) {
    k == Table || k == LogicAnd || k == LogicOr
  }

  predicate IsBranch(k: Kind) {
    k == Operation || k == LogicAnd || k == LogicOr
  }

  /** The nine (parent, child) entries the processor trees list below the
    * table: a table, logic_and or logic_or parent over a logic_and,
    * logic_or or operation child. */
  const BranchEntries: set<Path> := {
    Path(Table, LogicAnd), Path(Table, LogicOr), Path(Table, Operation),
    Path(LogicAnd, LogicAnd), Path(LogicAnd, LogicOr), Path(LogicAnd, Operation),
    Path(LogicOr, LogicAnd), Path(LogicOr, LogicOr), Path(LogicOr, Operation)
  }

  /** The dispatch the trees call for: each listed (parent, child) pair goes
    * to its own entry, everything else nowhere. */
  function Dispatch(parent: Kind, current: Kind): (r: Option<Path>)
    ensures r.Some? <==> Path(parent, current) in BranchEntries
    ensures r.Some? ==> r.value == Path(parent, current)
  {
    if IsInner(parent) && IsBranch(current) then Some(Path(parent, current)) else None
  }

  /** The written dispatch agrees with the intended one except below a
    * table, where a table child is misrouted and a logic_or child dropped. */
  lemma DispatchDiffers(parent: Kind, current: Kind)
    ensures DispatchAsWritten(parent, current) != Dispatch(parent, current) <==>
              parent == Table && (current == Table || current == LogicOr)
    ensures DispatchAsWritten(Table, Table) == Some(Path(Table, LogicOr))
    ensures DispatchAsWritten(Table, LogicOr) == None
  {
  }

  /** The actions of the attacher tree. */
  datatype AttachAction = BindRepository | BindIndex

  /** The attacher tree: the table below the root is bound to the
    * repository, every operation to an index. */
  function AttacherAt(p: Path): (r: Option<AttachAction>)
    ensures r == Some(BindRepository) <==> p == Path(Root, Table)
    ensures r == Some(BindIndex) <==> IsInner(p.parent) && p.child == Operation
  {
    if p == Path(Root, Table) then Some(BindRepository)
    else if IsInner(p.parent) && p.child == Operation then Some(BindIndex)
    else None
  }

  /** The actions of the executor tree. */
  datatype ExecAction = IntoTable | Intersect | Unite

  /** The executor tree: actions sit only on edges whose child is an
    * operation, chosen by the parent. */
  function ExecutorAt(p: Path): (r: Option<ExecAction>)
    ensures r.Some? <==> IsInner(p.parent) && p.child == Operation
    ensures r == Some(IntoTable) <==> p == Path(Table, Operation)
    ensures r == Some(Intersect) <==> p == Path(LogicAnd, Operation)
    ensures r == Some(Unite) <==> p == Path(LogicOr, Operation)
  {
    if p.child != Operation then None
    else match p.parent
      case Table => Some(IntoTable)
      case LogicAnd => Some(Intersect)
      case LogicOr => Some(Unite)
      case _ => None
  }

  /** ir_initializer: the table name and the operation names in visit
    * order. */
  class Initializer {
    var tableName: string
    var indexes: seq<string>

    constructor ()
      ensures tableName == [] && indexes == []
    {
      tableName := [];
      indexes := [];
    }

    method VisitTable(t: IR.Table)
      modifies this`tableName
      ensures tableName == t.name
    {
      tableName := t.name;
    }

    method VisitOperation(op: IR.Operation)
      modifies this`indexes
      ensures indexes == old(indexes) + [op.name]
    {
      indexes := indexes + [op.name];
    }
  }

  /** storage_attacher: opens the storehouse of the table with the
    * collected index names and binds it to the nodes. */
  class Attacher {
    const storehouse: Storehouse.Storehouse

    constructor (table: string, indexNames: seq<string>)
      ensures storehouse.Valid() && storehouse.name == table
      ensures storehouse.indexer.indexes.Keys == set n | n in indexNames
    {
      storehouse := new Storehouse.Storehouse.Open(table, indexNames);
    }

    method VisitTable(t: IR.Table)
      modifies t`repository
      ensures t.repository == storehouse
    {
      t.repository := storehouse;
    }

    method VisitOperation(op: IR.Operation)
      modifies op`index
      ensures op.index == storehouse
    {
      op.SetIndex(storehouse);
    }
  }

  /** The primary keys of the operation's index. */
  function IndexRange(op: IR.Operation): (r: set<Key>)
    requires op.index != null
    reads op, op.index.indexer
    ensures forall k :: k in r <==>
              exists e :: e in Storehouse.Named(op.index.indexer.indexes, op.name) && e.value == k
  {
    var es := Storehouse.Named(op.index.indexer.indexes, op.name);
    Algorithm.Seconds(es)
  }

  /** query_executor for an operation under a table: the table's keyset
    * receives the operation's index range. */
  method ExecuteTable(op: IR.Operation, t: IR.Table)
    requires op.index != null
    modifies t`keyset
    ensures t.keyset == old(t.keyset) + IndexRange(op)
  {
    t.keyset := t.keyset + IndexRange(op);
  }

  /** Under a logic_and: the keyset becomes the index range intersected with
    * the old keyset. */
  method ExecuteAnd(op: IR.Operation, l: IR.LogicAnd)
    requires op.index != null
    modifies l`keyset
    ensures l.keyset == IndexRange(op) * old(l.keyset)
  {
    var keyset := IndexRange(op) * l.keyset;
    l.keyset := keyset;
  }

  /** Under a logic_or: the keyset becomes the index range united with the
    * old keyset. */
  method ExecuteOr(op: IR.Operation, l: IR.LogicOr)
    requires op.index != null
    modifies l`keyset
    ensures l.keyset == IndexRange(op) + old(l.keyset)
  {
    var keyset := IndexRange(op) + l.keyset;
    l.keyset := keyset;
  }
}
