/**
 * The property-tree printer: the root's data on a line of its own, then
 * every child in order as its key and data, indented by one dash per
 * level, each child followed at once by its own subtree one level deeper.
 * Printed lines are returned as a sequence rather than written to the
 * standard output.
 */
module PtreePrinter {
  /** A property tree: a data string and an ordered list of keyed
    * children. */
  datatype PTree = PTree(data: string, children: seq<Child>)
  datatype Child = Child(key: string, tree: PTree)

  /** The number of nodes, the root included. */
  function Size(pt: PTree): (r: nat)
    ensures r >= 1
    decreases pt
  {
    1 + ChildrenSize(pt.children)
  }

  function ChildrenSize(cs: seq<Child>): nat
    decreases cs
  {
    if |cs| == 0 then 0 else ChildrenSize(cs[..|cs| - 1]) + Size(cs[|cs| - 1].tree)
  }

  /** A run of n dashes. */
  function Dashes(n: nat): (r: string)
    ensures |r| == n && forall i :: 0 <= i < n ==> r[i] == '-'
  {
    if n == 0 then "" else Dashes(n - 1) + "-"
  }

  /** The line printed for one child at the given depth. */
  function ChildLine(level: nat, c: Child): string {
    Dashes(level) + "<" + c.key + ", " + c.tree.data + ">"
  }

  /** The line printed for the root. */
  function RootLine(pt: PTree): string {
    "<" + pt.data + ">"
  }

  /** The lines print(pt, level) writes: one per node, the root line
    * first at level 0, one per descendant below it otherwise. */
  function Lines(pt: PTree, level: nat): (r: seq<string>)
    ensures level == 0 ==> |r| == Size(pt) && r[0] == RootLine(pt)
    ensures level > 0 ==> |r| == Size(pt) - 1
    decreases Size(pt), if level == 0 then 1 else 0
  {
    if level == 0 then [RootLine(pt)] + Lines(pt, 1)
    else ChildrenLines(pt.children, level)
  }

  /** The lines written for the children cs, in order, at depth level:
    * one per node of their subtrees. */
  function ChildrenLines(cs: seq<Child>, level: nat): (r: seq<string>)
    requires level > 0
    ensures |r| == ChildrenSize(cs)
    decreases ChildrenSize(cs), 2
  {
    if |cs| == 0 then []
    else
      var c := cs[|cs| - 1];
      ChildrenLines(cs[..|cs| - 1], level) + [ChildLine(level, c)] + Lines(c.tree, level + 1)
  }

  /** print(pt) with its default level = 0: the root line first, then one
    * line per node below it. */
  method PrintDefault(pt: PTree) returns (out: seq<string>)
    ensures out == Lines(pt, 0)
    ensures |out| == Size(pt) && out[0] == RootLine(pt)
  {
    out := Print(pt, 0);
  }

  /** print(pt, level): a loop over the children, each indented by a
    * counting-down dash loop, recursing into each child's subtree. */
  method Print(pt: PTree, level: nat) returns (out: seq<string>)
    ensures out == Lines(pt, level)
    decreases Size(pt), if level == 0 then 1 else 0
  {
    if level == 0 {
      var rest := Print(pt, level + 1);
      out := [RootLine(pt)] + rest;
    } else {
      out := [];
      var cs := pt.children;
      var i := 0;
      while i < |cs|
        invariant 0 <= i <= |cs|
        invariant out == ChildrenLines(cs[..i], level)
      {
        var l := level;
        var dashes := "";
        while l > 0
          invariant 0 <= l <= level
          invariant dashes == Dashes(level - l)
        {
          dashes := dashes + "-";
          l := l - 1;
        }
        ChildBelow(cs, i);
        var sub := Print(cs[i].tree, level + 1);
        assert cs[..i + 1][..i] == cs[..i];
        out := out + [dashes + "<" + cs[i].key + ", " + cs[i].tree.data + ">"] + sub;
        i := i + 1;
      }
      assert cs[..i] == cs;
    }
  }

  /** Every child's subtree is smaller than the list of children. */
  lemma {:induction false} ChildBelow(cs: seq<Child>, i: nat)
    requires i < |cs|
    ensures Size(cs[i].tree) <= ChildrenSize(cs)
    decreases |cs|
  {
    if i < |cs| - 1 {
      ChildBelow(cs[..|cs| - 1], i);
    }
  }

  /** A line indented by at least d dashes. */
  predicate Indented(line: string, d: nat) {
    |line| > d && forall k :: 0 <= k < d ==> line[k] == '-'
  }

  /** The root line comes first, unindented; every other line printed at
    * depth d starts with at least d dashes. */
  lemma {:induction false} LinesIndented(pt: PTree, level: nat)
    ensures level == 0 ==> Lines(pt, 0)[0] == RootLine(pt) && Lines(pt, 0)[1..] == Lines(pt, 1)
    ensures level > 0 ==> forall j :: 0 <= j < |Lines(pt, level)| ==> Indented(Lines(pt, level)[j], level)
    decreases Size(pt), if level == 0 then 1 else 0
  {
    if level > 0 {
      ChildrenLinesIndented(pt.children, level);
    }
  }

  lemma {:induction false} ChildrenLinesIndented(cs: seq<Child>, level: nat)
    requires level > 0
    ensures forall j :: 0 <= j < |ChildrenLines(cs, level)| ==> Indented(ChildrenLines(cs, level)[j], level)
    decreases ChildrenSize(cs), 2
  {
    if |cs| > 0 {
      var c := cs[|cs| - 1];
      var front := ChildrenLines(cs[..|cs| - 1], level);
      var sub := Lines(c.tree, level + 1);
      ChildrenLinesIndented(cs[..|cs| - 1], level);
      LinesIndented(c.tree, level + 1);
      var all := front + [ChildLine(level, c)] + sub;
      assert ChildrenLines(cs, level) == all;
      forall j | 0 <= j < |all|
        ensures Indented(all[j], level)
      {
        if j < |front| {
          assert all[j] == front[j];
        } else if j == |front| {
          assert all[j][..level] == Dashes(level);
        } else {
          assert all[j] == sub[j - |front| - 1];
          assert Indented(sub[j - |front| - 1], level + 1);
        }
      }
    }
  }

  /** Each child is printed as exactly level dashes and then its key and
    * data in angle brackets. */
  lemma ChildLineShape(level: nat, c: Child)
    ensures ChildLine(level, c)[..level] == Dashes(level)
    ensures ChildLine(level, c)[level..] == "<" + c.key + ", " + c.tree.data + ">"
  {
  }
}
