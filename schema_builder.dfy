/**
  The schema reader's mutable side: the tree under construction and the
  cursor, updated line by line, and the recursive release of the tree.
 */
module SchemaBuilder {
  import opened Wrappers
  import opened SchemaText
  import opened SchemaTree

  class Builder {
    var nodes: seq<Node>
    var cursor: Option<nat>

    function State(): Arena
      reads this
    {
      Arena(nodes, cursor)
    }

    ghost predicate Valid()
      reads this
    {
      WellFormed(State())
    }

    /** No node and no cursor yet. */
    constructor ()
      ensures Valid() && State() == Empty
    {
      nodes := [];
      cursor := None;
    }

    /**
      Applies one normalised line to the tree and the cursor. A refused line
      changes nothing. Nodes start with no leaves and no children.
     */
    method ParseLine(line: string) returns (ok: bool)
      requires Valid()
      modifies this
      ensures Valid()
      ensures ok <==> ApplyLine(old(State()), line).Ok?
      ensures ok ==> State() == ApplyLine(old(State()), line).value
      ensures !ok ==> State() == old(State())
    {
      var shape := ClassifyLine(line);
      if shape.Err? {
        return false;
      }
      match shape.value {
        case OpenTag(name) =>
          ghost var before := State();
          AddChildKeepsWellFormed(before, name);
          if cursor.None? {
            nodes := [Node(name, [], [], None)];
            cursor := Some(0);
          } else {
            var p := cursor.value;
            var child := |nodes|;
            nodes := nodes[p := nodes[p].(children := nodes[p].children + [child])];
            nodes := nodes + [Node(name, [], [], Some(p))];
            cursor := Some(child);
          }
          assert State() == AddChild(before, name);
        case CloseTag =>
          if cursor.None? {
            return false;
          }
          var parent := nodes[cursor.value].parent;
          if parent.Some? {
            cursor := parent;
          }
        case LeafLine(name, size) =>
          if cursor.None? {
            return false;
          }
          AppendLeafKeepsWellFormed(State(), Leaf(name, size));
          var c := cursor.value;
          nodes := nodes[c := nodes[c].(leaves := nodes[c].leaves + [Leaf(name, size)])];
      }
      ok := true;
    }

    /**
      The schema reader's per-line loop: comment lines are skipped, every
      other line is normalised in place and applied, and the loop stops at
      the first refused line.
     */
    method ParseLines(lines: seq<string>) returns (ok: bool)
      requires Valid()
      modifies this
      ensures Valid()
      ensures (State(), ok) == Build(old(State()), lines)
    {
      var i := 0;
      while i < |lines|
        invariant Valid() && i <= |lines|
        invariant Build(old(State()), lines) == Build(State(), lines[i..])
      {
        var line := lines[i];
        assert lines[i..][0] == line && lines[i..][1..] == lines[i + 1..];
        if CommentMarker in line {
          i := i + 1;
          continue;
        }
        var buffer := new char[|line|];
        forall k | 0 <= k < |line| {
          buffer[k] := line[k];
        }
        assert buffer[..] == line;
        var length := StripUnwanted(buffer);
        var parsed := ParseLine(buffer[..length]);
        if !parsed {
          return false;
        }
        i := i + 1;
      }
      return true;
    }

    /**
      Releases the subtree below the cursor: every node in it ends with no
      leaves and no children. Names and parent links stay as they were.
     */
    method FreeTree()
      requires Valid()
      modifies this
      ensures |nodes| == |old(nodes)| && cursor == old(cursor) && Shaped(nodes)
      ensures forall j :: 0 <= j < |nodes| ==>
                nodes[j].name == old(nodes[j].name) && nodes[j].parent == old(nodes[j].parent)
      ensures cursor.Some? ==> forall j :: 0 <= j < |nodes| ==>
                if Descends(old(nodes), j, cursor.value) then nodes[j].leaves == [] && nodes[j].children == []
                else nodes[j] == old(nodes[j])
      ensures cursor == Some(0) ==> forall j :: 0 <= j < |nodes| ==> nodes[j].leaves == [] && nodes[j].children == []
      ensures cursor.None? ==> nodes == old(nodes)
    {
      if cursor.Some? {
        ghost var before := nodes;
        FreeNode(cursor.value);
        forall j | 0 <= j < |nodes| && cursor == Some(0) ensures Descends(before, j, 0) {
          DescendsFromRoot(before, j);
        }
      }
    }

    /** Releases node `i` and, recursively, every node below it. */
    method FreeNode(i: nat)
      requires i < |nodes| && Shaped(nodes) && SubtreeListed(nodes, i)
      modifies this
      ensures |nodes| == |old(nodes)| && cursor == old(cursor) && Shaped(nodes)
      ensures forall j :: 0 <= j < |nodes| ==>
                nodes[j].name == old(nodes[j].name) && nodes[j].parent == old(nodes[j].parent)
      ensures forall j :: 0 <= j < |nodes| ==>
                if Descends(old(nodes), j, i) then nodes[j].leaves == [] && nodes[j].children == []
                else nodes[j] == old(nodes[j])
      decreases |nodes| - i, 1
    {
      ghost var original := nodes;
      var kids := nodes[i].children;
      ClearKeepsShaped(nodes, i, nodes[i].(leaves := []));
      nodes := nodes[i := nodes[i].(leaves := [])];
      FreeChildren(original, i, kids);
      ClearKeepsShaped(nodes, i, nodes[i].(children := []));
      nodes := nodes[i := nodes[i].(children := [])];
      SubtreeIsChildSubtrees(original, i, kids);
    }

    /** Releases, one after another, the subtrees of the children of node `i`. */
    method FreeChildren(ghost original: seq<Node>, i: nat, kids: seq<nat>)
      requires i < |original| && Shaped(original) && SubtreeListed(original, i)
      requires kids == original[i].children
      requires nodes == original[i := original[i].(leaves := [])]
      modifies this
      ensures |nodes| == |original| && cursor == old(cursor) && Shaped(nodes)
      ensures forall j :: 0 <= j < |nodes| ==>
                nodes[j].name == original[j].name && nodes[j].parent == original[j].parent
      ensures nodes[i] == original[i].(leaves := [])
      ensures forall j :: 0 <= j < |nodes| ==>
                if UnderSome(original, kids, j) then nodes[j].leaves == [] && nodes[j].children == []
                else j == i || nodes[j] == original[j]
      decreases |original| - i, 0
    {
      ClearKeepsShaped(original, i, original[i].(leaves := []));
      var k := 0;
      while k < |kids|
        invariant k <= |kids| && |nodes| == |original| && cursor == old(cursor) && Shaped(nodes)
        invariant forall j :: 0 <= j < |nodes| ==>
                    nodes[j].name == original[j].name && nodes[j].parent == original[j].parent
        invariant nodes[i] == original[i].(leaves := [])
        invariant forall j :: 0 <= j < |nodes| ==>
                    if UnderSome(original, kids[..k], j) then nodes[j].leaves == [] && nodes[j].children == []
                    else j == i || nodes[j] == original[j]
      {
        ReleaseReady(original, nodes, i, kids, k);
        ghost var before := nodes;
        FreeNode(kids[k]);
        ReleasedChild(original, before, nodes, i, kids, k);
        k := k + 1;
      }
      assert kids[..k] == kids;
    }
  }

  /** Emptying the leaves or the children of one node keeps the arena's shape. */
  lemma ClearKeepsShaped(nodes: seq<Node>, i: nat, n: Node)
    requires Shaped(nodes) && i < |nodes|
    requires n.parent == nodes[i].parent
    requires n.children == [] || n.children == nodes[i].children
    ensures Shaped(nodes[i := n])
  {
    var r := nodes[i := n];
    assert forall j :: 0 <= j < |nodes| ==> r[j].parent == nodes[j].parent;
  }

  /** The subtree of `i` is `i` together with the subtrees of its children. */
  lemma SubtreeIsChildSubtrees(nodes: seq<Node>, i: nat, kids: seq<nat>)
    requires i < |nodes| && Shaped(nodes) && SubtreeListed(nodes, i) && kids == nodes[i].children
    ensures forall j :: 0 <= j < |nodes| ==> (Descends(nodes, j, i) <==> j == i || UnderSome(nodes, kids, j))
  {
    forall j | 0 <= j < |nodes| && j != i && Descends(nodes, j, i)
      ensures UnderSome(nodes, kids, j)
    {
      DescendsAbove(nodes, j, i);
      DescendsThroughChild(nodes, j, i);
    }
    forall j | 0 <= j < |nodes| && UnderSome(nodes, kids, j)
      ensures Descends(nodes, j, i)
    {
      var m :| 0 <= m < |kids| && Descends(nodes, j, kids[m]);
      assert Descends(nodes, kids[m], i);
      DescendsTransitive(nodes, j, kids[m], i);
    }
  }

  /** After child `kids[k]` is released, the loop's description of the arena covers one more child. */
  lemma ReleasedChild(original: seq<Node>, before: seq<Node>, after: seq<Node>, i: nat, kids: seq<nat>, k: nat)
    requires i < |original| && Shaped(original) && kids == original[i].children && k < |kids|
    requires |before| == |original| && |after| == |original|
    requires forall j :: 0 <= j < |before| ==> before[j].name == original[j].name && before[j].parent == original[j].parent
    requires before[i] == original[i].(leaves := [])
    requires forall j :: 0 <= j < |before| ==>
               if UnderSome(original, kids[..k], j) then before[j].leaves == [] && before[j].children == []
               else j == i || before[j] == original[j]
    requires forall j :: 0 <= j < |after| ==> after[j].name == before[j].name && after[j].parent == before[j].parent
    requires forall j :: 0 <= j < |after| ==>
               if Descends(before, j, kids[k]) then after[j].leaves == [] && after[j].children == []
               else after[j] == before[j]
    ensures forall j :: 0 <= j < |after| ==> after[j].name == original[j].name && after[j].parent == original[j].parent
    ensures after[i] == original[i].(leaves := [])
    ensures forall j :: 0 <= j < |after| ==>
              if UnderSome(original, kids[..k + 1], j) then after[j].leaves == [] && after[j].children == []
              else j == i || after[j] == original[j]
  {
    var c := kids[k];
    assert i < c;
    forall j | 0 <= j < |after| ensures Descends(before, j, c) == Descends(original, j, c) {
      DescendsStable(before, original, j, c);
    }
    if Descends(original, i, c) {
      DescendsAbove(original, i, c);
    }
    forall j | 0 <= j < |after|
      ensures UnderSome(original, kids[..k + 1], j) <==> UnderSome(original, kids[..k], j) || Descends(original, j, c)
    {
      if UnderSome(original, kids[..k + 1], j) {
        var m :| 0 <= m < k + 1 && Descends(original, j, kids[..k + 1][m]);
        if m < k { assert kids[..k + 1][m] == kids[..k][m]; }
      }
      if UnderSome(original, kids[..k], j) {
        var m :| 0 <= m < k && Descends(original, j, kids[..k][m]);
        assert kids[..k + 1][m] == kids[..k][m];
      }
      if Descends(original, j, c) {
        assert kids[..k + 1][k] == c;
      }
    }
  }

  /** Node `j` lies in the subtree of one of `kids`. */
  ghost predicate UnderSome(nodes: seq<Node>, kids: seq<nat>, j: nat) {
    exists m :: 0 <= m < |kids| && Descends(nodes, j, kids[m])
  }

  /**
    Before child `kids[k]` of `i` is released, its subtree is still intact:
    the earlier children's subtrees, the only parts already cleared, do not
    meet it.
   */
  lemma ReleaseReady(original: seq<Node>, nodes: seq<Node>, i: nat, kids: seq<nat>, k: nat)
    requires i < |original| && Shaped(original) && SubtreeListed(original, i)
    requires kids == original[i].children && k < |kids|
    requires Shaped(nodes) && |nodes| == |original|
    requires forall j :: 0 <= j < |nodes| ==> nodes[j].parent == original[j].parent
    requires forall j :: 0 <= j < |nodes| && !UnderSome(original, kids[..k], j) && j != i ==> nodes[j] == original[j]
    ensures kids[k] < |nodes| && SubtreeListed(nodes, kids[k])
  {
    var c := kids[k];
    forall j | c < j < |nodes| && Descends(nodes, j, c)
      ensures j in nodes[nodes[j].parent.value].children
    {
      DescendsStable(nodes, original, j, c);
      var p := original[j].parent.value;
      assert Descends(original, p, c);
      DescendsAbove(original, p, c);
      DescendsTransitive(original, j, c, i);
      assert j in original[p].children;
      if UnderSome(original, kids[..k], p) {
        var m :| 0 <= m < k && Descends(original, p, kids[..k][m]);
        SiblingSubtreesDisjoint(original, p, c, kids[m]);
        assert false;
      }
    }
  }
}
