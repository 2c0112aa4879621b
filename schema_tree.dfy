/**
  The schema tree, stored as an arena: every node lives at an index of one
  sequence, lists its children by index and names its parent by index. A
  node is always stored after its parent, so the root is node 0.

  The builder's state is the arena together with the cursor, the node that
  the next line of schema text works on (None until the first tag).
 */
module SchemaTree {
  import opened Wrappers
  import opened SchemaText

  /** One scalar field of the wire format: a name and a size in bytes. */
  datatype Leaf = Leaf(name: string, size: nat)

  /** One nesting level of the schema. */
  datatype Node = Node(name: string, leaves: seq<Leaf>, children: seq<nat>, parent: Option<nat>)

  /** The nodes built so far and the cursor of the builder. */
  datatype Arena = Arena(nodes: seq<Node>, cursor: Option<nat>)

  /** The state before the first line: no node and no cursor. */
  const Empty := Arena([], None)

  // ---------------------------------------------------------------------
  // Invariant of the arena
  // ---------------------------------------------------------------------

  /** Node 0 is the only node without a parent, and every parent is stored before its child. */
  ghost predicate ParentsBefore(nodes: seq<Node>) {
    && (|nodes| > 0 ==> nodes[0].parent.None?)
    && forall j :: 0 < j < |nodes| ==> nodes[j].parent.Some? && nodes[j].parent.value < j
  }

  /** Every listed child is stored after the node that lists it and names that node as its parent. */
  ghost predicate ChildrenLinked(nodes: seq<Node>) {
    forall j, k :: 0 <= j < |nodes| && 0 <= k < |nodes[j].children| ==>
      j < nodes[j].children[k] < |nodes| && nodes[nodes[j].children[k]].parent == Some(j)
  }

  /** Children are listed in the order they were added, hence each at most once. */
  ghost predicate ChildrenSorted(nodes: seq<Node>) {
    forall j, k, k' :: 0 <= j < |nodes| && 0 <= k < k' < |nodes[j].children| ==>
      nodes[j].children[k] < nodes[j].children[k']
  }

  /** Every node other than the root is listed among the children of its parent. */
  ghost predicate ChildrenListed(nodes: seq<Node>)
    requires ParentsBefore(nodes)
  {
    forall j :: 0 < j < |nodes| ==> j in nodes[nodes[j].parent.value].children
  }

  /** What the arena keeps while its nodes are being released. */
  ghost predicate Shaped(nodes: seq<Node>) {
    ParentsBefore(nodes) && ChildrenLinked(nodes) && ChildrenSorted(nodes)
  }

  /**
    The parent relation and the child lists are inverse to each other, and the
    cursor is a stored node exactly when some node exists.
   */
  ghost predicate WellFormed(a: Arena) {
    && Shaped(a.nodes)
    && ChildrenListed(a.nodes)
    && (a.cursor.None? <==> |a.nodes| == 0)
    && (a.cursor.Some? ==> a.cursor.value < |a.nodes|)
  }

  // ---------------------------------------------------------------------
  // The three edits a schema line can make
  // ---------------------------------------------------------------------

  /**
    An opening tag: the first one creates the root; any later one appends a
    new, empty node to the end of the cursor's children, with the cursor as
    its parent. The cursor moves to the new node.
   */
  function AddChild(a: Arena, name: string): (r: Arena)
    requires WellFormed(a)
    ensures a.cursor.None? ==> r.nodes == [Node(name, [], [], None)] && r.cursor == Some(0)
    ensures a.cursor.Some? ==>
              var p := a.cursor.value;
              && |r.nodes| == |a.nodes| + 1
              && r.cursor == Some(|a.nodes|)
              && r.nodes[|a.nodes|] == Node(name, [], [], Some(p))
              && r.nodes[p] == a.nodes[p].(children := a.nodes[p].children + [|a.nodes|])
              && forall j :: 0 <= j < |a.nodes| && j != p ==> r.nodes[j] == a.nodes[j]
  {
    if a.cursor.None? then Arena([Node(name, [], [], None)], Some(0))
    else
      var p := a.cursor.value;
      var child := |a.nodes|;
      var nodes := a.nodes[p := a.nodes[p].(children := a.nodes[p].children + [child])];
      Arena(nodes + [Node(name, [], [], Some(p))], Some(child))
  }

  /** A closing tag: the cursor moves to its node's parent, or stays at a node without one. */
  function Ascend(a: Arena): (r: Arena)
    requires WellFormed(a) && a.cursor.Some?
    ensures r.nodes == a.nodes
    ensures r.cursor == (if a.nodes[a.cursor.value].parent.Some? then a.nodes[a.cursor.value].parent else a.cursor)
  {
    var parent := a.nodes[a.cursor.value].parent;
    if parent.Some? then Arena(a.nodes, parent) else a
  }

  /** A leaf line: the leaf goes to the end of the cursor node's leaves; nothing else changes. */
  function AppendLeaf(a: Arena, leaf: Leaf): (r: Arena)
    requires WellFormed(a) && a.cursor.Some?
    ensures r.cursor == a.cursor && |r.nodes| == |a.nodes|
    ensures r.nodes[a.cursor.value] == a.nodes[a.cursor.value].(leaves := a.nodes[a.cursor.value].leaves + [leaf])
    ensures forall j :: 0 <= j < |a.nodes| && j != a.cursor.value ==> r.nodes[j] == a.nodes[j]
  {
    var c := a.cursor.value;
    Arena(a.nodes[c := a.nodes[c].(leaves := a.nodes[c].leaves + [leaf])], a.cursor)
  }

  /** Adding a node keeps the parent relation and the child lists inverse to each other. */
  lemma AddChildKeepsWellFormed(a: Arena, name: string)
    requires WellFormed(a)
    ensures WellFormed(AddChild(a, name))
  {
    if a.cursor.Some? {
      AddChildParents(a, name);
      AddChildLinked(a, name);
      AddChildSorted(a, name);
      AddChildListed(a, name);
    }
  }

  lemma AddChildParents(a: Arena, name: string)
    requires WellFormed(a) && a.cursor.Some?
    ensures ParentsBefore(AddChild(a, name).nodes)
  {
    var r := AddChild(a, name);
    forall j | 0 < j < |r.nodes| ensures r.nodes[j].parent.Some? && r.nodes[j].parent.value < j {
      if j < |a.nodes| { assert r.nodes[j].parent == a.nodes[j].parent; }
    }
  }

  lemma AddChildLinked(a: Arena, name: string)
    requires WellFormed(a) && a.cursor.Some?
    ensures ChildrenLinked(AddChild(a, name).nodes)
  {
    var r := AddChild(a, name);
    var p := a.cursor.value;
    forall j, k | 0 <= j < |r.nodes| && 0 <= k < |r.nodes[j].children|
      ensures j < r.nodes[j].children[k] < |r.nodes| && r.nodes[r.nodes[j].children[k]].parent == Some(j)
    {
      if j != p || k < |a.nodes[p].children| {
        var c := a.nodes[j].children[k];
        assert r.nodes[j].children[k] == c;
        assert r.nodes[c].parent == a.nodes[c].parent;
      }
    }
  }

  lemma AddChildSorted(a: Arena, name: string)
    requires WellFormed(a) && a.cursor.Some?
    ensures ChildrenSorted(AddChild(a, name).nodes)
  {
    var r := AddChild(a, name);
    var p := a.cursor.value;
    forall j, k, k' | 0 <= j < |r.nodes| && 0 <= k < k' < |r.nodes[j].children|
      ensures r.nodes[j].children[k] < r.nodes[j].children[k']
    {
      if j == p && k' == |a.nodes[p].children| {
        assert r.nodes[j].children[k] == a.nodes[j].children[k];
      } else {
        assert r.nodes[j].children[k] == a.nodes[j].children[k];
        assert r.nodes[j].children[k'] == a.nodes[j].children[k'];
      }
    }
  }

  lemma AddChildListed(a: Arena, name: string)
    requires WellFormed(a) && a.cursor.Some?
    requires ParentsBefore(AddChild(a, name).nodes)
    ensures ChildrenListed(AddChild(a, name).nodes)
  {
    var r := AddChild(a, name);
    var p := a.cursor.value;
    forall j | 0 < j < |r.nodes| ensures j in r.nodes[r.nodes[j].parent.value].children {
      if j < |a.nodes| {
        var q := a.nodes[j].parent.value;
        assert r.nodes[j].parent.value == q;
        assert j in a.nodes[q].children;
        assert a.nodes[q].children <= r.nodes[q].children;
      } else {
        assert r.nodes[p].children[|a.nodes[p].children|] == j;
      }
    }
  }

  // ---------------------------------------------------------------------
  // One line of schema text
  // ---------------------------------------------------------------------

  /** The edit one normalised line makes to the builder's state, or why the line is refused. */
  function ApplyLine(a: Arena, line: string): (r: Result<Arena, LineError>)
    requires WellFormed(a)
    ensures r.Ok? ==> WellFormed(r.value)
    ensures (r.Err? && r.error.LineLength?) <==> |line| == 0 || |line| > MaxLineLength
    ensures r.Err? && r.error != NoCurrentNode ==> ClassifyLine(line) == Err(r.error)
    ensures r.Err? <==> ClassifyLine(line).Err? || (!ClassifyLine(line).value.OpenTag? && a.cursor.None?)
  {
    match ClassifyLine(line)
    case Err(e) => Err(e)
    case Ok(OpenTag(name)) =>
      AddChildKeepsWellFormed(a, name);
      Ok(AddChild(a, name))
    case Ok(CloseTag) =>
      if a.cursor.None? then Err(NoCurrentNode) else Ok(Ascend(a))
    case Ok(LeafLine(name, size)) =>
      if a.cursor.None? then Err(NoCurrentNode)
      else
        AppendLeafKeepsWellFormed(a, Leaf(name, size));
        Ok(AppendLeaf(a, Leaf(name, size)))
  }

  /** Leaves play no part in the arena's invariant. */
  lemma AppendLeafKeepsWellFormed(a: Arena, leaf: Leaf)
    requires WellFormed(a) && a.cursor.Some?
    ensures WellFormed(AppendLeaf(a, leaf))
  {
    SameLinksKeepWellFormed(a, AppendLeaf(a, leaf));
  }

  /** Only the parents and child lists matter to the invariant, not names or leaves. */
  lemma SameLinksKeepWellFormed(a: Arena, r: Arena)
    requires WellFormed(a) && r.cursor == a.cursor && |r.nodes| == |a.nodes|
    requires forall j :: 0 <= j < |a.nodes| ==>
               r.nodes[j].children == a.nodes[j].children && r.nodes[j].parent == a.nodes[j].parent
    ensures WellFormed(r)
  {
    assert ParentsBefore(r.nodes);
    assert ChildrenLinked(r.nodes);
    assert ChildrenSorted(r.nodes);
  }

  /** An opening-tag line adds exactly the node that AddChild describes. */
  lemma OpenLineApplied(a: Arena, name: string)
    requires WellFormed(a)
    requires '>' !in name && '/' !in name && |name| + 2 <= MaxLineLength
    ensures ApplyLine(a, OpenText(name)) == Ok(AddChild(a, name))
  {
    OpenTextClassified(name);
  }

  /** A closing-tag line only moves the cursor up; before any node exists it is refused. */
  lemma CloseLineApplied(a: Arena, name: string)
    requires WellFormed(a)
    requires '>' !in name && |name| + 3 <= MaxLineLength
    ensures a.cursor.Some? ==> ApplyLine(a, CloseText(name)) == Ok(Ascend(a))
    ensures a.cursor.None? ==> ApplyLine(a, CloseText(name)) == Err(NoCurrentNode)
  {
    CloseTextClassified(name);
  }

  /** Any single-tag line with a `/` in its name only moves the cursor up; before any node exists it is refused. */
  lemma SlashLineApplied(a: Arena, line: string)
    requires WellFormed(a)
    requires 2 <= |line| <= MaxLineLength && line[0] == '<' && line[|line| - 1] == '>'
    requires '>' !in line[1..|line| - 1] && '/' in line[1..|line| - 1]
    ensures a.cursor.Some? ==> ApplyLine(a, line) == Ok(Ascend(a))
    ensures a.cursor.None? ==> ApplyLine(a, line) == Err(NoCurrentNode)
  {
    SlashTagClassified(line);
  }

  /** A leaf line appends one leaf to the cursor node; before any node exists it is refused. */
  lemma LeafLineApplied(a: Arena, name: string, size: nat)
    requires WellFormed(a)
    requires '>' !in name && 2 * |name| + |Numeral(size)| + 5 <= MaxLineLength
    ensures a.cursor.Some? ==> ApplyLine(a, LeafText(name, size)) == Ok(AppendLeaf(a, Leaf(name, size)))
    ensures a.cursor.None? ==> ApplyLine(a, LeafText(name, size)) == Err(NoCurrentNode)
  {
    LeafTextClassified(name, size);
  }

  /**
    Any leaf line, not only the canonical `<name>N</name>`: after a first tag
    that does not span the line, the line is malformed when no `<` follows
    the tag, refused when the size text is not a numeral, and otherwise adds
    the leaf named by the tag with the size read from that text.
   */
  lemma LeafShapedLineApplied(a: Arena, line: string, tagStart: nat, tagEnd: nat)
    requires WellFormed(a) && 0 < |line| <= MaxLineLength
    requires Find(line, '<') == Some(tagStart) && Find(line, '>') == Some(tagEnd)
    requires tagStart <= tagEnd && tagEnd - tagStart + 1 != |line|
    ensures SizeText(line, tagEnd).None? ==> ApplyLine(a, line) == Err(MalformedLeaf)
    ensures SizeText(line, tagEnd).Some? && !AllDigits(SizeText(line, tagEnd).value) ==>
              ApplyLine(a, line) == Err(BadNumber)
    ensures SizeText(line, tagEnd).Some? && AllDigits(SizeText(line, tagEnd).value) && a.cursor.None? ==>
              ApplyLine(a, line) == Err(NoCurrentNode)
    ensures SizeText(line, tagEnd).Some? && AllDigits(SizeText(line, tagEnd).value) && a.cursor.Some? ==>
              ApplyLine(a, line) ==
                Ok(AppendLeaf(a, Leaf(line[tagStart + 1..tagEnd], Decimal(SizeText(line, tagEnd).value))))
  {
    LeafLineIsLeafPart(line, tagStart, tagEnd);
  }

  // ---------------------------------------------------------------------
  // The whole schema text
  // ---------------------------------------------------------------------

  /**
    The per-line loop of the schema reader as a fold: a line holding the
    comment marker is skipped, any other line is normalised and applied, and
    the first refused line stops the fold with failure and the state reached
    before it.
   */
  function Build(a: Arena, lines: seq<string>): (r: (Arena, bool))
    requires WellFormed(a)
    ensures WellFormed(r.0)
    decreases |lines|
  {
    if lines == [] then (a, true)
    else if CommentMarker in lines[0] then Build(a, lines[1..])
    else match ApplyLine(a, Stripped(lines[0]))
      case Err(_) => (a, false)
      case Ok(next) => Build(next, lines[1..])
  }

  /** The lines that are not comments, in their original order. */
  function Uncommented(lines: seq<string>): (r: seq<string>)
    ensures forall k :: 0 <= k < |r| ==> CommentMarker !in r[k] && r[k] in lines
    ensures forall k :: 0 <= k < |lines| && CommentMarker !in lines[k] ==> lines[k] in r
    ensures |r| <= |lines|
    decreases |lines|
  {
    if lines == [] then []
    else if CommentMarker in lines[0] then Uncommented(lines[1..])
    else [lines[0]] + Uncommented(lines[1..])
  }

  /**
    A line of blanks only, such as an empty line, normalises to the empty
    line, whose length is refused: the fold stops there with the state
    reached before it.
   */
  lemma BlankLineStopsBuild(a: Arena, line: string, rest: seq<string>)
    requires WellFormed(a)
    requires forall k :: 0 <= k < |line| ==> IsBlank(line[k])
    ensures Build(a, [line] + rest) == (a, false)
  {
    BlankLineStripped(line);
    assert ([line] + rest)[0] == line;
  }

  /** Comment lines have no effect at all: the schema builds the same without them. */
  lemma {:induction false} BuildIgnoresComments(a: Arena, lines: seq<string>)
    requires WellFormed(a)
    ensures Build(a, lines) == Build(a, Uncommented(lines))
    decreases |lines|
  {
    if lines != [] {
      if CommentMarker in lines[0] {
        BuildIgnoresComments(a, lines[1..]);
      } else {
        var u := Uncommented(lines);
        assert u[0] == lines[0] && u[1..] == Uncommented(lines[1..]);
        match ApplyLine(a, Stripped(lines[0]))
        case Err(_) =>
        case Ok(next) => BuildIgnoresComments(next, lines[1..]);
      }
    }
  }

  /** The fold runs on through a concatenation exactly when the first part succeeds. */
  lemma {:induction false} BuildAppend(a: Arena, xs: seq<string>, ys: seq<string>)
    requires WellFormed(a)
    ensures Build(a, xs + ys) == (if Build(a, xs).1 then Build(Build(a, xs).0, ys) else Build(a, xs))
    decreases |xs|
  {
    if xs == [] {
      assert xs + ys == ys;
    } else {
      assert (xs + ys)[0] == xs[0] && (xs + ys)[1..] == xs[1..] + ys;
      if CommentMarker in xs[0] {
        BuildAppend(a, xs[1..], ys);
      } else {
        match ApplyLine(a, Stripped(xs[0]))
        case Err(_) =>
        case Ok(next) => BuildAppend(next, xs[1..], ys);
      }
    }
  }

  // ---------------------------------------------------------------------
  // Looking up children
  // ---------------------------------------------------------------------

  /** Position in `kids` of the first node named `name`. */
  function FirstNamed(nodes: seq<Node>, kids: seq<nat>, name: string): (r: Option<nat>)
    requires forall k :: 0 <= k < |kids| ==> kids[k] < |nodes|
    ensures r.Some? ==> r.value < |kids| && nodes[kids[r.value]].name == name
    ensures r.Some? ==> forall k :: 0 <= k < r.value ==> nodes[kids[k]].name != name
    ensures r.None? ==> forall k :: 0 <= k < |kids| ==> nodes[kids[k]].name != name
    decreases |kids|
  {
    if kids == [] then None
    else if nodes[kids[0]].name == name then Some(0)
    else match FirstNamed(nodes, kids[1..], name)
      case None => None
      case Some(k) => Some(k + 1)
  }

  /** `c` is listed among the children of `parent`, is named `name`, and no child listed before it is. */
  ghost predicate FirstChildNamed(nodes: seq<Node>, parent: nat, name: string, c: nat)
    requires parent < |nodes| && ChildrenLinked(nodes)
  {
    exists k :: 0 <= k < |nodes[parent].children| && nodes[parent].children[k] == c
      && nodes[c].name == name
      && forall m :: 0 <= m < k ==> nodes[nodes[parent].children[m]].name != name
  }

  /** The first child of `parent`, in the order the children were added, named `name`. */
  function FindChild(nodes: seq<Node>, parent: nat, name: string): (r: Option<nat>)
    requires parent < |nodes| && ChildrenLinked(nodes)
    ensures r.Some? ==> r.value in nodes[parent].children && r.value < |nodes|
    ensures r.Some? ==> nodes[r.value].name == name && nodes[r.value].parent == Some(parent)
    ensures r.Some? ==> FirstChildNamed(nodes, parent, name, r.value)
    ensures r.None? <==> forall c :: c in nodes[parent].children ==> nodes[c].name != name
  {
    var kids := nodes[parent].children;
    match FirstNamed(nodes, kids, name)
    case None => None
    case Some(k) =>
      assert FirstChildNamed(nodes, parent, name, kids[k]) by {
        assert 0 <= k < |kids| && kids[k] == kids[k];
      }
      Some(kids[k])
  }

  // ---------------------------------------------------------------------
  // Subtrees
  // ---------------------------------------------------------------------

  /** Node `j` is `i` or lies below it, following parent links. */
  ghost predicate Descends(nodes: seq<Node>, j: nat, i: nat)
    decreases j
  {
    j == i
    || (j < |nodes| && nodes[j].parent.Some? && nodes[j].parent.value < j
        && Descends(nodes, nodes[j].parent.value, i))
  }

  /** Below `i`, every node is listed by its parent. */
  ghost predicate SubtreeListed(nodes: seq<Node>, i: nat)
    requires ParentsBefore(nodes)
  {
    forall j :: i < j < |nodes| && Descends(nodes, j, i) ==> j in nodes[nodes[j].parent.value].children
  }

  lemma {:induction false} DescendsAbove(nodes: seq<Node>, j: nat, i: nat)
    requires Descends(nodes, j, i)
    ensures i <= j
    decreases j
  {
    if j != i {
      DescendsAbove(nodes, nodes[j].parent.value, i);
    }
  }

  lemma {:induction false} DescendsTransitive(nodes: seq<Node>, j: nat, m: nat, i: nat)
    requires Descends(nodes, j, m) && Descends(nodes, m, i)
    ensures Descends(nodes, j, i)
    decreases j
  {
    if j != m {
      DescendsTransitive(nodes, nodes[j].parent.value, m, i);
    }
  }

  /** Descent depends on the parent links only. */
  lemma {:induction false} DescendsStable(nodes: seq<Node>, nodes': seq<Node>, j: nat, i: nat)
    requires |nodes| == |nodes'|
    requires forall k :: 0 <= k < |nodes| ==> nodes[k].parent == nodes'[k].parent
    ensures Descends(nodes, j, i) == Descends(nodes', j, i)
    decreases j
  {
    if j != i && j < |nodes| && nodes[j].parent.Some? && nodes[j].parent.value < j {
      DescendsStable(nodes, nodes', nodes[j].parent.value, i);
    }
  }

  /** Every node lies in the subtree of the root. */
  lemma {:induction false} DescendsFromRoot(nodes: seq<Node>, j: nat)
    requires ParentsBefore(nodes) && j < |nodes|
    ensures Descends(nodes, j, 0)
    decreases j
  {
    if j != 0 {
      DescendsFromRoot(nodes, nodes[j].parent.value);
    }
  }

  /** A node strictly below `i` lies in the subtree of one of the children of `i`. */
  lemma {:induction false} DescendsThroughChild(nodes: seq<Node>, j: nat, i: nat)
    requires ParentsBefore(nodes) && SubtreeListed(nodes, i)
    requires i < j < |nodes| && Descends(nodes, j, i)
    ensures exists k :: 0 <= k < |nodes[i].children| && Descends(nodes, j, nodes[i].children[k])
    decreases j
  {
    var p := nodes[j].parent.value;
    if p == i {
      var k :| 0 <= k < |nodes[i].children| && nodes[i].children[k] == j;
      assert Descends(nodes, j, nodes[i].children[k]);
    } else {
      DescendsAbove(nodes, p, i);
      DescendsThroughChild(nodes, p, i);
      var k :| 0 <= k < |nodes[i].children| && Descends(nodes, p, nodes[i].children[k]);
      assert Descends(nodes, j, nodes[i].children[k]);
    }
  }

  /** Subtrees of two children with the same parent meet only when the children are the same. */
  lemma {:induction false} SiblingSubtreesDisjoint(nodes: seq<Node>, j: nat, c: nat, c': nat)
    requires ParentsBefore(nodes)
    requires 0 < c < |nodes| && 0 < c' < |nodes| && nodes[c].parent == nodes[c'].parent
    requires Descends(nodes, j, c) && Descends(nodes, j, c')
    ensures c == c'
    decreases j
  {
    if j == c || j == c' {
      var other := if j == c then c' else c;
      if j != other {
        DescendsAbove(nodes, nodes[j].parent.value, other);
        assert false;
      }
    } else {
      SiblingSubtreesDisjoint(nodes, nodes[j].parent.value, c, c');
    }
  }
}
