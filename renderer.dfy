/** Rendering the tree as indented text lines (`format_tree`).

    Children are listed in insertion order, depth first, each parent before its
    descendants. A child's line is the current prefix, a connector and the
    child's name; the last child of a node gets the closing connector. Below a
    child, the prefix grows by blank space after a last child and by a vertical
    bar otherwise, so the bars join the following siblings. The root has no line. */
module TreeRenderer {
  import opened TreeBuilder

  /** The connector in front of a child's name. */
  function Connector(isLast: bool): string {
    if isLast then "\U{2514}\U{2500}\U{2500} " else "\U{251C}\U{2500}\U{2500} "
  }

  /** What a child's descendants add to the prefix. */
  function Extension(isLast: bool): string {
    if isLast then "    " else "\U{2502}   "
  }

  /** The number of nodes below `n`, counted from its `i`-th child on. */
  function CountFrom(n: Node, i: nat): nat
    decreases n, |n.children| - i
  {
    if i >= |n.children| then 0
    else 1 + CountFrom(n.children[i].node, 0) + CountFrom(n, i + 1)
  }

  /** The number of nodes below `n` (`n` itself not included). */
  function Count(n: Node): nat {
    CountFrom(n, 0)
  }

  /** The lines of the children of `n` from the `i`-th on: the body of
      `format_tree`'s loop for the remaining iterations. */
  function FormatFrom(n: Node, i: nat, prefix: string): seq<string>
    decreases n, |n.children| - i
  {
    if i >= |n.children| then []
    else
      var isLast := i == |n.children| - 1;
      var child := n.children[i];
      [prefix + Connector(isLast) + child.name]
      + (if child.node.children != [] then FormatFrom(child.node, 0, prefix + Extension(isLast)) else [])
      + FormatFrom(n, i + 1, prefix)
  }

  /** `format_tree(d, prefix)`. */
  function Format(d: Node, prefix: string): seq<string> {
    FormatFrom(d, 0, prefix)
  }

  /** `format_tree`: the loop over the keys in order, appending each child's
      line and then, for a child with children, that child's own rendering. */
  method FormatTree(d: Node, prefix: string) returns (lines: seq<string>)
    ensures lines == Format(d, prefix)
    decreases d
  {
    lines := [];
    var items := Names(d.children);
    for i := 0 to |items|
      invariant lines + FormatFrom(d, i, prefix) == Format(d, prefix)
    {
      ghost var before := lines;
      var isLast := i == |items| - 1;
      var connector := Connector(isLast);
      var line := prefix + connector + items[i];
      lines := lines + [line];
      var child := d.children[i].node;
      if child.children != [] {
        var extension := Extension(isLast);
        var sub := FormatTree(child, prefix + extension);
        lines := lines + sub;
      }
      FormatFromStep(d, i, prefix, before, lines);
    }
  }

  /** One more iteration of the loop of `format_tree`: what it appends to
      `before` is the block of the `i`-th child. */
  lemma FormatFromStep(n: Node, i: nat, prefix: string, before: seq<string>, after: seq<string>)
    requires i < |n.children|
    requires after == before + [prefix + Connector(i == |n.children| - 1) + n.children[i].name]
      + (if n.children[i].node.children != [] then Format(n.children[i].node, prefix + Extension(i == |n.children| - 1)) else [])
    ensures after + FormatFrom(n, i + 1, prefix) == before + FormatFrom(n, i, prefix)
  {
  }

  /** One line per node below the root, never more and never fewer. */
  lemma {:induction false} FormatFromLength(n: Node, i: nat, prefix: string)
    ensures |FormatFrom(n, i, prefix)| == CountFrom(n, i)
    decreases n, |n.children| - i
  {
    if i < |n.children| {
      var child := n.children[i];
      var isLast := i == |n.children| - 1;
      FormatFromLength(child.node, 0, prefix + Extension(isLast));
      FormatFromLength(n, i + 1, prefix);
    }
  }

  /** The rendering has exactly as many lines as the tree has nodes below its root. */
  lemma FormatLength(d: Node, prefix: string)
    ensures |Format(d, prefix)| == Count(d)
  {
    FormatFromLength(d, 0, prefix);
  }

  /** Every line begins with the prefix it was rendered under. */
  lemma {:induction false} FormatFromPrefix(n: Node, i: nat, prefix: string)
    ensures forall k :: 0 <= k < |FormatFrom(n, i, prefix)| ==> prefix <= FormatFrom(n, i, prefix)[k]
    decreases n, |n.children| - i
  {
    if i < |n.children| {
      var child := n.children[i];
      var isLast := i == |n.children| - 1;
      var ext := prefix + Extension(isLast);
      var head := [prefix + Connector(isLast) + child.name];
      var sub := if child.node.children != [] then FormatFrom(child.node, 0, ext) else [];
      var rest := FormatFrom(n, i + 1, prefix);
      FormatFromPrefix(child.node, 0, ext);
      FormatFromPrefix(n, i + 1, prefix);
      assert FormatFrom(n, i, prefix) == head + sub + rest;
      forall k | 0 <= k < |sub| ensures prefix <= sub[k] {
        assert ext <= sub[k];
      }
    }
  }

  /** Every line of `format_tree(d, prefix)` begins with `prefix`. */
  lemma FormatPrefix(d: Node, prefix: string)
    ensures forall k :: 0 <= k < |Format(d, prefix)| ==> prefix <= Format(d, prefix)[k]
  {
    FormatFromPrefix(d, 0, prefix);
  }

  /** Where the block of the `i`-th child starts: after one line and the
      descendants' lines of each earlier sibling. */
  function Offset(n: Node, i: nat): nat
    requires i <= |n.children|
  {
    if i == 0 then 0 else Offset(n, i - 1) + 1 + Count(n.children[i - 1].node)
  }

  /** The lines of the children of `n` from the `i`-th on are the tail of the
      whole rendering that starts at the `i`-th child's offset. */
  lemma {:induction false} FormatSuffix(n: Node, i: nat, prefix: string)
    requires i <= |n.children|
    ensures Offset(n, i) <= |Format(n, prefix)|
    ensures Format(n, prefix)[Offset(n, i)..] == FormatFrom(n, i, prefix)
  {
    if i > 0 {
      FormatSuffix(n, i - 1, prefix);
      var j := i - 1;
      var child := n.children[j];
      var isLast := j == |n.children| - 1;
      var head := [prefix + Connector(isLast) + child.name];
      var sub := if child.node.children != [] then FormatFrom(child.node, 0, prefix + Extension(isLast)) else [];
      FormatLength(child.node, prefix + Extension(isLast));
      assert |sub| == Count(child.node);
      assert FormatFrom(n, j, prefix) == head + sub + FormatFrom(n, i, prefix);
      assert (head + sub + FormatFrom(n, i, prefix))[1 + |sub|..] == FormatFrom(n, i, prefix);
    }
  }

  /** The layout of the rendering, child by child. The `i`-th child's block
      starts at `Offset(n, i)`: its own line comes first, made of the prefix,
      the closing connector exactly when it is the last child and the branching
      one otherwise, and its name; then, contiguously, its descendants rendered
      under the prefix extended by blank space (last child) or a vertical bar
      (any other child), which is nothing for a leaf; the next sibling's block
      follows directly. */
  lemma FormatBlock(n: Node, prefix: string, i: nat)
    requires i < |n.children|
    ensures Offset(n, i + 1) == Offset(n, i) + 1 + Count(n.children[i].node) <= |Format(n, prefix)|
    ensures Format(n, prefix)[Offset(n, i)] ==
      prefix + Connector(i == |n.children| - 1) + n.children[i].name
    ensures Format(n, prefix)[Offset(n, i) + 1 .. Offset(n, i + 1)] ==
      Format(n.children[i].node, prefix + Extension(i == |n.children| - 1))
  {
    FormatSuffix(n, i, prefix);
    var child := n.children[i];
    var isLast := i == |n.children| - 1;
    var head := [prefix + Connector(isLast) + child.name];
    var sub := if child.node.children != [] then FormatFrom(child.node, 0, prefix + Extension(isLast)) else [];
    var rest := FormatFrom(n, i + 1, prefix);
    FormatLength(child.node, prefix + Extension(isLast));
    assert sub == Format(child.node, prefix + Extension(isLast));
    var whole := Format(n, prefix);
    var o := Offset(n, i);
    assert whole[o..] == head + sub + rest;
    assert whole[o] == whole[o..][0];
    SliceShift(whole, o, 1, 1 + |sub|);
    assert (head + sub + rest)[1 .. 1 + |sub|] == sub;
  }

  /** A slice of a suffix is a slice of the whole, shifted. */
  lemma SliceShift(s: seq<string>, o: nat, a: nat, b: nat)
    requires a <= b && o + b <= |s|
    ensures s[o..][a..b] == s[o + a..o + b]
  {
    forall k | 0 <= k < b - a ensures s[o..][a..b][k] == s[o + a..o + b][k] {
      assert s[o..][a..b][k] == s[o + a + k];
    }
  }

  /** The blocks of all children cover the rendering exactly. */
  lemma FormatCovers(n: Node, prefix: string)
    ensures Offset(n, |n.children|) == |Format(n, prefix)|
  {
    FormatSuffix(n, |n.children|, prefix);
  }

  /** The two connectors differ, so "last child" can be read off each line. */
  lemma ConnectorsDiffer()
    ensures Connector(true) != Connector(false)
    ensures |Connector(true)| == |Connector(false)| == |Extension(true)| == |Extension(false)| == 4
  {
    assert Connector(true)[0] != Connector(false)[0];
  }

  /** A node without children renders as no lines at all. */
  lemma FormatEmpty(prefix: string)
    ensures Format(Empty, prefix) == []
  {
  }
}
