/** Building the directory tree from a list of paths (`build_tree`).

    Each node of the tree stands for one of `build_tree`'s nested `defaultdict`s:
    an insertion-ordered mapping from a child's name to the child. Here it is an
    association list of entries; the root is a node without a name of its own. */
module TreeBuilder {
  import opened PathSegments

  datatype Node = Node(children: seq<Entry>)
  datatype Entry = Entry(name: string, node: Node)

  /** A freshly created node: no children yet. */
  const Empty := Node([])

  /** The keys of a mapping, in insertion order (`list(d.keys())`). */
  function Names(cs: seq<Entry>): seq<string> {
    seq(|cs|, i requires 0 <= i < |cs| => cs[i].name)
  }

  /** Position of the first occurrence of `key` in `names`, or `|names|` if absent. */
  function IndexOf(names: seq<string>, key: string): (i: nat)
    ensures i <= |names|
    ensures i < |names| <==> key in names
    ensures i < |names| ==> names[i] == key
    ensures forall j :: 0 <= j < i ==> names[j] != key
  {
    if names == [] then 0
    else if names[0] == key then 0
    else 1 + IndexOf(names[1..], key)
  }

  /** No two children of any node share a name: a mapping has unique keys. */
  ghost predicate WellFormed(n: Node) {
    && (forall i, j :: 0 <= i < j < |n.children| ==> n.children[i].name != n.children[j].name)
    && (forall i :: 0 <= i < |n.children| ==> WellFormed(n.children[i].node))
  }

  /** `current[part]` on a defaultdict: the position of the child named `key`,
      together with the node after the lookup. An existing child is found and
      nothing changes; a missing one is appended, empty, after all the others. */
  function FindOrCreate(n: Node, key: string): (r: (Node, nat))
    ensures r.1 < |r.0.children| && r.0.children[r.1].name == key
    ensures IndexOf(Names(r.0.children), key) == r.1
    ensures key in Names(n.children) ==> r.0 == n
    ensures key !in Names(n.children) ==> r.0.children == n.children + [Entry(key, Empty)]
  {
    var i := IndexOf(Names(n.children), key);
    if i < |n.children| then (n, i)
    else
      var m := Node(n.children + [Entry(key, Empty)]);
      assert Names(m.children) == Names(n.children) + [key];
      (m, i)
  }

  /** Walks `segs` down from `n`, creating every missing node on the way
      (the inner loop of `build_tree` for one path). */
  function Insert(n: Node, segs: seq<string>): Node
    decreases segs
  {
    if segs == [] then n
    else
      var (m, i) := FindOrCreate(n, segs[0]);
      Node(m.children[i := Entry(segs[0], Insert(m.children[i].node, segs[1..]))])
  }

  /** The tree after inserting `paths`, one after the other, into `n`. */
  function Extend(n: Node, paths: seq<string>): Node
    decreases |paths|
  {
    if paths == [] then n
    else Insert(Extend(n, paths[..|paths| - 1]), Split(paths[|paths| - 1]))
  }

  /** `build_tree(paths)`. */
  function Build(paths: seq<string>): Node {
    Extend(Empty, paths)
  }

  /** `build_tree`: one pass over the paths in order, each inserted into the root. */
  method BuildTree(paths: seq<string>) returns (root: Node)
    ensures root == Build(paths)
    ensures WellFormed(root)
  {
    root := Empty;
    var k := 0;
    while k < |paths|
      invariant 0 <= k <= |paths|
      invariant root == Build(paths[..k])
      invariant WellFormed(root)
    {
      var parts := Split(paths[k]);
      InsertWellFormed(root, parts);
      root := Insert(root, parts);
      assert paths[..k + 1][..k] == paths[..k];
      k := k + 1;
    }
    assert paths[..k] == paths;
  }

  // ---------------------------------------------------------------------------
  // Paths present in a tree

  /** The chain of names `q` leads from `n` to an existing node. */
  predicate HasPath(n: Node, q: seq<string>)
    decreases q
  {
    q == [] ||
    var i := IndexOf(Names(n.children), q[0]);
    i < |n.children| && HasPath(n.children[i].node, q[1..])
  }

  /** The node reached by following `q` from `n`; `Empty` when there is none. */
  function Sub(n: Node, q: seq<string>): Node
    decreases q
  {
    if q == [] then n
    else
      var i := IndexOf(Names(n.children), q[0]);
      if i < |n.children| then Sub(n.children[i].node, q[1..]) else Empty
  }

  /** The names of the children of the node at `q`, in insertion order. */
  function ChildNames(n: Node, q: seq<string>): seq<string> {
    Names(Sub(n, q).children)
  }

  /** The only path in a fresh node is the empty one. */
  lemma EmptyPaths(q: seq<string>)
    ensures HasPath(Empty, q) <==> q == []
    ensures Sub(Empty, q) == Empty
  {
  }

  /** Following a chain is following its first name, then the rest. */
  lemma SubCons(n: Node, q: seq<string>)
    requires q != []
    ensures Sub(n, q) == Sub(Sub(n, [q[0]]), q[1..])
    ensures HasPath(n, q) <==> HasPath(n, [q[0]]) && HasPath(Sub(n, [q[0]]), q[1..])
  {
    if !HasPath(n, [q[0]]) {
      EmptyPaths(q[1..]);
    }
  }

  /** What one insertion step does at the top: the child named `s[0]` (found or
      created) becomes the insertion of the rest of `s` into what was there,
      the keys grow by `s[0]` if it was new, and every other child stays. */
  lemma InsertTop(n: Node, s: seq<string>)
    requires s != []
    ensures Names(Insert(n, s).children) == AddIfAbsent(Names(n.children), s[0])
    ensures HasPath(Insert(n, s), [s[0]])
    ensures Sub(Insert(n, s), [s[0]]) == Insert(Sub(n, [s[0]]), s[1..])
    ensures forall key :: key != s[0] ==>
      (HasPath(Insert(n, s), [key]) <==> HasPath(n, [key])) && Sub(Insert(n, s), [key]) == Sub(n, [key])
  {
    InsertTopNames(n, s);
    forall key | key != s[0]
      ensures (HasPath(Insert(n, s), [key]) <==> HasPath(n, [key])) && Sub(Insert(n, s), [key]) == Sub(n, [key])
    {
      InsertTopOther(n, s, key);
    }
  }

  lemma InsertTopNames(n: Node, s: seq<string>)
    requires s != []
    ensures Names(Insert(n, s).children) == AddIfAbsent(Names(n.children), s[0])
    ensures HasPath(Insert(n, s), [s[0]])
    ensures Sub(Insert(n, s), [s[0]]) == Insert(Sub(n, [s[0]]), s[1..])
  {
    var (m, i) := FindOrCreate(n, s[0]);
    var r := Insert(n, s);
    assert Names(r.children) == Names(m.children);
    if s[0] !in Names(n.children) {
      assert Names(m.children) == Names(n.children) + [s[0]];
    }
  }

  lemma InsertTopOther(n: Node, s: seq<string>, key: string)
    requires s != [] && key != s[0]
    ensures HasPath(Insert(n, s), [key]) <==> HasPath(n, [key])
    ensures Sub(Insert(n, s), [key]) == Sub(n, [key])
  {
    var (m, i) := FindOrCreate(n, s[0]);
    var r := Insert(n, s);
    var extra := if s[0] in Names(n.children) then [] else [s[0]];
    assert Names(m.children) == Names(n.children) + extra;
    assert Names(r.children) == Names(m.children);
    var j := IndexOf(Names(n.children), key);
    if j < |n.children| {
      IndexOfExtend(Names(n.children), extra, key);
      assert j != i;
      assert r.children[j] == n.children[j];
    } else {
      assert key !in Names(r.children);
    }
  }

  /** Adding keys at the end does not move an existing key. */
  lemma IndexOfExtend(xs: seq<string>, ys: seq<string>, key: string)
    requires key in xs
    ensures IndexOf(xs + ys, key) == IndexOf(xs, key)
  {
    var j := IndexOf(xs, key);
    assert (xs + ys)[j] == key;
  }

  /** Inserting a path whose first name is not yet a key appends a new child
      at the end, holding the rest of the path. */
  lemma InsertFresh(n: Node, s: seq<string>)
    requires s != [] && s[0] !in Names(n.children)
    ensures Insert(n, s) == Node(n.children + [Entry(s[0], Insert(Empty, s[1..]))])
  {
  }

  /** Inserting a path whose first name is the key at position `i` descends
      into that child and leaves every other child in place. */
  lemma InsertFound(n: Node, s: seq<string>, i: nat)
    requires s != [] && i < |n.children| && n.children[i].name == s[0]
    requires s[0] !in Names(n.children[..i])
    ensures Insert(n, s) == Node(n.children[i := Entry(s[0], Insert(n.children[i].node, s[1..]))])
  {
    assert Names(n.children)[i] == s[0];
    forall j | 0 <= j < i ensures Names(n.children)[j] != s[0] {
      assert Names(n.children)[j] == Names(n.children[..i])[j];
    }
  }

  /** After inserting `s`, exactly the paths that were there before and the
      prefixes of `s` are present: every segment of `s` became a node, and
      nothing else did. */
  lemma {:induction false} InsertHasPath(n: Node, s: seq<string>, q: seq<string>)
    ensures HasPath(Insert(n, s), q) <==> HasPath(n, q) || q <= s
    decreases s
  {
    if q == [] || s == [] {
    } else {
      InsertTop(n, s);
      var r := Insert(n, s);
      SubCons(r, q);
      SubCons(n, q);
      if q[0] == s[0] {
        InsertHasPath(Sub(n, [s[0]]), s[1..], q[1..]);
        if !HasPath(n, [s[0]]) {
          EmptyPaths(q[1..]);
        }
        assert q <= s <==> q[1..] <= s[1..];
      } else {
        assert !(q <= s);
      }
    }
  }

  /** Inserting a path that is already present changes nothing. */
  lemma {:induction false} InsertPresent(n: Node, s: seq<string>)
    requires HasPath(n, s)
    ensures Insert(n, s) == n
    decreases s
  {
    if s != [] {
      var (m, i) := FindOrCreate(n, s[0]);
      InsertPresent(n.children[i].node, s[1..]);
      assert n.children[i := Entry(s[0], n.children[i].node)] == n.children;
    }
  }

  /** In a well-formed node, a child's name does not come back among its later siblings. */
  lemma NotRepeatedLater(n: Node, i: nat)
    requires WellFormed(n) && i < |n.children|
    ensures n.children[i].name !in Names(n.children)[i + 1..]
  {
    var later := Names(n.children)[i + 1..];
    forall k | 0 <= k < |later| ensures later[k] != n.children[i].name {
      assert later[k] == n.children[i + 1 + k].name;
    }
  }

  /** Insertion keeps the keys of every mapping unique. */
  lemma {:induction false} InsertWellFormed(n: Node, s: seq<string>)
    requires WellFormed(n)
    ensures WellFormed(Insert(n, s))
    decreases s
  {
    if s != [] {
      var (m, i) := FindOrCreate(n, s[0]);
      var r := Insert(n, s);
      assert WellFormed(Empty);
      if s[0] !in Names(n.children) {
        forall a, b | 0 <= a < b < |m.children|
          ensures m.children[a].name != m.children[b].name
        {
          if b == |n.children| {
            assert m.children[a].name == Names(n.children)[a];
          }
        }
      }
      assert WellFormed(m);
      InsertWellFormed(m.children[i].node, s[1..]);
      assert Names(r.children) == Names(m.children);
      forall a, b | 0 <= a < b < |r.children|
        ensures r.children[a].name != r.children[b].name
      {
        assert r.children[a].name == Names(m.children)[a] == m.children[a].name;
        assert r.children[b].name == Names(m.children)[b] == m.children[b].name;
      }
    }
  }

  /** Keys added after `xs`: `x` is appended only when it is new. */
  function AddIfAbsent(xs: seq<string>, x: string): seq<string> {
    if x in xs then xs else xs + [x]
  }

  /** Insertion at the node found at `q`: when `s` passes through that node,
      the next segment of `s` joins its children if it is new, after all the
      existing ones; every other node keeps its children in their order. */
  lemma {:induction false} InsertChildNames(n: Node, s: seq<string>, q: seq<string>)
    ensures ChildNames(Insert(n, s), q) ==
      if |q| < |s| && q <= s then AddIfAbsent(ChildNames(n, q), s[|q|]) else ChildNames(n, q)
    decreases s
  {
    if s == [] {
    } else if q == [] {
      InsertTopNames(n, s);
    } else if q[0] == s[0] {
      InsertTopNames(n, s);
      SubCons(Insert(n, s), q);
      SubCons(n, q);
      InsertChildNames(Sub(n, [s[0]]), s[1..], q[1..]);
      PassesThroughCons(q, s);
    } else {
      InsertTopOther(n, s, q[0]);
      SubCons(Insert(n, s), q);
      SubCons(n, q);
      assert !(q <= s);
    }
  }

  /** A chain passes through a node of `s` exactly when its tail passes
      through the matching node of `s`'s tail, with the same next segment. */
  lemma PassesThroughCons(q: seq<string>, s: seq<string>)
    requires q != [] && s != [] && q[0] == s[0]
    ensures (|q| < |s| && q <= s) <==> (|q[1..]| < |s[1..]| && q[1..] <= s[1..])
    ensures |q| < |s| ==> s[|q|] == s[1..][|q[1..]|]
  {
  }

  // ---------------------------------------------------------------------------
  // Properties of the whole build

  /** Building from nothing gives a root with no children. */
  lemma BuildEmpty()
    ensures Build([]) == Empty && Build([]).children == []
  {
  }

  /** The built tree never holds two siblings with the same name. */
  lemma {:induction false} ExtendWellFormed(n: Node, paths: seq<string>)
    requires WellFormed(n)
    ensures WellFormed(Extend(n, paths))
    decreases |paths|
  {
    if paths != [] {
      ExtendWellFormed(n, paths[..|paths| - 1]);
      InsertWellFormed(Extend(n, paths[..|paths| - 1]), Split(paths[|paths| - 1]));
    }
  }

  /** `q` is a prefix of the segments of one of `paths`. */
  predicate Listed(paths: seq<string>, q: seq<string>)
    decreases |paths|
  {
    paths != [] && (Listed(paths[..|paths| - 1], q) || q <= Split(paths[|paths| - 1]))
  }

  /** `Listed` is "some input path begins with the chain `q`". */
  lemma {:induction false} ListedSome(paths: seq<string>, q: seq<string>)
    ensures Listed(paths, q) <==> exists p :: p in paths && q <= Split(p)
    decreases |paths|
  {
    if paths != [] {
      var init := paths[..|paths| - 1];
      var last := paths[|paths| - 1];
      ListedSome(init, q);
      assert paths == init + [last];
      if Listed(init, q) {
        var p :| p in init && q <= Split(p);
        assert p in paths;
      }
      if exists p :: p in paths && q <= Split(p) {
        var p :| p in paths && q <= Split(p);
        if p != last {
          assert p in init;
        }
      }
    }
  }

  /** The chains present in the tree grown from `n` are those of `n` and the
      prefixes of the segments of the inserted paths. */
  lemma {:induction false} ExtendHasPath(n: Node, paths: seq<string>, q: seq<string>)
    ensures HasPath(Extend(n, paths), q) <==> HasPath(n, q) || Listed(paths, q)
    decreases |paths|
  {
    if paths != [] {
      var init := paths[..|paths| - 1];
      ExtendHasPath(n, init, q);
      InsertHasPath(Extend(n, init), Split(paths[|paths| - 1]), q);
    }
  }

  /** A chain of names exists in the built tree exactly when it is a prefix of
      the segments of one of the input paths (the empty chain is the root). */
  lemma BuildHasPath(paths: seq<string>, q: seq<string>)
    ensures HasPath(Build(paths), q) <==> q == [] || exists p :: p in paths && q <= Split(p)
  {
    ExtendHasPath(Empty, paths, q);
    EmptyPaths(q);
    ListedSome(paths, q);
  }

  /** Every input path is present, segment by segment, after building. */
  lemma BuildContains(paths: seq<string>, p: string)
    requires p in paths
    ensures HasPath(Build(paths), Split(p))
  {
    BuildHasPath(paths, Split(p));
  }

  /** Inserting paths that are all present changes nothing. */
  lemma {:induction false} ExtendPresent(n: Node, paths: seq<string>)
    requires forall p :: p in paths ==> HasPath(n, Split(p))
    ensures Extend(n, paths) == n
    decreases |paths|
  {
    if paths != [] {
      assert paths == paths[..|paths| - 1] + [paths[|paths| - 1]];
      ExtendPresent(n, paths[..|paths| - 1]);
      InsertPresent(n, Split(paths[|paths| - 1]));
    }
  }

  /** Inserting `a + b` is inserting `a`, then `b`. */
  lemma {:induction false} ExtendAppend(n: Node, a: seq<string>, b: seq<string>)
    ensures Extend(n, a + b) == Extend(Extend(n, a), b)
    decreases |b|
  {
    if b == [] {
      assert a + b == a;
    } else {
      assert (a + b)[..|a + b| - 1] == a + b[..|b| - 1];
      ExtendAppend(n, a, b[..|b| - 1]);
    }
  }

  /** Listing every path twice builds the same tree as listing it once. */
  lemma BuildTwice(paths: seq<string>)
    ensures Build(paths + paths) == Build(paths)
  {
    ExtendAppend(Empty, paths, paths);
    forall p | p in paths
      ensures HasPath(Build(paths), Split(p))
    {
      BuildContains(paths, p);
    }
    ExtendPresent(Build(paths), paths);
  }

  /** Re-inserting a path that an earlier entry already produced leaves the tree unchanged. */
  lemma RebuildPresent(paths: seq<string>, p: string)
    requires p in paths
    ensures Build(paths + [p]) == Build(paths)
  {
    BuildContains(paths, p);
    assert (paths + [p])[..|paths|] == paths;
    InsertPresent(Build(paths), Split(p));
  }

  // ---------------------------------------------------------------------------
  // First-seen order of children

  /** `xs` with later repeats removed, in the order of first occurrence. */
  function Dedup(xs: seq<string>): seq<string>
    decreases |xs|
  {
    if xs == [] then [] else AddIfAbsent(Dedup(xs[..|xs| - 1]), xs[|xs| - 1])
  }

  /** The segment that follows the chain `q`, for each path (in input order)
      that passes through the node at `q`. */
  function NextSegments(paths: seq<string>, q: seq<string>): seq<string>
    decreases |paths|
  {
    if paths == [] then []
    else
      var s := Split(paths[|paths| - 1]);
      NextSegments(paths[..|paths| - 1], q) + (if |q| < |s| && q <= s then [s[|q|]] else [])
  }

  /** The children of every node of the built tree are the names that followed
      it in the input, each once, in the order in which each was first seen. */
  lemma {:induction false} BuildChildOrder(paths: seq<string>, q: seq<string>)
    ensures ChildNames(Build(paths), q) == Dedup(NextSegments(paths, q))
    decreases |paths|
  {
    if paths == [] {
      EmptyPaths(q);
    } else {
      var init := paths[..|paths| - 1];
      var s := Split(paths[|paths| - 1]);
      BuildChildOrder(init, q);
      InsertChildNames(Build(init), s, q);
      var xs := NextSegments(init, q);
      if |q| < |s| && q <= s {
        var ys := xs + [s[|q|]];
        assert ys[..|ys| - 1] == xs;
      } else {
        assert NextSegments(paths, q) == xs;
      }
    }
  }

  /** `Dedup` lists the elements in the order of their first occurrence in `xs`. */
  lemma {:induction false} DedupOrder(xs: seq<string>)
    ensures forall i, j :: 0 <= i < j < |Dedup(xs)| ==> IndexOf(xs, Dedup(xs)[i]) < IndexOf(xs, Dedup(xs)[j])
    decreases |xs|
  {
    if xs != [] {
      var init := xs[..|xs| - 1];
      var x := xs[|xs| - 1];
      var d := Dedup(init);
      DedupOrder(init);
      DedupSound(init);
      assert xs == init + [x];
      forall y | y in d ensures IndexOf(xs, y) == IndexOf(init, y) < |init| {
        IndexOfExtend(init, [x], y);
      }
      if x !in d {
        assert x !in init;
        assert IndexOf(xs, x) == |init|;
      }
    }
  }

  /** `Dedup` keeps each element exactly once. */
  lemma {:induction false} DedupSound(xs: seq<string>)
    ensures forall x :: x in Dedup(xs) <==> x in xs
    ensures forall i, j :: 0 <= i < j < |Dedup(xs)| ==> Dedup(xs)[i] != Dedup(xs)[j]
    decreases |xs|
  {
    if xs != [] {
      var init := xs[..|xs| - 1];
      DedupSound(init);
      assert xs == init + [xs[|xs| - 1]];
    }
  }
}
