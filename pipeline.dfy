/** The whole path-list-to-lines pipeline: `format_tree(build_tree(paths))`,
    as both web routes run it on the fetched listing. */
module Pipeline {
  import opened PathSegments
  import opened TreeBuilder
  import opened TreeRenderer

  /** The display lines for a listing of paths. */
  function Render(paths: seq<string>): seq<string> {
    Format(Build(paths), "")
  }

  /** The nonempty chains of names present below `n`, from its `i`-th child on. */
  ghost function PathsFrom(n: Node, i: nat): set<seq<string>>
    decreases n, |n.children| - i
  {
    if i >= |n.children| then {}
    else
      var x := n.children[i].name;
      {[x]} + Prepend(x, PathsFrom(n.children[i].node, 0)) + PathsFrom(n, i + 1)
  }

  ghost function Prepend(x: string, s: set<seq<string>>): set<seq<string>> {
    set q | q in s :: [x] + q
  }

  /** Every distinct nonempty prefix of the segments of some input path. */
  ghost function Chains(paths: seq<string>): set<seq<string>> {
    set p, j | p in paths && 1 <= j <= |Split(p)| :: Split(p)[..j]
  }

  lemma {:induction false} PrependCard(x: string, s: set<seq<string>>)
    ensures |Prepend(x, s)| == |s|
    decreases |s|
  {
    if s != {} {
      var e :| e in s;
      var rest := s - {e};
      PrependCard(x, rest);
      assert Prepend(x, s) == Prepend(x, rest) + {[x] + e};
      forall q | q in rest ensures [x] + q != [x] + e {
        assert ([x] + q)[1..] == q && ([x] + e)[1..] == e;
      }
    }
  }

  /** A chain below `n` is nonempty and starts with the name of one of the
      children from the `i`-th on. */
  lemma {:induction false} PathsFromShape(n: Node, i: nat, q: seq<string>)
    requires q in PathsFrom(n, i)
    ensures q != [] && q[0] in Names(n.children)[i..]
    decreases n, |n.children| - i
  {
    var x := n.children[i].name;
    assert Names(n.children)[i] == x;
    if q !in {[x]} + Prepend(x, PathsFrom(n.children[i].node, 0)) {
      PathsFromShape(n, i + 1, q);
      assert Names(n.children)[i + 1..] == Names(n.children)[i..][1..];
    }
  }

  /** With unique sibling names, there are exactly as many chains as nodes. */
  lemma {:induction false} PathsFromCard(n: Node, i: nat)
    requires WellFormed(n)
    ensures |PathsFrom(n, i)| == CountFrom(n, i)
    decreases n, |n.children| - i
  {
    if i < |n.children| {
      var x := n.children[i].name;
      var c := n.children[i].node;
      PathsFromCard(c, 0);
      PathsFromCard(n, i + 1);
      PrependCard(x, PathsFrom(c, 0));
      var a := {[x]} + Prepend(x, PathsFrom(c, 0));
      assert [x] !in Prepend(x, PathsFrom(c, 0)) by {
        if [x] in Prepend(x, PathsFrom(c, 0)) {
          var q :| q in PathsFrom(c, 0) && [x] + q == [x];
          PathsFromShape(c, 0, q);
        }
      }
      assert |a| == 1 + |PathsFrom(c, 0)|;
      NotRepeatedLater(n, i);
      forall q | q in a && q in PathsFrom(n, i + 1) ensures false {
        PathsFromShape(n, i + 1, q);
      }
      assert a * PathsFrom(n, i + 1) == {};
    }
  }

  /** Membership in `Prepend`: the chain starts with `x` and continues in `s`. */
  lemma PrependMember(x: string, s: set<seq<string>>, q: seq<string>)
    ensures q in Prepend(x, s) <==> q != [] && q[0] == x && q[1..] in s
  {
    if q != [] && q[0] == x && q[1..] in s {
      assert q == [x] + q[1..];
    }
  }

  /** With unique sibling names, the chains below `n` counted from the `i`-th
      child are the nonempty paths of `n` whose first name is at position `i`
      or later. */
  lemma {:induction false} PathsFromMember(n: Node, i: nat, q: seq<string>)
    requires WellFormed(n)
    ensures q in PathsFrom(n, i) <==>
      q != [] && HasPath(n, q) && IndexOf(Names(n.children), q[0]) >= i
    decreases n, |n.children| - i
  {
    if i < |n.children| {
      var x := n.children[i].name;
      var c := n.children[i].node;
      assert Names(n.children)[i] == x;
      PrependMember(x, PathsFrom(c, 0), q);
      if q != [] && q[0] == x {
        PathsFromMember(c, 0, q[1..]);
        NotRepeatedLater(n, i);
        MemberHere(n, i, q);
      } else {
        PathsFromMember(n, i + 1, q);
      }
    }
  }

  /** The case of `PathsFromMember` where `q` starts with the `i`-th child's name. */
  lemma MemberHere(n: Node, i: nat, q: seq<string>)
    requires WellFormed(n) && i < |n.children| && q != [] && q[0] == n.children[i].name
    requires q[1..] in PathsFrom(n.children[i].node, 0) <==>
      q[1..] != [] && HasPath(n.children[i].node, q[1..])
    ensures q in PathsFrom(n, i) <==> HasPath(n, q)
  {
    var x := n.children[i].name;
    var c := n.children[i].node;
    assert Names(n.children)[i] == x;
    assert IndexOf(Names(n.children), x) == i;
    assert HasPath(n, q) == HasPath(c, q[1..]);
    PrependMember(x, PathsFrom(c, 0), q);
    NotRepeatedLater(n, i);
    if q in PathsFrom(n, i + 1) {
      PathsFromShape(n, i + 1, q);
    }
    if |q| == 1 {
      assert q == [x];
    } else {
      assert q != [x];
    }
  }

  /** Every distinct chain of names present in the built tree is one node, and
      the nonempty ones are exactly the prefixes of the segments of the inputs. */
  lemma BuildChains(paths: seq<string>)
    ensures PathsFrom(Build(paths), 0) == Chains(paths)
  {
    var t := Build(paths);
    ExtendWellFormed(Empty, paths);
    forall q ensures q in PathsFrom(t, 0) <==> q in Chains(paths) {
      PathsFromMember(t, 0, q);
      BuildHasPath(paths, q);
      if q in Chains(paths) {
        var p, j :| p in paths && 1 <= j <= |Split(p)| && q == Split(p)[..j];
        assert q <= Split(p);
      }
      if q != [] && HasPath(t, q) {
        var p :| p in paths && q <= Split(p);
        assert q == Split(p)[..|q|];
      }
    }
  }

  /** The rendering has one line per distinct node: per distinct nonempty
      prefix of the segments of the input paths, however often a path or a
      directory is repeated in the listing. */
  lemma LinesPerNode(paths: seq<string>)
    ensures |Render(paths)| == |Chains(paths)|
  {
    FormatLength(Build(paths), "");
    ExtendWellFormed(Empty, paths);
    PathsFromCard(Build(paths), 0);
    BuildChains(paths);
  }

  /** Repeating the whole listing does not change the rendering. */
  lemma RenderTwice(paths: seq<string>)
    ensures Render(paths + paths) == Render(paths)
  {
    BuildTwice(paths);
  }

  // ---------------------------------------------------------------------------
  // Worked examples

  /** Python's `split("/")` keeps empty segments. */
  lemma SplitExamples()
    ensures Split("") == [""]
    ensures Split("a//b") == ["a", "", "b"]
    ensures Split("/") == ["", ""]
  {
    SplitSegment("");
    SplitSegment("a");
    SplitSegment("b");
    SplitCons("", "b");
    assert "a//b" == "a" + "/" + "/b";
    SplitCons("a", "/b");
    assert "/b" == "" + "/" + "b";
    assert "/" == "" + "/" + "";
    SplitCons("", "");
  }

  /** An empty listing renders as no lines. */
  lemma RenderNothing()
    ensures Render([]) == []
  {
  }

  /** Building two paths is inserting the first into an empty root, then the second. */
  lemma BuildPair(p: string, q: string)
    ensures Build([p, q]) == Insert(Insert(Empty, Split(p)), Split(q))
  {
    BuildSingle(p);
    assert [p, q][..1] == [p];
    assert Extend(Empty, [p, q]) == Insert(Extend(Empty, [p]), Split(q));
  }

  /** Building one path is inserting it into an empty root. */
  lemma BuildSingle(p: string)
    ensures Build([p]) == Insert(Empty, Split(p))
  {
    assert [p][..0] == [];
    assert Extend(Empty, [p]) == Insert(Extend(Empty, []), Split(p));
  }

  /** A single file at the top. */
  lemma RenderOne(f: string)
    requires IsSegment(f)
    ensures Render([f]) == [Connector(true) + f]
  {
    SplitSegment(f);
    BuildSingle(f);
    InsertFresh(Empty, [f]);
    var t := Node([Entry(f, Empty)]);
    assert Build([f]) == t;
    assert FormatFrom(t, 1, "") == [];
    assert Format(t, "") == ["" + Connector(true) + f];
    assert "" + Connector(true) + f == Connector(true) + f;
  }

  lemma RenderOneFile()
    ensures Render(["a.txt"]) == ["\U{2514}\U{2500}\U{2500} a.txt"]
  {
    RenderOne("a.txt");
    assert Connector(true) + "a.txt" == "\U{2514}\U{2500}\U{2500} a.txt";
  }

  /** A directory `d` with one file `f`, then a file `g` beside it. */
  lemma BuildDirThenFile(d: string, f: string, g: string)
    requires IsSegment(d) && IsSegment(f) && IsSegment(g) && d != g
    ensures Build([d + "/" + f, g]) == Node([Entry(d, Node([Entry(f, Empty)])), Entry(g, Empty)])
  {
    var y := Node([Entry(f, Empty)]);
    var t1 := Node([Entry(d, y)]);
    SplitSegment(f);
    SplitSegment(g);
    SplitCons(d, f);
    assert Insert(Empty, [f]) == y by {
      InsertFresh(Empty, [f]);
    }
    assert Insert(Empty, [d, f]) == t1 by {
      InsertFresh(Empty, [d, f]);
      assert [d, f][1..] == [f];
    }
    assert Insert(t1, [g]) == Node([Entry(d, y), Entry(g, Empty)]) by {
      assert Names(t1.children) == [d];
      InsertFresh(t1, [g]);
    }
    BuildPair(d + "/" + f, g);
  }

  lemma RenderDirThenFile(d: string, f: string, g: string)
    requires IsSegment(d) && IsSegment(f) && IsSegment(g) && d != g
    ensures Render([d + "/" + f, g]) ==
      [Connector(false) + d, Extension(false) + Connector(true) + f, Connector(true) + g]
  {
    BuildDirThenFile(d, f, g);
    var y := Node([Entry(f, Empty)]);
    var t := Node([Entry(d, y), Entry(g, Empty)]);
    assert Render([d + "/" + f, g]) == Format(t, "");
    var ext := "" + Extension(false);
    assert ext == Extension(false);
    assert Format(y, ext) == [ext + Connector(true) + f] by {
      assert FormatFrom(y, 1, ext) == [];
    }
    assert FormatFrom(t, 1, "") == ["" + Connector(true) + g] by {
      assert FormatFrom(t, 2, "") == [];
    }
    assert Format(t, "") == ["" + Connector(false) + d] + Format(y, ext) + FormatFrom(t, 1, "");
    assert "" + Connector(false) + d == Connector(false) + d;
    assert "" + Connector(true) + g == Connector(true) + g;
  }

  lemma RenderNested()
    ensures Render(["x/y.txt", "z.txt"]) ==
      [ "\U{251C}\U{2500}\U{2500} x",
        "\U{2502}   \U{2514}\U{2500}\U{2500} y.txt",
        "\U{2514}\U{2500}\U{2500} z.txt" ]
  {
    assert "x" + "/" + "y.txt" == "x/y.txt";
    RenderDirThenFile("x", "y.txt", "z.txt");
    NestedText();
  }

  lemma NestedText()
    ensures Connector(false) + "x" == "\U{251C}\U{2500}\U{2500} x"
    ensures Extension(false) + Connector(true) + "y.txt" == "\U{2502}   \U{2514}\U{2500}\U{2500} y.txt"
    ensures Connector(true) + "z.txt" == "\U{2514}\U{2500}\U{2500} z.txt"
  {
  }

  /** A directory `d` listed on its own before a path `d/f` below it: one node `d`. */
  lemma BuildDirThenContent(d: string, f: string)
    requires IsSegment(d) && IsSegment(f)
    ensures Build([d, d + "/" + f]) == Node([Entry(d, Node([Entry(f, Empty)]))])
  {
    var b := Node([Entry(f, Empty)]);
    var t1 := Node([Entry(d, Empty)]);
    SplitSegment(d);
    SplitSegment(f);
    SplitCons(d, f);
    assert Insert(Empty, [d]) == t1 by {
      InsertFresh(Empty, [d]);
    }
    assert Insert(t1, [d, f]) == Node([Entry(d, b)]) by {
      InsertFound(t1, [d, f], 0);
      InsertFresh(Empty, [f]);
      assert [d, f][1..] == [f];
      assert Insert(Empty, [f]) == b;
      assert t1.children[0 := Entry(d, b)] == [Entry(d, b)];
    }
    BuildPair(d, d + "/" + f);
  }

  lemma RenderDirThenContent(d: string, f: string)
    requires IsSegment(d) && IsSegment(f)
    ensures Render([d, d + "/" + f]) == [Connector(true) + d, Extension(true) + Connector(true) + f]
  {
    BuildDirThenContent(d, f);
    var b := Node([Entry(f, Empty)]);
    var t := Node([Entry(d, b)]);
    assert Render([d, d + "/" + f]) == Format(t, "");
    var ext := "" + Extension(true);
    assert ext == Extension(true);
    assert Format(b, ext) == [ext + Connector(true) + f] by {
      assert FormatFrom(b, 1, ext) == [];
    }
    assert Format(t, "") == ["" + Connector(true) + d] + Format(b, ext) by {
      assert FormatFrom(t, 1, "") == [];
    }
    assert "" + Connector(true) + d == Connector(true) + d;
  }

  lemma RenderMerged()
    ensures Render(["a", "a/b"]) ==
      [ "\U{2514}\U{2500}\U{2500} a",
        "    \U{2514}\U{2500}\U{2500} b" ]
  {
    assert "a" + "/" + "b" == "a/b";
    RenderDirThenContent("a", "b");
    assert Connector(true) + "a" == "\U{2514}\U{2500}\U{2500} a";
    assert Extension(true) + Connector(true) + "b" == "    \U{2514}\U{2500}\U{2500} b";
  }

  /** Two files `f` and `g` in one directory `d`. */
  lemma BuildTwoInDir(d: string, f: string, g: string)
    requires IsSegment(d) && IsSegment(f) && IsSegment(g) && f != g
    ensures Build([d + "/" + f, d + "/" + g]) ==
      Node([Entry(d, Node([Entry(f, Empty), Entry(g, Empty)]))])
  {
    var s1 := Node([Entry(f, Empty)]);
    var t1 := Node([Entry(d, s1)]);
    var s := Node([Entry(f, Empty), Entry(g, Empty)]);
    SplitSegment(f);
    SplitSegment(g);
    SplitCons(d, f);
    SplitCons(d, g);
    assert Insert(Empty, [f]) == s1 by {
      InsertFresh(Empty, [f]);
    }
    assert Insert(Empty, [d, f]) == t1 by {
      InsertFresh(Empty, [d, f]);
      assert [d, f][1..] == [f];
    }
    assert Insert(s1, [g]) == s by {
      assert Names(s1.children) == [f];
      InsertFresh(s1, [g]);
    }
    assert Insert(t1, [d, g]) == Node([Entry(d, s)]) by {
      InsertFound(t1, [d, g], 0);
      assert [d, g][1..] == [g];
      assert t1.children[0 := Entry(d, s)] == [Entry(d, s)];
    }
    BuildPair(d + "/" + f, d + "/" + g);
  }

  lemma RenderTwoInDir(d: string, f: string, g: string)
    requires IsSegment(d) && IsSegment(f) && IsSegment(g) && f != g
    ensures Render([d + "/" + f, d + "/" + g]) ==
      [Connector(true) + d, Extension(true) + Connector(false) + f, Extension(true) + Connector(true) + g]
  {
    BuildTwoInDir(d, f, g);
    var s := Node([Entry(f, Empty), Entry(g, Empty)]);
    var t := Node([Entry(d, s)]);
    assert Render([d + "/" + f, d + "/" + g]) == Format(t, "");
    var ext := "" + Extension(true);
    assert ext == Extension(true);
    assert Format(s, ext) == [ext + Connector(false) + f, ext + Connector(true) + g] by {
      assert FormatFrom(s, 2, ext) == [];
      assert FormatFrom(s, 1, ext) == [ext + Connector(true) + g];
    }
    assert Format(t, "") == ["" + Connector(true) + d] + Format(s, ext) by {
      assert FormatFrom(t, 1, "") == [];
    }
    assert "" + Connector(true) + d == Connector(true) + d;
  }

  lemma RenderSiblings()
    ensures Render(["src/a.py", "src/b.py"]) ==
      [ "\U{2514}\U{2500}\U{2500} src",
        "    \U{251C}\U{2500}\U{2500} a.py",
        "    \U{2514}\U{2500}\U{2500} b.py" ]
  {
    assert "src" + "/" + "a.py" == "src/a.py";
    assert "src" + "/" + "b.py" == "src/b.py";
    RenderTwoInDir("src", "a.py", "b.py");
    SiblingsText();
  }

  lemma SiblingsText()
    ensures Connector(true) + "src" == "\U{2514}\U{2500}\U{2500} src"
    ensures Extension(true) + Connector(false) + "a.py" == "    \U{251C}\U{2500}\U{2500} a.py"
    ensures Extension(true) + Connector(true) + "b.py" == "    \U{2514}\U{2500}\U{2500} b.py"
  {
  }
}
