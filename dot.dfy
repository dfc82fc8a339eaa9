/**
 * `generate_dot`: the graph as Graphviz DOT text. A header line, then one
 * line per parent and child (parents in the dict's key order, each parent's
 * children in whatever order iterating its set yields), then a closing
 * brace. Names are written between quotes exactly as they are.
 */
module Dot {
  import opened Paths
  import opened DependencyGraph
  import Seqs

  const Header: string := "digraph dependencies {\n"
  const Footer: string := "}"

  /** The line written for one edge; neither name is escaped. */
  function Line(parent: string, child: string): string {
    "    \"" + parent + "\" -> \"" + child + "\";\n"
  }

  /** `order` lists the set `s`, each element once. */
  ghost predicate Enumerates(order: seq<string>, s: set<string>) {
    (forall c :: c in order <==> c in s) && Seqs.Distinct(order)
  }

  /** Each `orders[i]` is an order in which the children of key `i` can be
      visited. */
  ghost predicate Lists(keys: seq<string>, children: map<string, set<string>>, orders: seq<seq<string>>) {
    |orders| == |keys| &&
    forall i :: 0 <= i < |keys| ==> keys[i] in children && Enumerates(orders[i], children[keys[i]])
  }

  /** The edges of one parent's lines, its children in the order `order`. */
  function Block(parent: string, order: seq<string>): seq<Edge> {
    seq(|order|, k requires 0 <= k < |order| => Edge(parent, order[k]))
  }

  /** The edges in the order their lines are written. */
  function Emitted(keys: seq<string>, orders: seq<seq<string>>): seq<Edge>
    requires |orders| == |keys|
    decreases |keys|
  {
    if keys == [] then []
    else Emitted(keys[..|keys| - 1], orders[..|keys| - 1]) + Block(keys[|keys| - 1], orders[|keys| - 1])
  }

  /** The lines of the edges, one after the other. */
  function Render(es: seq<Edge>): string
    decreases |es|
  {
    if es == [] then [] else Render(es[..|es| - 1]) + Line(es[|es| - 1].parent, es[|es| - 1].child)
  }

  /** The text for the keys in order, with key `i`'s children in the order
      `orders[i]`. */
  function DotText(keys: seq<string>, orders: seq<seq<string>>): string
    requires |orders| == |keys|
  {
    Header + Render(Emitted(keys, orders)) + Footer
  }

  /** `generate_dot` on a dict given by its keys, in insertion order, and
      its key-to-set map. The set of each key is iterated in an order the
      model leaves open; `orders` records it. */
  method GenerateDot(keys: seq<string>, children: map<string, set<string>>)
    returns (dot: string, ghost orders: seq<seq<string>>)
    requires forall i :: 0 <= i < |keys| ==> keys[i] in children
    ensures Lists(keys, children, orders)
    ensures dot == DotText(keys, orders)
    ensures keys == [] ==> dot == "digraph dependencies {\n}"
  {
    dot := Header;
    orders := [];
    var i := 0;
    while i < |keys|
      invariant i <= |keys|
      invariant Lists(keys[..i], children, orders)
      invariant dot == Header + Render(Emitted(keys[..i], orders))
    {
      var parent := keys[i];
      var rest := children[parent];
      ghost var order: seq<string> := [];
      ghost var done := Emitted(keys[..i], orders);
      assert done + Block(parent, order) == done;
      while rest != {}
        invariant rest <= children[parent]
        invariant forall c :: c in order <==> c in children[parent] && c !in rest
        invariant Seqs.Distinct(order)
        invariant dot == Header + Render(done + Block(parent, order))
        decreases |rest|
      {
        var child :| child in rest;
        RenderStep(dot, done, parent, order, child);
        dot := dot + Line(parent, child);
        rest := rest - {child};
        order := order + [child];
      }
      assert Enumerates(order, children[parent]);
      ListsStep(keys, children, orders, order, i);
      EmittedStep(keys, orders, order, i);
      orders := orders + [order];
      i := i + 1;
    }
    assert keys[..i] == keys;
    dot := dot + Footer;
  }

  /** One more child of the current parent adds its line at the end. */
  lemma RenderStep(dot: string, done: seq<Edge>, parent: string, order: seq<string>, child: string)
    requires dot == Header + Render(done + Block(parent, order))
    ensures dot + Line(parent, child) == Header + Render(done + Block(parent, order + [child]))
  {
    BlockSnoc(parent, order, child);
    AppendAssoc(done, Block(parent, order), [Edge(parent, child)]);
    RenderSnoc(done + Block(parent, order), Edge(parent, child));
  }

  lemma BlockSnoc(parent: string, order: seq<string>, child: string)
    ensures Block(parent, order + [child]) == Block(parent, order) + [Edge(parent, child)]
  {
  }

  lemma RenderSnoc(es: seq<Edge>, e: Edge)
    ensures Render(es + [e]) == Render(es) + Line(e.parent, e.child)
  {
    assert (es + [e])[..|es|] == es;
  }

  lemma ListsStep(keys: seq<string>, children: map<string, set<string>>, orders: seq<seq<string>>,
                  order: seq<string>, i: nat)
    requires i < |keys| && Lists(keys[..i], children, orders)
    requires keys[i] in children && Enumerates(order, children[keys[i]])
    ensures Lists(keys[..i + 1], children, orders + [order])
  {
    forall k | 0 <= k < i + 1
      ensures keys[..i + 1][k] in children && Enumerates((orders + [order])[k], children[keys[..i + 1][k]])
    {
      if k < i {
        assert keys[..i + 1][k] == keys[..i][k];
      }
    }
  }

  /** One more key adds its block after those of the earlier keys. */
  lemma EmittedStep(keys: seq<string>, orders: seq<seq<string>>, order: seq<string>, i: nat)
    requires i < |keys| && |orders| == i
    ensures Emitted(keys[..i + 1], orders + [order]) == Emitted(keys[..i], orders) + Block(keys[i], order)
  {
    assert keys[..i + 1][..i] == keys[..i];
    assert (orders + [order])[..i] == orders;
  }

  // What the text says about the graph.

  /** An edge is written exactly when its child is listed under its parent. */
  lemma EmittedMembers(keys: seq<string>, orders: seq<seq<string>>, e: Edge)
    requires |orders| == |keys|
    ensures e in Emitted(keys, orders) <==>
            exists i :: 0 <= i < |keys| && e.parent == keys[i] && e.child in orders[i]
  {
    if e in Emitted(keys, orders) {
      EmittedOwner(keys, orders, e);
    }
    if exists i :: 0 <= i < |keys| && e.parent == keys[i] && e.child in orders[i] {
      var i :| 0 <= i < |keys| && e.parent == keys[i] && e.child in orders[i];
      EmittedHas(keys, orders, i, e);
    }
  }

  lemma {:induction false} EmittedOwner(keys: seq<string>, orders: seq<seq<string>>, e: Edge)
    requires |orders| == |keys| && e in Emitted(keys, orders)
    ensures exists i :: 0 <= i < |keys| && e.parent == keys[i] && e.child in orders[i]
    decreases |keys|
  {
    var n := |keys| - 1;
    BlockMembers(keys[n], orders[n], e);
    if e !in Block(keys[n], orders[n]) {
      EmittedOwner(keys[..n], orders[..n], e);
      var i :| 0 <= i < n && e.parent == keys[..n][i] && e.child in orders[..n][i];
      assert e.parent == keys[i] && e.child in orders[i];
    }
  }

  lemma {:induction false} EmittedHas(keys: seq<string>, orders: seq<seq<string>>, i: nat, e: Edge)
    requires |orders| == |keys| && i < |keys| && e.parent == keys[i] && e.child in orders[i]
    ensures e in Emitted(keys, orders)
    decreases |keys|
  {
    var n := |keys| - 1;
    if i == n {
      BlockMembers(keys[n], orders[n], e);
    } else {
      assert keys[..n][i] == keys[i] && orders[..n][i] == orders[i];
      EmittedHas(keys[..n], orders[..n], i, e);
    }
  }

  lemma BlockMembers(parent: string, order: seq<string>, e: Edge)
    ensures e in Block(parent, order) <==> e.parent == parent && e.child in order
  {
    var block := Block(parent, order);
    if e in block {
      var k :| 0 <= k < |block| && block[k] == e;
      assert order[k] in order;
    }
    if e.parent == parent && e.child in order {
      var k :| 0 <= k < |order| && order[k] == e.child;
      assert block[k] == e;
    }
  }

  /** Distinct keys with duplicate-free orders write no line twice. */
  lemma {:induction false} EmittedDistinct(keys: seq<string>, orders: seq<seq<string>>)
    requires |orders| == |keys| && Seqs.Distinct(keys)
    requires forall i :: 0 <= i < |orders| ==> Seqs.Distinct(orders[i])
    ensures Seqs.Distinct(Emitted(keys, orders))
    decreases |keys|
  {
    if keys != [] {
      var n := |keys| - 1;
      var done := Emitted(keys[..n], orders[..n]);
      var block := Block(keys[n], orders[n]);
      EmittedDistinct(keys[..n], orders[..n]);
      forall a, b | 0 <= a < |done| && 0 <= b < |block|
        ensures done[a] != block[b]
      {
        EmittedMembers(keys[..n], orders[..n], done[a]);
      }
      Seqs.DistinctConcat(done, block);
    }
  }

  /** For the graph `build_dependency_graph` returns, the text holds one
      line for each distinct edge added and no other line. */
  lemma DotLinesAreEdges(edges: seq<Edge>, orders: seq<seq<string>>)
    requires Lists(ParentOrder(edges), ChildMap(edges), orders)
    ensures forall e :: e in Emitted(ParentOrder(edges), orders) <==> e in edges
    ensures Seqs.Distinct(Emitted(ParentOrder(edges), orders))
    ensures |Emitted(ParentOrder(edges), orders)| == |set e | e in edges|
  {
    var keys := ParentOrder(edges);
    var em := Emitted(keys, orders);
    forall e
      ensures e in em <==> e in edges
    {
      EmittedMembers(keys, orders, e);
      ChildMapMembers(edges, e.parent, e.child);
      ParentOrderMembers(edges, e.parent);
      if e in edges {
        var i :| 0 <= i < |keys| && keys[i] == e.parent;
        assert e.child in orders[i];
      }
    }
    ParentOrderDistinct(edges);
    EmittedDistinct(keys, orders);
    Seqs.DistinctCard(em);
    assert (set e | e in em) == (set e | e in edges);
  }

  /** Lines are grouped by parent, the groups in key order. */
  lemma {:induction false} ParentsInKeyOrder(keys: seq<string>, orders: seq<seq<string>>)
    requires |orders| == |keys| && Seqs.Distinct(keys)
    ensures var em := Emitted(keys, orders);
            forall a, b, i, j ::
              (0 <= a < b < |em| && 0 <= i < |keys| && 0 <= j < |keys|
               && em[a].parent == keys[i] && em[b].parent == keys[j]) ==> i <= j
    decreases |keys|
  {
    if keys != [] {
      var n := |keys| - 1;
      var done := Emitted(keys[..n], orders[..n]);
      var block := Block(keys[n], orders[n]);
      var em := Emitted(keys, orders);
      ParentsInKeyOrder(keys[..n], orders[..n]);
      forall a, b, i, j | 0 <= a < b < |em| && 0 <= i < |keys| && 0 <= j < |keys|
        && em[a].parent == keys[i] && em[b].parent == keys[j]
        ensures i <= j
      {
        if b < |done| {
          assert em[a] == done[a] && em[b] == done[b];
          EmittedMembers(keys[..n], orders[..n], done[a]);
          EmittedMembers(keys[..n], orders[..n], done[b]);
          var i' :| 0 <= i' < n && done[a].parent == keys[..n][i'] && done[a].child in orders[..n][i'];
          var j' :| 0 <= j' < n && done[b].parent == keys[..n][j'] && done[b].child in orders[..n][j'];
          assert i == i' && j == j';
        } else {
          assert em[b] == block[b - |done|];
          assert j == n;
        }
      }
    }
  }

  // The line format.

  lemma LineParts(p: string, c: string)
    ensures |Line(p, c)| == |p| + |c| + 14
    ensures Line(p, c)[5..5 + |p|] == p && Line(p, c)[5 + |p|] == '"'
    ensures Line(p, c)[11 + |p|..11 + |p| + |c|] == c
  {
  }

  /** When the parent names hold no quote, a line determines its edge. */
  lemma LineInjective(p1: string, c1: string, p2: string, c2: string)
    requires '"' !in p1 && '"' !in p2
    requires Line(p1, c1) == Line(p2, c2)
    ensures p1 == p2 && c1 == c2
  {
    LineParts(p1, c1);
    LineParts(p2, c2);
  }

  /** Names are not escaped: a quote in a name can make two different edges
      write the same line. */
  lemma LineAmbiguous()
    ensures Line("a", "b\" -> \"c") == Line("a\" -> \"b", "c")
  {
  }

  /** The graph of the unit test of `generate_dot`. */
  const TestKeys: seq<string> := [".", "src"]
  const TestChildren: map<string, set<string>> :=
    map["." := {"src", "README.md"}, "src" := {"src/main.py", "src/utils.py"}]
  /** The text the test expects. */
  const TestExpected: string := "digraph dependencies {\n"
    + "    \".\" -> \"README.md\";\n"
    + "    \".\" -> \"src\";\n"
    + "    \"src\" -> \"src/main.py\";\n"
    + "    \"src\" -> \"src/utils.py\";\n"
    + "}"

  /** The test's expected text is what `generate_dot` writes when iterating
      each set yields its names in sorted order. */
  lemma TestGenerateDot()
    ensures var sorted := [["README.md", "src"], ["src/main.py", "src/utils.py"]];
            Lists(TestKeys, TestChildren, sorted) && DotText(TestKeys, sorted) == TestExpected
  {
    var sorted := [["README.md", "src"], ["src/main.py", "src/utils.py"]];
    TestLists(TestKeys, TestChildren, sorted);
    TestText(".", "README.md", "src", "src", "src/main.py", "src/utils.py");
    TestLine1();
    TestLine2();
    TestLine3();
    TestLine4();
  }

  /** The test depends on the order in which a set is iterated: visiting
      `src` before `README.md`, which the set allows, writes another text. */
  lemma TestDependsOnSetOrder()
    ensures var swapped := [["src", "README.md"], ["src/main.py", "src/utils.py"]];
            Lists(TestKeys, TestChildren, swapped) && DotText(TestKeys, swapped) != TestExpected
  {
    var swapped := [["src", "README.md"], ["src/main.py", "src/utils.py"]];
    TestLists(TestKeys, TestChildren, swapped);
    TestText(".", "src", "README.md", "src", "src/main.py", "src/utils.py");
    TestLine2();
    FirstLineChar(Line(".", "src"), Line(".", "README.md"), Line("src", "src/main.py"), Line("src", "src/utils.py"), 12);
    FirstLineChar("    \".\" -> \"README.md\";\n", "    \".\" -> \"src\";\n",
                  "    \"src\" -> \"src/main.py\";\n", "    \"src\" -> \"src/utils.py\";\n", 12);
  }

  /** A character of the first of four lines, counted after the header. */
  lemma FirstLineChar(l1: string, l2: string, l3: string, l4: string, k: nat)
    requires k < |l1|
    ensures (Header + l1 + l2 + l3 + l4 + Footer)[|Header| + k] == l1[k]
  {
    assert Header + l1 + l2 + l3 + l4 + Footer == (Header + l1) + (l2 + l3 + l4 + Footer);
  }

  lemma TestLists(keys: seq<string>, children: map<string, set<string>>, orders: seq<seq<string>>)
    requires keys == [".", "src"]
    requires children == map["." := {"src", "README.md"}, "src" := {"src/main.py", "src/utils.py"}]
    requires orders == [["README.md", "src"], ["src/main.py", "src/utils.py"]]
          || orders == [["src", "README.md"], ["src/main.py", "src/utils.py"]]
    ensures Lists(keys, children, orders)
  {
    assert "README.md" != "src" && "src/main.py" != "src/utils.py" by {
      assert "README.md"[0] != "src"[0];
      assert "src/main.py"[4] != "src/utils.py"[4];
    }
  }

  lemma TestLine1() ensures Line(".", "README.md") == "    \".\" -> \"README.md\";\n" {}
  lemma TestLine2() ensures Line(".", "src") == "    \".\" -> \"src\";\n" {}
  lemma TestLine3() ensures Line("src", "src/main.py") == "    \"src\" -> \"src/main.py\";\n" {}
  lemma TestLine4() ensures Line("src", "src/utils.py") == "    \"src\" -> \"src/utils.py\";\n" {}

  /** The text of a graph with two keys of two children each. */
  lemma TestText(p: string, c1: string, c2: string, q: string, d1: string, d2: string)
    ensures DotText([p, q], [[c1, c2], [d1, d2]])
         == Header + Line(p, c1) + Line(p, c2) + Line(q, d1) + Line(q, d2) + Footer
  {
    TestEmitted(p, c1, c2, q, d1, d2);
    TestRender(Edge(p, c1), Edge(p, c2), Edge(q, d1), Edge(q, d2));
  }

  lemma TestEmitted(p: string, c1: string, c2: string, q: string, d1: string, d2: string)
    ensures Emitted([p, q], [[c1, c2], [d1, d2]]) == [Edge(p, c1), Edge(p, c2), Edge(q, d1), Edge(q, d2)]
  {
    var keys := [p, q];
    var orders := [[c1, c2], [d1, d2]];
    var es := [Edge(p, c1), Edge(p, c2), Edge(q, d1), Edge(q, d2)];
    assert Block(p, [c1, c2]) == es[..2];
    assert Block(q, [d1, d2]) == es[2..];
    assert keys[..1] == [p] && orders[..1] == [[c1, c2]];
    assert [p][..0] == [] && [[c1, c2]][..0] == [];
    assert Emitted([p], [[c1, c2]]) == es[..2];
    assert Emitted(keys, orders) == es[..2] + es[2..] == es;
  }

  lemma TestRender(e1: Edge, e2: Edge, e3: Edge, e4: Edge)
    ensures Render([e1, e2, e3, e4])
         == Line(e1.parent, e1.child) + Line(e2.parent, e2.child) + Line(e3.parent, e3.child) + Line(e4.parent, e4.child)
  {
    var es := [e1, e2, e3, e4];
    assert es[..3][..2] == es[..2] && es[..2][..1] == es[..1] && es[..1][..0] == [];
    assert Render(es[..1]) == Line(e1.parent, e1.child);
    assert Render(es[..2]) == Line(e1.parent, e1.child) + Line(e2.parent, e2.child);
    assert es[..4] == es;
  }
}
