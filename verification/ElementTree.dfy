/** The tree behind a document's events, and which elements lie inside which. */
module ElementTree {
  import opened Axml

  datatype Tree = Node(name: string, attributes: Attributes, children: seq<Tree>)

  /** The event stream a printer of the forest would write. */
  function Events(forest: seq<Tree>): seq<Event> {
    if forest == [] then []
    else
      var t := forest[0];
      [Start(t.name, t.attributes)] + Events(t.children) + [End] + Events(forest[1..])
  }

  function Preorder(forest: seq<Tree>, depth: int): seq<Element> {
    if forest == [] then []
    else
      var t := forest[0];
      [Element(t.name, t.attributes, depth)] + Preorder(t.children, depth + 1) + Preorder(forest[1..], depth)
  }

  lemma EventsUnfold(forest: seq<Tree>, rest: seq<Event>)
    requires forest != []
    ensures var t := forest[0];
            Events(forest) + rest == [Start(t.name, t.attributes)] +
              (Events(t.children) + ([End] + (Events(forest[1..]) + rest)))
  {
  }

  lemma ElementsUnfold(name: string, attributes: Attributes, rest: seq<Event>, depth: int)
    ensures Elements([Start(name, attributes)] + rest, depth) ==
              [Element(name, attributes, depth)] + Elements(rest, depth + 1)
    ensures Elements([End] + rest, depth) == Elements(rest, depth - 1)
  {
    assert ([Start(name, attributes)] + rest)[1..] == rest;
    assert ([End] + rest)[1..] == rest;
  }

  /** The parser's elements are the tree's preorder with true depths, whatever follows. */
  lemma {:induction false} ElementsArePreorder(forest: seq<Tree>, rest: seq<Event>, depth: int)
    ensures Elements(Events(forest) + rest, depth) == Preorder(forest, depth) + Elements(rest, depth)
    decreases forest
  {
    if forest == [] {
      assert Events(forest) + rest == rest;
      assert Preorder(forest, depth) + Elements(rest, depth) == Elements(rest, depth);
    } else {
      PreorderUnfolds(forest, depth);
      hide Elements, Events, Preorder;
      var t := forest[0];
      var others := Events(forest[1..]) + rest;
      EventsUnfold(forest, rest);
      ElementsUnfold(t.name, t.attributes, Events(t.children) + ([End] + others), depth);
      ElementsArePreorder(t.children, [End] + others, depth + 1);
      ElementsUnfold("", [], others, depth + 1);
      ElementsArePreorder(forest[1..], rest, depth);
      Regroup([Element(t.name, t.attributes, depth)], Preorder(t.children, depth + 1), Preorder(forest[1..], depth),
              Elements(rest, depth));
    }
  }

  lemma Regroup<T>(a: seq<T>, b: seq<T>, c: seq<T>, d: seq<T>)
    ensures a + (b + c) + d == a + (b + (c + d))
  {
  }

  // ------------------------------------------------------- depths determine the tree

  lemma {:induction false} PreorderDepths(forest: seq<Tree>, depth: int)
    ensures forall e :: e in Preorder(forest, depth) ==> e.depth >= depth
    ensures forest != [] ==> Preorder(forest, depth) != [] && Preorder(forest, depth)[0].depth == depth
    decreases forest
  {
    if forest != [] {
      PreorderDepths(forest[0].children, depth + 1);
      PreorderDepths(forest[1..], depth);
    }
  }

  lemma NotShorter(a: seq<Element>, b: seq<Element>, c: seq<Element>, d: seq<Element>, depth: int)
    requires a + b == c + d
    requires forall e :: e in c ==> e.depth > depth
    requires b != [] ==> b[0].depth == depth
    ensures |c| <= |a|
  {
    assert forall k :: 0 <= k < |c| ==> (a + b)[k] == c[k];
    assert b != [] ==> (a + b)[|a|] == b[0];
  }

  /** Where the first node's children end: at the first element back at `depth`. */
  lemma ChildrenEnd(a: seq<Element>, b: seq<Element>, c: seq<Element>, d: seq<Element>, depth: int)
    requires a + b == c + d
    requires (forall e :: e in a ==> e.depth > depth) && (forall e :: e in c ==> e.depth > depth)
    requires (b != [] ==> b[0].depth == depth) && (d != [] ==> d[0].depth == depth)
    ensures a == c && b == d
  {
    NotShorter(a, b, c, d, depth);
    NotShorter(c, d, a, b, depth);
    assert a == (a + b)[..|a|] && c == (c + d)[..|c|];
    assert b == (a + b)[|a|..] && d == (c + d)[|c|..];
  }

  lemma PreorderUnfolds(forest: seq<Tree>, depth: int)
    requires forest != []
    ensures var t := forest[0];
            Preorder(forest, depth) ==
            [Element(t.name, t.attributes, depth)] + (Preorder(t.children, depth + 1) + Preorder(forest[1..], depth))
  {
  }

  /** Two documents with the same names, attributes and depths are the same tree. */
  lemma {:induction false} PreorderIsInjective(f: seq<Tree>, g: seq<Tree>, depth: int)
    requires Preorder(f, depth) == Preorder(g, depth)
    ensures f == g
    decreases f
  {
    PreorderDepths(f, depth);
    PreorderDepths(g, depth);
    assert Preorder([], depth) == [];
    hide Preorder;
    if f != [] && g != [] {
      var t, u := f[0], g[0];
      PreorderUnfolds(f, depth);
      PreorderUnfolds(g, depth);
      var a, b := Preorder(t.children, depth + 1), Preorder(f[1..], depth);
      var c, d := Preorder(u.children, depth + 1), Preorder(g[1..], depth);
      SameHeadAndTail(Element(t.name, t.attributes, depth), a + b, Element(u.name, u.attributes, depth), c + d);
      PreorderDepths(t.children, depth + 1);
      PreorderDepths(u.children, depth + 1);
      PreorderDepths(f[1..], depth);
      PreorderDepths(g[1..], depth);
      ChildrenEnd(a, b, c, d, depth);
      PreorderIsInjective(t.children, u.children, depth + 1);
      PreorderIsInjective(f[1..], g[1..], depth);
      assert t == u;
      assert f == [t] + f[1..] && g == [u] + g[1..];
    }
  }

  lemma SameHeadAndTail(x: Element, xs: seq<Element>, y: Element, ys: seq<Element>)
    requires [x] + xs == [y] + ys
    ensures x == y && xs == ys
  {
    assert ([x] + xs)[0] == x && ([y] + ys)[0] == y;
    assert ([x] + xs)[1..] == xs && ([y] + ys)[1..] == ys;
  }

  // ------------------------------------------------------- descendants

  /** For each element of the preorder, the child numbers leading to it. */
  function Paths(forest: seq<Tree>, parent: seq<nat>, k: nat): seq<seq<nat>> {
    if forest == [] then []
    else [parent + [k]] + Paths(forest[0].children, parent + [k], 0) + Paths(forest[1..], parent, k + 1)
  }

  predicate ProperPrefix(a: seq<nat>, b: seq<nat>) {
    |a| < |b| && b[..|a|] == a
  }

  lemma {:induction false} PathsFit(forest: seq<Tree>, parent: seq<nat>, k: nat, depth: int)
    ensures |Paths(forest, parent, k)| == |Preorder(forest, depth)|
    ensures forall p :: p in Paths(forest, parent, k) ==> ProperPrefix(parent, p) && p[|parent|] >= k
    decreases forest
  {
    if forest != [] {
      var q := parent + [k];
      PathsFit(forest[0].children, q, 0, depth + 1);
      PathsFit(forest[1..], parent, k + 1, depth);
      forall p | p in Paths(forest[0].children, q, 0) ensures ProperPrefix(parent, p) && p[|parent|] >= k {
        assert p[..|q|] == q && p[..|q|][|parent|] == k;
        assert p[..|parent|] == q[..|parent|];
      }
    }
  }

  /** From `i` back to `l` everything is deeper than `l`. */
  predicate DeeperSince(elements: seq<Element>, l: nat, i: nat)
    requires l < |elements| && i < |elements|
  {
    l < i && forall j :: l < j <= i ==> elements[j].depth > elements[l].depth
  }

  lemma EmptyForest(depth: int)
    ensures Preorder([], depth) == []
  {
  }

  lemma PartsOf(forest: seq<Tree>, parent: seq<nat>, k: nat, depth: int)
    requires forest != []
    ensures var t := forest[0];
            && Preorder(forest, depth) ==
               [Element(t.name, t.attributes, depth)] + Preorder(t.children, depth + 1) + Preorder(forest[1..], depth)
            && Paths(forest, parent, k) ==
                 [parent + [k]] + Paths(t.children, parent + [k], 0) + Paths(forest[1..], parent, k + 1)
  {
  }

  /** The sizes of a forest's parts, with every path beside its element. */
  lemma PartSizes(forest: seq<Tree>, parent: seq<nat>, k: nat, depth: int)
    requires forest != []
    ensures |Paths(forest, parent, k)| == |Preorder(forest, depth)|
    ensures |Paths(forest[0].children, parent + [k], 0)| == |Preorder(forest[0].children, depth + 1)|
    ensures |Paths(forest[1..], parent, k + 1)| == |Preorder(forest[1..], depth)|
  {
    PathsFit(forest, parent, k, depth);
    PathsFit(forest[0].children, parent + [k], 0, depth + 1);
    PathsFit(forest[1..], parent, k + 1, depth);
  }

  lemma SlicesOf<T>(x: T, a: seq<T>, b: seq<T>)
    ensures var s := [x] + a + b; s[1..1 + |a|] == a && s[1 + |a|..1 + |a| + |b|] == b && |s| == 1 + |a| + |b|
  {
  }

  /** A pair of elements from different parts of the forest. */
  lemma CrossPair(forest: seq<Tree>, parent: seq<nat>, k: nat, depth: int, l: nat, i: nat)
    requires forest != [] && l < |Preorder(forest, depth)| && i < |Preorder(forest, depth)|
    requires var n := |Preorder(forest[0].children, depth + 1)|; l == 0 || i == 0 || (l <= n) != (i <= n)
    ensures |Paths(forest, parent, k)| == |Preorder(forest, depth)|
    ensures ProperPrefix(Paths(forest, parent, k)[l], Paths(forest, parent, k)[i]) <==>
              DeeperSince(Preorder(forest, depth), l, i)
  {
    PartSizes(forest, parent, k, depth);
    PartsOf(forest, parent, k, depth);
    hide Preorder, Paths, DeeperSince, ProperPrefix;
    var q := parent + [k];
    PathsFit(forest[0].children, q, 0, depth + 1);
    PathsFit(forest[1..], parent, k + 1, depth);
    PreorderDepths(forest[0].children, depth + 1);
    PreorderDepths(forest[1..], depth);
    assert q[..|q| - 1] == parent;
    AcrossParts(Element(forest[0].name, forest[0].attributes, depth), Preorder(forest[0].children, depth + 1),
                Preorder(forest[1..], depth),
                q, Paths(forest[0].children, q, 0), Paths(forest[1..], parent, k + 1), l, i);
  }

  /** A pair below the first node. */
  lemma InnerPair(forest: seq<Tree>, parent: seq<nat>, k: nat, depth: int, l: nat, i: nat)
    requires forest != [] && l < |Preorder(forest[0].children, depth + 1)| &&
             i < |Preorder(forest[0].children, depth + 1)|
    ensures |Paths(forest, parent, k)| == |Preorder(forest, depth)| > 1 + l && |Preorder(forest, depth)| > 1 + i
    ensures ProperPrefix(Paths(forest, parent, k)[1 + l], Paths(forest, parent, k)[1 + i]) <==>
            DeeperSince(Preorder(forest, depth), 1 + l, 1 + i)
    decreases forest, 0
  {
    PartSizes(forest, parent, k, depth);
    PartsOf(forest, parent, k, depth);
    hide Preorder, Paths, DeeperSince, ProperPrefix;
    var inner, innerPaths := Preorder(forest[0].children, depth + 1), Paths(forest[0].children, parent + [k], 0);
    SlicesOf(Element(forest[0].name, forest[0].attributes, depth), inner, Preorder(forest[1..], depth));
    SlicesOf(parent + [k], innerPaths, Paths(forest[1..], parent, k + 1));
    DescendantsAreDeeper(forest[0].children, parent + [k], 0, depth + 1, l, i);
    SamePart(Preorder(forest, depth), inner, Paths(forest, parent, k), innerPaths, 1, l, i);
  }

  /** A pair in the later trees. */
  lemma OuterPair(forest: seq<Tree>, parent: seq<nat>, k: nat, depth: int, l: nat, i: nat)
    requires forest != [] && l < |Preorder(forest[1..], depth)| && i < |Preorder(forest[1..], depth)|
    ensures var m := 1 + |Preorder(forest[0].children, depth + 1)|;
            && |Paths(forest, parent, k)| == |Preorder(forest, depth)| > m + l && |Preorder(forest, depth)| > m + i
            && (ProperPrefix(Paths(forest, parent, k)[m + l], Paths(forest, parent, k)[m + i]) <==>
                DeeperSince(Preorder(forest, depth), m + l, m + i))
    decreases forest, 0
  {
    OuterSlices(forest, parent, k, depth);
    hide *;
    DescendantsAreDeeper(forest[1..], parent, k + 1, depth, l, i);
    var m := 1 + |Preorder(forest[0].children, depth + 1)|;
    var elements, paths := Preorder(forest, depth), Paths(forest, parent, k);
    var part, partPaths := Preorder(forest[1..], depth), Paths(forest[1..], parent, k + 1);
    SamePart(elements, part, paths, partPaths, m, l, i);
  }

  predicate LiesAt<T(==)>(whole: seq<T>, at: nat, part: seq<T>) {
    at + |part| <= |whole| && whole[at..at + |part|] == part
  }

  /** Where the trees after the first lie among the elements and the paths. */
  lemma OuterSlices(forest: seq<Tree>, parent: seq<nat>, k: nat, depth: int)
    requires forest != []
    ensures var m, outer := 1 + |Preorder(forest[0].children, depth + 1)|, Preorder(forest[1..], depth);
            var outerPaths := Paths(forest[1..], parent, k + 1);
            && |Paths(forest, parent, k)| == |Preorder(forest, depth)| == m + |outer| && |outerPaths| == |outer|
            && LiesAt(Preorder(forest, depth), m, outer) && LiesAt(Paths(forest, parent, k), m, outerPaths)
  {
    PartSizes(forest, parent, k, depth);
    PartsOf(forest, parent, k, depth);
    hide Preorder, Paths;
    SlicesOf(Element(forest[0].name, forest[0].attributes, depth), Preorder(forest[0].children, depth + 1),
             Preorder(forest[1..], depth));
    SlicesOf(parent + [k], Paths(forest[0].children, parent + [k], 0), Paths(forest[1..], parent, k + 1));
  }

  /** An element lies below another exactly when everything since is deeper. */
  lemma {:induction false} DescendantsAreDeeper(forest: seq<Tree>, parent: seq<nat>, k: nat, depth: int, l: nat, i: nat)
    requires l < |Preorder(forest, depth)| && i < |Preorder(forest, depth)|
    ensures |Paths(forest, parent, k)| == |Preorder(forest, depth)|
    ensures ProperPrefix(Paths(forest, parent, k)[l], Paths(forest, parent, k)[i]) <==>
              DeeperSince(Preorder(forest, depth), l, i)
    decreases forest, 1
  {
    assert forest != [] by { EmptyForest(depth); }
    hide *;
    var m := 1 + |Preorder(forest[0].children, depth + 1)|;
    SizesAdd(forest, depth);
    if 1 <= l < m && 1 <= i < m {
      InnerPair(forest, parent, k, depth, l - 1, i - 1);
      assert 1 + (l - 1) == l && 1 + (i - 1) == i;
    } else if m <= l && m <= i {
      OuterPair(forest, parent, k, depth, l - m, i - m);
      assert m + (l - m) == l && m + (i - m) == i;
    } else {
      CrossPair(forest, parent, k, depth, l, i);
    }
  }

  lemma SizesAdd(forest: seq<Tree>, depth: int)
    requires forest != []
    ensures |Preorder(forest, depth)| == 1 + |Preorder(forest[0].children, depth + 1)| + |Preorder(forest[1..], depth)|
  {
  }

  lemma SamePart(elements: seq<Element>, part: seq<Element>, paths: seq<seq<nat>>, partPaths: seq<seq<nat>>, at: nat,
                 l: nat, i: nat)
    requires |paths| == |elements| && |partPaths| == |part| && l < |part| && i < |part|
    requires at + |part| <= |elements| && LiesAt(elements, at, part) && LiesAt(paths, at, partPaths)
    requires ProperPrefix(partPaths[l], partPaths[i]) <==> DeeperSince(part, l, i)
    ensures ProperPrefix(paths[at + l], paths[at + i]) <==> DeeperSince(elements, at + l, at + i)
  {
    DeeperShifts(elements, part, at, l, i);
    assert paths[at + l] == paths[at..at + |part|][l] && paths[at + i] == paths[at..at + |part|][i];
  }

  lemma DeeperShifts(elements: seq<Element>, part: seq<Element>, at: nat, l: nat, i: nat)
    requires at + |part| <= |elements| && elements[at..at + |part|] == part && l < |part| && i < |part|
    ensures DeeperSince(elements, at + l, at + i) == DeeperSince(part, l, i)
  {
    assert forall j :: 0 <= j < |part| ==> part[j] == elements[at + j];
    if DeeperSince(elements, at + l, at + i) {
      assert forall j :: l < j <= i ==> part[j].depth == elements[at + j].depth;
    }
    if DeeperSince(part, l, i) {
      forall j | at + l < j <= at + i ensures elements[j].depth > elements[at + l].depth {
        assert elements[j] == part[j - at];
      }
    }
  }

  /** The pairs that do not lie in the same part of the forest. */
  lemma AcrossParts(e: Element, inner: seq<Element>, outer: seq<Element>, q: seq<nat>, innerPaths: seq<seq<nat>>,
                    outerPaths: seq<seq<nat>>, l: nat, i: nat)
    requires q != [] && |inner| == |innerPaths| && |outer| == |outerPaths|
    requires forall x :: x in inner ==> x.depth > e.depth
    requires outer != [] ==> outer[0].depth == e.depth
    requires forall x :: x in outer ==> x.depth >= e.depth
    requires forall p :: p in innerPaths ==> ProperPrefix(q, p)
    requires forall p :: p in outerPaths ==> ProperPrefix(q[..|q| - 1], p) && p[|q| - 1] > q[|q| - 1]
    requires l < 1 + |inner| + |outer| && i < 1 + |inner| + |outer|
    requires l == 0 || i == 0 || (l <= |inner|) != (i <= |inner|)
    ensures ProperPrefix(([q] + innerPaths + outerPaths)[l], ([q] + innerPaths + outerPaths)[i]) <==>
            DeeperSince([e] + inner + outer, l, i)
  {
    var elements, paths := [e] + inner + outer, [q] + innerPaths + outerPaths;
    var m, c := 1 + |inner|, |q| - 1;
    assert forall j :: 1 <= j < m ==> elements[j] == inner[j - 1] && paths[j] == innerPaths[j - 1];
    assert forall j :: m <= j < |elements| ==> elements[j] == outer[j - m] && paths[j] == outerPaths[j - m];
    forall j | 0 <= j < |paths| ensures |paths[j]| > c && (if j < m then paths[j][c] == q[c] else paths[j][c] > q[c]) {
      if 1 <= j < m {
        assert paths[j] in innerPaths;
        assert paths[j][..|q|][c] == q[c];
      } else if m <= j {
        assert paths[j] in outerPaths;
      }
    }
    PrefixKeeps(paths[l], paths[i], c);
    if l < m <= i {
      assert elements[m].depth == e.depth <= elements[l].depth;
    }
  }

  lemma PrefixKeeps(a: seq<nat>, b: seq<nat>, c: nat)
    requires c < |a| && c < |b|
    ensures ProperPrefix(a, b) ==> a[c] == b[c]
  {
    if ProperPrefix(a, b) {
      assert b[..|a|][c] == b[c];
    }
  }
}
