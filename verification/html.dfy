/** The parsed HTML document as an immutable tree, with the handful of
    BeautifulSoup queries the scraper uses: `find`/`find_all` with a matching
    rule, `get_text()`, the `.string` of a tag, and the removal of `script` and
    `style` subtrees (done in place by `decompose()`, here a pure filter). */
module Html {
  import opened Wrappers

  /** A node of the parse tree: a text leaf, or an element with its tag name,
      its attributes and its children in document order. */
  datatype Node =
    | Text(text: string)
    | Elem(tag: string, attrs: map<string, string>, children: seq<Node>)

  /** A parsed page: the top-level nodes under the parser's document root. */
  type Document = seq<Node>

  /** Every node below the root, in document order (pre-order). */
  function Descendants(ns: seq<Node>): (ds: seq<Node>)
    ensures |ds| >= |ns|
    ensures forall n :: n in ns ==> n in ds
  {
    if ns == [] then []
    else
      var rest := Descendants(ns[1..]);
      assert forall n :: n in ns ==> n == ns[0] || n in ns[1..];
      [ns[0]] + (if ns[0].Elem? then Descendants(ns[0].children) else []) + rest
  }

  lemma DescendantsCons(n: Node, rest: seq<Node>)
    ensures Descendants([n] + rest)
         == [n] + (if n.Elem? then Descendants(n.children) else []) + Descendants(rest)
  {
    assert ([n] + rest)[0] == n && ([n] + rest)[1..] == rest;
  }

  /** The descendants of a concatenation are those of each part, in order. */
  lemma {:induction false} DescendantsAppend(a: seq<Node>, b: seq<Node>)
    ensures Descendants(a + b) == Descendants(a) + Descendants(b)
    decreases |a|
  {
    if a != [] {
      assert a + b == [a[0]] + (a[1..] + b);
      DescendantsCons(a[0], a[1..] + b);
      DescendantsAppend(a[1..], b);
      assert a == [a[0]] + a[1..];
      DescendantsCons(a[0], a[1..]);
    } else {
      assert a + b == b;
    }
  }

  /** The descendants are closed under taking children: the traversal reaches
      every child of every element it reaches. */
  lemma {:induction false} DescendantsClosed(ns: seq<Node>, n: Node, c: Node)
    requires n in Descendants(ns) && n.Elem? && c in n.children
    ensures c in Descendants(ns)
    decreases ns
  {
    var head := ns[0];
    var sub := if head.Elem? then Descendants(head.children) else [];
    var rest := Descendants(ns[1..]);
    assert Descendants(ns) == [head] + sub + rest;
    if n == head {
      assert c in sub;
    } else if n in sub {
      DescendantsClosed(head.children, n, c);
      assert c in sub;
    } else {
      assert n in rest;
      DescendantsClosed(ns[1..], n, c);
    }
  }

  /** ... and it reaches nothing else: each descendant is one of the roots or a
      child of another descendant. */
  lemma {:induction false} DescendantsSound(ns: seq<Node>, d: Node)
    requires d in Descendants(ns)
    ensures d in ns || exists p :: p in Descendants(ns) && p.Elem? && d in p.children
    decreases ns
  {
    var head := ns[0];
    var sub := if head.Elem? then Descendants(head.children) else [];
    var rest := Descendants(ns[1..]);
    assert Descendants(ns) == [head] + sub + rest;
    if d == head {
    } else if d in sub {
      DescendantsSound(head.children, d);
      if d !in head.children {
        var p :| p in sub && p.Elem? && d in p.children;
        assert p in Descendants(ns);
      }
    } else {
      assert d in rest;
      DescendantsSound(ns[1..], d);
      if d !in ns[1..] {
        var p :| p in rest && p.Elem? && d in p.children;
        assert p in Descendants(ns);
      }
    }
  }

  /** `get_text()` of a list of nodes: their text leaves, concatenated. */
  function TextOf(ns: seq<Node>): string
  {
    if ns == [] then [] else NodeText(ns[0]) + TextOf(ns[1..])
  }

  /** `get_text()` of one node. */
  function NodeText(n: Node): string
  {
    match n
    case Text(s) => s
    case Elem(_, _, cs) => TextOf(cs)
  }

  /** The texts of the text leaves among `ds`, concatenated in order. */
  function LeafTexts(ds: seq<Node>): string
  {
    if ds == [] then [] else (if ds[0].Text? then ds[0].text else []) + LeafTexts(ds[1..])
  }

  lemma {:induction false} LeafTextsAppend(a: seq<Node>, b: seq<Node>)
    ensures LeafTexts(a + b) == LeafTexts(a) + LeafTexts(b)
  {
    if a == [] {
      assert a + b == b;
    } else {
      assert (a + b)[1..] == a[1..] + b;
      LeafTextsAppend(a[1..], b);
    }
  }

  /** `get_text()` concatenates exactly the text leaves, in document order. */
  lemma {:induction false} TextIsLeavesInOrder(ns: seq<Node>)
    ensures TextOf(ns) == LeafTexts(Descendants(ns))
  {
    if ns != [] {
      var n := ns[0];
      var below := if n.Elem? then Descendants(n.children) else [];
      TextIsLeavesInOrder(ns[1..]);
      if n.Elem? {
        TextIsLeavesInOrder(n.children);
      }
      LeafTextsAppend([n] + below, Descendants(ns[1..]));
      LeafTextsAppend([n], below);
      assert LeafTexts([n]) == (if n.Text? then n.text else []) + LeafTexts([]);
    }
  }

  /** The elements of `ds` that satisfy `matches`, in order. */
  function Filter(ds: seq<Node>, matches: Node -> bool): (r: seq<Node>)
    ensures |r| <= |ds|
    ensures forall e :: e in r ==> e in ds && matches(e)
    ensures forall e :: e in ds && matches(e) ==> e in r
    ensures forall i :: 0 <= i < |r| ==> matches(r[i])
  {
    if ds == [] then []
    else
      var rest := Filter(ds[1..], matches);
      assert forall e :: e in ds ==> e == ds[0] || e in ds[1..];
      if matches(ds[0]) then [ds[0]] + rest else rest
  }

  /** Filtering works piecewise and keeps document order. */
  lemma {:induction false} FilterAppend(a: seq<Node>, b: seq<Node>, matches: Node -> bool)
    ensures Filter(a + b, matches) == Filter(a, matches) + Filter(b, matches)
    decreases |a|
  {
    if a != [] {
      var ab := a + b;
      assert ab[0] == a[0] && ab[1..] == a[1..] + b;
      FilterAppend(a[1..], b, matches);
      var head := if matches(a[0]) then [a[0]] else [];
      assert Filter(ab, matches) == head + Filter(ab[1..], matches);
      assert Filter(a, matches) == head + Filter(a[1..], matches);
    } else {
      assert a + b == b;
    }
  }

  /** The first element of `ds` that satisfies `matches`. */
  function FirstOf(ds: seq<Node>, matches: Node -> bool): (r: Option<Node>)
    ensures r.None? <==> forall e :: e in ds ==> !matches(e)
    ensures r.Some? ==> r.value in ds && matches(r.value)
  {
    if ds == [] then None
    else if matches(ds[0]) then Some(ds[0])
    else
      assert forall e :: e in ds ==> e == ds[0] || e in ds[1..];
      FirstOf(ds[1..], matches)
  }

  /** The result is the matching element of smallest index. */
  lemma {:induction false} FirstOfIsEarliest(ds: seq<Node>, matches: Node -> bool, k: nat)
    requires k < |ds| && matches(ds[k])
    requires forall j :: 0 <= j < k ==> !matches(ds[j])
    ensures FirstOf(ds, matches) == Some(ds[k])
  {
    if k > 0 {
      FirstOfIsEarliest(ds[1..], matches, k - 1);
    }
  }

  /** `find` is `find_all` cut to its first result. */
  lemma {:induction false} FirstOfIsFilterHead(ds: seq<Node>, matches: Node -> bool)
    ensures FirstOf(ds, matches)
         == (var all := Filter(ds, matches); if all == [] then None else Some(all[0]))
  {
    if ds != [] && !matches(ds[0]) {
      FirstOfIsFilterHead(ds[1..], matches);
      assert FirstOf(ds, matches) == FirstOf(ds[1..], matches);
    }
  }

  /** BeautifulSoup `find_all`: every matching node below the root. */
  function FindAll(doc: Document, matches: Node -> bool): seq<Node>
  {
    Filter(Descendants(doc), matches)
  }

  /** BeautifulSoup `find`: the first matching node below the root, if any. */
  function Find(doc: Document, matches: Node -> bool): Option<Node>
  {
    FirstOf(Descendants(doc), matches)
  }

  predicate IsTag(n: Node, name: string)
  {
    n.Elem? && n.tag == name
  }

  /** The value of attribute `name`, as `Tag.get(name)` returns it. */
  function GetAttr(n: Node, name: string): (r: Option<string>)
    ensures r.Some? <==> n.Elem? && name in n.attrs
    ensures r.Some? ==> r.value == n.attrs[name]
  {
    if n.Elem? && name in n.attrs then Some(n.attrs[name]) else None
  }

  /** `Tag.string`: the text of a node whose content is a single chain of
      only-children ending in a text leaf, and nothing otherwise. */
  function StringOf(n: Node): (r: Option<string>)
    ensures r.Some? ==> r.value == NodeText(n)
  {
    match n
    case Text(s) => Some(s)
    case Elem(_, _, cs) =>
      if |cs| == 1 then
        assert TextOf(cs) == NodeText(cs[0]) + TextOf([]);
        StringOf(cs[0])
      else None
  }

  predicate IsScriptOrStyle(n: Node)
  {
    n.Elem? && (n.tag == "script" || n.tag == "style")
  }

  /** The document after `decompose()` of every `script` and `style` element:
      those elements and everything below them are gone, the rest is kept. */
  function StripScripts(ns: seq<Node>): seq<Node>
  {
    if ns == [] then []
    else if IsScriptOrStyle(ns[0]) then StripScripts(ns[1..])
    else
      var n := match ns[0]
        case Text(_) => ns[0]
        case Elem(t, a, cs) => Elem(t, a, StripScripts(cs));
      [n] + StripScripts(ns[1..])
  }

  /** No `script` or `style` element survives the removal. */
  lemma {:induction false} StripScriptsRemovesAll(ns: seq<Node>)
    ensures forall d :: d in Descendants(StripScripts(ns)) ==> !IsScriptOrStyle(d)
  {
    if ns != [] {
      StripScriptsRemovesAll(ns[1..]);
      if !IsScriptOrStyle(ns[0]) {
        var n := match ns[0]
          case Text(_) => ns[0]
          case Elem(t, a, cs) => Elem(t, a, StripScripts(cs));
        if ns[0].Elem? {
          StripScriptsRemovesAll(ns[0].children);
        }
        DescendantsCons(n, StripScripts(ns[1..]));
      }
    }
  }

  /** A document without `script` and `style` elements is left as it is. */
  lemma {:induction false} StripScriptsKeepsClean(ns: seq<Node>)
    requires forall d :: d in Descendants(ns) ==> !IsScriptOrStyle(d)
    ensures StripScripts(ns) == ns
  {
    if ns != [] {
      DescendantsCons(ns[0], ns[1..]);
      assert [ns[0]] + ns[1..] == ns;
      StripScriptsKeepsClean(ns[1..]);
      if ns[0].Elem? {
        StripScriptsKeepsClean(ns[0].children);
      }
    }
  }

  /** Removing twice is removing once. */
  lemma StripScriptsIdempotent(ns: seq<Node>)
    ensures StripScripts(StripScripts(ns)) == StripScripts(ns)
  {
    StripScriptsRemovesAll(ns);
    StripScriptsKeepsClean(StripScripts(ns));
  }

  /** A text leaf together with the tag names of all elements enclosing it. */
  datatype Leaf = Leaf(text: string, enclosing: set<string>)

  /** The text leaves of `ns` in document order, each with its enclosing tags
      (`enclosing` holds the tags of the elements above `ns`). */
  function Leaves(ns: seq<Node>, enclosing: set<string>): seq<Leaf>
  {
    if ns == [] then []
    else
      (match ns[0]
       case Text(s) => [Leaf(s, enclosing)]
       case Elem(t, _, cs) => Leaves(cs, enclosing + {t}))
      + Leaves(ns[1..], enclosing)
  }

  predicate Visible(l: Leaf)
  {
    "script" !in l.enclosing && "style" !in l.enclosing
  }

  /** The texts of the leaves not under a `script` or `style` element. */
  function VisibleText(ls: seq<Leaf>): string
  {
    if ls == [] then [] else (if Visible(ls[0]) then ls[0].text else []) + VisibleText(ls[1..])
  }

  lemma {:induction false} VisibleTextAppend(a: seq<Leaf>, b: seq<Leaf>)
    ensures VisibleText(a + b) == VisibleText(a) + VisibleText(b)
  {
    if a == [] {
      assert a + b == b;
    } else {
      assert (a + b)[1..] == a[1..] + b;
      VisibleTextAppend(a[1..], b);
    }
  }

  /** Under a `script` or `style` element no leaf is visible. */
  lemma {:induction false} HiddenSubtreeSilent(ns: seq<Node>, enclosing: set<string>)
    requires "script" in enclosing || "style" in enclosing
    ensures VisibleText(Leaves(ns, enclosing)) == []
  {
    if ns != [] {
      var first := match ns[0]
        case Text(s) => [Leaf(s, enclosing)]
        case Elem(t, _, cs) => Leaves(cs, enclosing + {t});
      if ns[0].Elem? {
        HiddenSubtreeSilent(ns[0].children, enclosing + {ns[0].tag});
      } else {
        assert VisibleText(first) == [] + VisibleText([]);
      }
      HiddenSubtreeSilent(ns[1..], enclosing);
      VisibleTextAppend(first, Leaves(ns[1..], enclosing));
    }
  }

  /** The text left after the removal is exactly the text of the leaves that
      are not under a `script` or `style` element, in document order. */
  lemma {:induction false} StrippedTextIsVisibleLeaves(ns: seq<Node>, enclosing: set<string>)
    requires "script" !in enclosing && "style" !in enclosing
    ensures TextOf(StripScripts(ns)) == VisibleText(Leaves(ns, enclosing))
  {
    if ns != [] {
      var first := match ns[0]
        case Text(s) => [Leaf(s, enclosing)]
        case Elem(t, _, cs) => Leaves(cs, enclosing + {t});
      VisibleTextAppend(first, Leaves(ns[1..], enclosing));
      StrippedTextIsVisibleLeaves(ns[1..], enclosing);
      if IsScriptOrStyle(ns[0]) {
        HiddenSubtreeSilent(ns[0].children, enclosing + {ns[0].tag});
      } else {
        var n := match ns[0]
          case Text(_) => ns[0]
          case Elem(t, a, cs) => Elem(t, a, StripScripts(cs));
        var rest := StripScripts(ns[1..]);
        assert ([n] + rest)[0] == n && ([n] + rest)[1..] == rest;
        if ns[0].Elem? {
          StrippedTextIsVisibleLeaves(ns[0].children, enclosing + {ns[0].tag});
        } else {
          assert VisibleText(first) == ns[0].text + VisibleText([]);
        }
      }
    }
  }
}
