/**
  The part of a parsed HTML document the extractor looks at: elements with
  their tag, their `href` attribute and their children; text nodes; and every
  other node kind (comments, processing instructions). Other nodes are never
  among the children `match_tags` pairs with slots, but a slot's own test
  (for instance `div[not(node())]`) may still see them.
 */
module Dom {
  import opened Optional
  import opened PyStr
  import opened Filters

  datatype Node =
    | Element(tag: string, href: Option<string>, children: seq<Node>)
    | Text(content: string)
    | Other

  /** The children of a node; only elements have any. */
  function ChildrenOf(n: Node): seq<Node>
  {
    if n.Element? then n.children else []
  }

  /** `node.get('href')`; only elements carry attributes. */
  function HrefOf(n: Node): Option<string>
  {
    if n.Element? then n.href else None
  }

  /** The XML whitespace `normalize-space()` removes: SPACE, TAB, CR, LF. */
  predicate IsXmlSpace(c: char)
  {
    c == ' ' || c == '\t' || c == '\r' || c == '\n'
  }

  /** `normalize-space(s) = ''`. */
  predicate XmlBlank(s: string)
  {
    forall i :: 0 <= i < |s| ==> IsXmlSpace(s[i])
  }

  /** What `*|text()[normalize-space()!='']` selects among children: every
      element and every text node holding something other than XML
      whitespace. */
  predicate Significant(n: Node)
  {
    n.Element? || (n.Text? && !XmlBlank(n.content))
  }

  /** The children `match_tags` looks at, in document order. */
  function SignificantChildren(children: seq<Node>): (r: seq<Node>)
    ensures |r| <= |children|
    ensures forall k :: 0 <= k < |r| ==> Significant(r[k])
    ensures forall n :: n in r <==> n in children && Significant(n)
  {
    if |children| == 0 then []
    else if Significant(children[0]) then [children[0]] + SignificantChildren(children[1..])
    else SignificantChildren(children[1..])
  }

  /** The significant children are the element children and the non-blank
      text children, every one of them, in document order: duplicates are
      kept and nothing is reordered. */
  lemma {:induction false} SignificantFiltered(children: seq<Node>)
    ensures Filtered(SignificantChildren(children), children, Significant)
  {
    if |children| == 0 {
      FilteredNil(Significant);
    } else {
      SignificantFiltered(children[1..]);
      FilteredCons(children[0], children[1..], SignificantChildren(children[1..]), Significant);
      assert [children[0]] + children[1..] == children;
    }
  }

  /** Some node of the list is a text node. */
  predicate HasText(ns: seq<Node>)
  {
    exists k :: 0 <= k < |ns| && ns[k].Text?
  }

  /** `text_content()`: every descendant text node's text, in document order. */
  function TextContent(n: Node): string
    decreases n, 1
  {
    match n
    case Element(_, _, kids) => TextOfAll(kids)
    case Text(s) => s
    case Other => ""
  }

  function TextOfAll(ns: seq<Node>): string
    decreases ns, 0
  {
    if |ns| == 0 then "" else TextContent(ns[0]) + TextOfAll(ns[1..])
  }

  const MapsMarker := "google.com/maps"

  /** An `<a>` element whose `href` contains the map-link marker. */
  predicate IsMapAnchor(n: Node)
  {
    n.Element? && n.tag == "a" && n.href.Some? && Contains(n.href.value, MapsMarker)
  }

  /** The hrefs of `.//a[contains(@href,'google.com/maps')]` below a node
      (the node itself excluded), in document order. */
  function MapLinksBelow(n: Node): (r: seq<string>)
    ensures forall k :: 0 <= k < |r| ==> Contains(r[k], MapsMarker)
  {
    MapLinksIn(ChildrenOf(n))
  }

  /** The map-anchor hrefs among `ns` and all their descendants, in
      document order. */
  function MapLinksIn(ns: seq<Node>): (r: seq<string>)
    ensures forall k :: 0 <= k < |r| ==> Contains(r[k], MapsMarker)
    decreases ns, 1
  {
    if |ns| == 0 then [] else MapLinksAt(ns[0]) + MapLinksIn(ns[1..])
  }

  function MapLinksAt(n: Node): (r: seq<string>)
    ensures forall k :: 0 <= k < |r| ==> Contains(r[k], MapsMarker)
    decreases n, 2
  {
    (if IsMapAnchor(n) then [n.href.value] else [])
    + (if n.Element? then MapLinksIn(n.children) else [])
  }

  /** The `descendant-or-self` axis of `n`: the node, then the nodes below
      it, in document order. */
  ghost function DescendantsAt(n: Node): seq<Node>
    decreases n, 1
  {
    [n] + (if n.Element? then DescendantsIn(n.children) else [])
  }

  /** The `descendant-or-self` axes of the nodes of `ns`, one after the other. */
  ghost function DescendantsIn(ns: seq<Node>): seq<Node>
    decreases ns, 0
  {
    if |ns| == 0 then [] else DescendantsAt(ns[0]) + DescendantsIn(ns[1..])
  }

  /** `links` are the `href` values of `anchors`, one for one. */
  ghost predicate HrefsOf(links: seq<string>, anchors: seq<Node>)
  {
    |links| == |anchors| && forall k :: 0 <= k < |links| ==> HrefOf(anchors[k]) == Some(links[k])
  }

  lemma HrefsOfConcat(l1: seq<string>, a1: seq<Node>, l2: seq<string>, a2: seq<Node>)
    requires HrefsOf(l1, a1) && HrefsOf(l2, a2)
    ensures HrefsOf(l1 + l2, a1 + a2)
  {
    forall k | 0 <= k < |l1 + l2| ensures HrefOf((a1 + a2)[k]) == Some((l1 + l2)[k]) {
      if k >= |l1| {
        assert (a1 + a2)[k] == a2[k - |l1|] && (l1 + l2)[k] == l2[k - |l1|];
      }
    }
  }

  /** One more node in front: it joins the anchors when it is one. */
  lemma ConsAnchor(n: Node, below: seq<Node>, inner: seq<string>, rest: seq<Node>) returns (a: seq<Node>)
    requires Filtered(rest, below, IsMapAnchor) && HrefsOf(inner, rest)
    ensures Filtered(a, [n] + below, IsMapAnchor)
    ensures HrefsOf((if IsMapAnchor(n) then [n.href.value] else []) + inner, a)
  {
    FilteredCons(n, below, rest, IsMapAnchor);
    if IsMapAnchor(n) {
      HrefsOfConcat([n.href.value], [n], inner, rest);
      a := [n] + rest;
    } else {
      assert [] + inner == inner;
      a := rest;
    }
  }

  /** The map anchors at and below `n`, in document order, whose hrefs are
      the links `MapLinksAt` returns. */
  lemma {:induction false} AnchorsAt(n: Node) returns (a: seq<Node>)
    ensures Filtered(a, DescendantsAt(n), IsMapAnchor) && HrefsOf(MapLinksAt(n), a)
    decreases n, 1
  {
    if n.Element? {
      var rest := AnchorsIn(n.children);
      a := ConsAnchor(n, DescendantsIn(n.children), MapLinksIn(n.children), rest);
    } else {
      FilteredNil(IsMapAnchor);
      assert DescendantsAt(n) == [n] + [];
      a := ConsAnchor(n, [], [], []);
    }
  }

  lemma {:induction false} AnchorsIn(ns: seq<Node>) returns (a: seq<Node>)
    ensures Filtered(a, DescendantsIn(ns), IsMapAnchor) && HrefsOf(MapLinksIn(ns), a)
    decreases ns, 0
  {
    if |ns| == 0 {
      FilteredNil(IsMapAnchor);
      a := [];
    } else {
      var a1 := AnchorsAt(ns[0]);
      var a2 := AnchorsIn(ns[1..]);
      FilteredConcat(a1, DescendantsAt(ns[0]), a2, DescendantsIn(ns[1..]), IsMapAnchor);
      HrefsOfConcat(MapLinksAt(ns[0]), a1, MapLinksIn(ns[1..]), a2);
      a := a1 + a2;
    }
  }

  /** The fallback's query returns the `href` of every map anchor strictly
      below the node, once each and in document order, and nothing else. */
  lemma MapLinksBelowComplete(n: Node)
    ensures exists a :: Filtered(a, DescendantsIn(ChildrenOf(n)), IsMapAnchor) && HrefsOf(MapLinksBelow(n), a)
  {
    var a := AnchorsIn(ChildrenOf(n));
  }
}
