/** An abstract XML element tree, as the browser's DOMParser hands it to the
    feed code, and the three DOM queries that code uses on it: `querySelector`,
    `querySelectorAll` and `getAttribute`. */
module Dom {
  import opened Wrappers

  datatype Attr = Attr(name: string, value: string)

  /** An element: its qualified name (`item`, `dc:creator`, `media:thumbnail`),
      its attributes in document order, its `textContent` (typed `string | null`
      in the DOM) and its child elements in document order. */
  datatype Element = Element(name: string, attrs: seq<Attr>, text: Option<string>, children: seq<Element>)

  /** A parsed document; its root element is the document element. */
  datatype Document = Document(root: Element)

  /** The two selector shapes the feed code uses. */
  datatype Selector =
    | Type(name: string)                                        // `guid`, `dc\:creator`
    | TypeWithAttrPrefix(name: string, attr: string, prefix: string)  // `enclosure[type^="image"]`

  /** `getAttribute`: the value of the first attribute with that name, if any. */
  function GetAttribute(e: Element, name: string): (r: Option<string>)
    ensures r.None? <==> forall a :: a in e.attrs ==> a.name != name
    ensures r.Some? ==> Attr(name, r.value) in e.attrs
  {
    AttrLookup(e.attrs, name)
  }

  function AttrLookup(attrs: seq<Attr>, name: string): (r: Option<string>)
    ensures r.None? <==> forall k :: 0 <= k < |attrs| ==> attrs[k].name != name
    ensures r.Some? ==> exists k :: 0 <= k < |attrs| && attrs[k] == Attr(name, r.value)
                                   && forall j :: 0 <= j < k ==> attrs[j].name != name
    decreases |attrs|
  {
    if attrs == [] then None
    else if attrs[0].name == name then Some(attrs[0].value)
    else
      var r := AttrLookup(attrs[1..], name);
      if r.Some? then
        ghost var k :| 0 <= k < |attrs[1..]| && attrs[1..][k] == Attr(name, r.value)
                        && forall j :: 0 <= j < k ==> attrs[1..][j].name != name;
        assert attrs[k + 1] == Attr(name, r.value);
        r
      else r
  }

  /** Whether an element is one a selector stands for. Per CSS, `[att^=""]`
      stands for nothing. */
  predicate Matches(sel: Selector, e: Element): (r: bool)
    ensures r ==> e.name == sel.name
    ensures sel.Type? ==> (r <==> e.name == sel.name)
    ensures sel.TypeWithAttrPrefix? && sel.prefix == [] ==> !r
    ensures sel.TypeWithAttrPrefix? && (forall a :: a in e.attrs ==> a.name != sel.attr) ==> !r
    // the first attribute with the name decides, by a case-sensitive prefix test
    ensures sel.TypeWithAttrPrefix? && e.name == sel.name && sel.prefix != [] ==>
              forall k :: 0 <= k < |e.attrs| && e.attrs[k].name == sel.attr
                          && (forall j :: 0 <= j < k ==> e.attrs[j].name != sel.attr) ==>
                          (r <==> sel.prefix <= e.attrs[k].value)
  {
    match sel
    case Type(n) => e.name == n
    case TypeWithAttrPrefix(n, a, p) =>
      var v := GetAttribute(e, a);
      e.name == n && p != [] && v.Some? && p <= v.value
  }

  /** The proper descendants of an element, in document (pre-)order. */
  function Descendants(e: Element): (r: seq<Element>)
    decreases e, 1
  {
    DescendantsOf(e.children)
  }

  function DescendantsOf(cs: seq<Element>): (r: seq<Element>)
    decreases cs, 0
  {
    if cs == [] then [] else [cs[0]] + Descendants(cs[0]) + DescendantsOf(cs[1..])
  }

  /** Every node of a document in document order: the root, then its descendants. */
  function DocumentOrder(doc: Document): (r: seq<Element>)
    ensures |r| > 0 && r[0] == doc.root
  {
    [doc.root] + Descendants(doc.root)
  }

  /** The elements of `s`, in their order, that `sel` stands for. */
  function Select(s: seq<Element>, sel: Selector): (r: seq<Element>)
    ensures |r| <= |s|
    ensures forall x :: x in r <==> x in s && Matches(sel, x)
    decreases |s|
  {
    if s == [] then []
    else
      var rest := Select(s[1..], sel);
      assert forall x :: x in s <==> x == s[0] || x in s[1..];
      if Matches(sel, s[0]) then [s[0]] + rest else rest
  }

  /** `element.querySelectorAll(sel)`: the matching descendants in document order. */
  function QuerySelectorAll(e: Element, sel: Selector): (r: seq<Element>)
    ensures |r| <= |Descendants(e)|
    ensures forall x :: x in r <==> x in Descendants(e) && Matches(sel, x)
  {
    Select(Descendants(e), sel)
  }

  /** `element.querySelector(sel)`: the first matching descendant, or null. */
  function QuerySelector(e: Element, sel: Selector): (r: Option<Element>)
    ensures r.Some? ==> r.value in Descendants(e) && Matches(sel, r.value)
    ensures r.None? <==> forall d :: d in Descendants(e) ==> !Matches(sel, d)
  {
    First(Select(Descendants(e), sel))
  }

  /** `document.querySelectorAll(sel)`: like the element form, but the root counts. */
  function DocQuerySelectorAll(doc: Document, sel: Selector): (r: seq<Element>)
    ensures forall x :: x in r <==> x in DocumentOrder(doc) && Matches(sel, x)
    ensures Matches(sel, doc.root) ==> r != [] && r[0] == doc.root
  {
    SelectFirstOf(DocumentOrder(doc), sel);
    Select(DocumentOrder(doc), sel)
  }

  /** `document.querySelector(sel)`. */
  function DocQuerySelector(doc: Document, sel: Selector): (r: Option<Element>)
    ensures r.Some? ==> r.value in DocumentOrder(doc) && Matches(sel, r.value)
    ensures r.None? <==> forall d :: d in DocumentOrder(doc) ==> !Matches(sel, d)
  {
    First(Select(DocumentOrder(doc), sel))
  }

  function First(s: seq<Element>): (r: Option<Element>)
    ensures r.None? <==> s == []
    ensures r.Some? ==> r.value == s[0]
  {
    if s == [] then None else Some(s[0])
  }

  /** A sequence whose head matches selects its head first. */
  lemma SelectFirstOf(s: seq<Element>, sel: Selector)
    ensures s != [] && Matches(sel, s[0]) ==> Select(s, sel) != [] && Select(s, sel)[0] == s[0]
  {
  }

  /** Selecting from a concatenation selects from each part. */
  lemma {:induction false} SelectAppend(s: seq<Element>, t: seq<Element>, sel: Selector)
    ensures Select(s + t, sel) == Select(s, sel) + Select(t, sel)
    decreases |s|
  {
    if s == [] {
      assert s + t == t;
    } else {
      assert (s + t)[1..] == s[1..] + t;
      SelectAppend(s[1..], t, sel);
    }
  }

  /** The head of a selection is the first element of the sequence that matches. */
  lemma {:induction false} SelectFirst(s: seq<Element>, sel: Selector, k: nat)
    requires k < |s| && Matches(sel, s[k])
    requires forall j :: 0 <= j < k ==> !Matches(sel, s[j])
    ensures Select(s, sel) != [] && Select(s, sel)[0] == s[k]
    decreases k
  {
    if k > 0 {
      SelectFirst(s[1..], sel, k - 1);
    }
  }

  /** `querySelector` returns the FIRST matching descendant in document order. */
  lemma QuerySelectorIsFirst(e: Element, sel: Selector, k: nat)
    requires k < |Descendants(e)| && Matches(sel, Descendants(e)[k])
    requires forall j :: 0 <= j < k ==> !Matches(sel, Descendants(e)[j])
    ensures QuerySelector(e, sel) == Some(Descendants(e)[k])
  {
    SelectFirst(Descendants(e), sel, k);
  }

  /** A descendant of a child is a descendant. */
  lemma {:induction false} DescendantOfChild(e: Element, i: nat, d: Element)
    requires i < |e.children|
    requires d == e.children[i] || d in Descendants(e.children[i])
    ensures d in Descendants(e)
  {
    DescendantOfChildOf(e.children, i, d);
  }

  lemma {:induction false} DescendantOfChildOf(cs: seq<Element>, i: nat, d: Element)
    requires i < |cs|
    requires d == cs[i] || d in Descendants(cs[i])
    ensures d in DescendantsOf(cs)
    decreases i
  {
    if i > 0 {
      DescendantOfChildOf(cs[1..], i - 1, d);
    }
  }
}
