/**
 * The part of the preview iframe's document that the editor reads and
 * writes: element objects with an inline style, a class attribute and other
 * attributes, and the shape of the document tree (document element, body,
 * the element with id "root", and which elements lie below the document
 * element, in document order).
 */
module Dom {
  import opened Wrappers

  /** Identity of an element object. */
  type NodeId = nat

  const Outline := "outline"
  const Cursor := "cursor"
  const TextAlign := "textAlign"
  const ContentEditable := "contenteditable"
  const Src := "src"
  const Alt := "alt"

  /**
   * An element: its inline style (CSSOM property name to value), its
   * `className`, and its other attributes.
   */
  datatype Element = Element(style: map<string, string>, className: string, attrs: map<string, string>)

  const EmptyElement := Element(map[], "", map[])

  /** Reading `el.style[prop]`: a property that is not set reads as "". */
  function StyleOf(e: Element, prop: string): string {
    if prop in e.style then e.style[prop] else ""
  }

  /**
   * `el.style[prop] = v`: the property reads back as v afterwards, an empty
   * value removes the declaration, and nothing else about the element changes.
   */
  function WithStyle(e: Element, prop: string, v: string): (r: Element)
    ensures StyleOf(r, prop) == v
    ensures v == "" ==> prop !in r.style
    ensures forall q :: q != prop ==> StyleOf(r, q) == StyleOf(e, q) && (q in r.style <==> q in e.style)
    ensures r.className == e.className && r.attrs == e.attrs
  {
    e.(style := if v == "" then e.style - {prop} else e.style[prop := v])
  }

  /** `el.getAttribute(name)`. */
  function AttrOf(e: Element, name: string): Option<string> {
    if name in e.attrs then Some(e.attrs[name]) else None
  }

  /** `el.setAttribute(name, v)`: only that attribute changes. */
  function WithAttr(e: Element, name: string, v: string): (r: Element)
    ensures AttrOf(r, name) == Some(v)
    ensures forall a :: a != name ==> AttrOf(r, a) == AttrOf(e, a)
    ensures r.style == e.style && r.className == e.className
  {
    e.(attrs := e.attrs[name := v])
  }

  /** `el.removeAttribute(name)`: only that attribute changes. */
  function WithoutAttr(e: Element, name: string): (r: Element)
    ensures AttrOf(r, name) == None
    ensures forall a :: a != name ==> AttrOf(r, a) == AttrOf(e, a)
    ensures r.style == e.style && r.className == e.className
  {
    e.(attrs := e.attrs - {name})
  }

  /**
   * The shape of the document tree. `shell` lists the elements below the
   * document element that are not inside the root, in document order, and
   * `content` the elements inside the root, which follow them;
   * `rootMarkup` is the root's `innerHTML` as last assigned.
   */
  datatype Tree = Tree(
    docElement: NodeId,
    body: Option<NodeId>,
    root: Option<NodeId>,
    shell: seq<NodeId>,
    content: seq<NodeId>,
    rootMarkup: string)

  /**
   * The elements the shell document creates, in document order, with their
   * attributes: html, head, two meta, script, and the body, which has the
   * id "root".
   */
  const ShellElements := [
    Element(map[], "", map["lang" := "en"]),
    EmptyElement,
    Element(map[], "", map["charset" := "UTF-8"]),
    Element(map[], "", map["name" := "viewport", "content" := "width=device-width, initial-scale=1.0"]),
    Element(map[], "", map[Src := "https://cdn.tailwindcss.com"]),
    Element(map[], "", map["id" := "root"])]
  const ShellSize := |ShellElements|

  /** The iframe's document. */
  class Document {
    /** Every element object of the page, attached to the tree or not. */
    var nodes: map<NodeId, Element>
    /** Identities not used yet; an element created later gets a fresh one. */
    var nextId: NodeId
    var tree: Tree

    ghost predicate Valid()
      reads this
    {
      && (forall id :: id in nodes ==> id < nextId)
      && tree.docElement in nodes
      && (tree.body.Some? ==> tree.body.value in nodes)
      && (tree.root.Some? ==> tree.root.value in nodes)
      && (forall i :: 0 <= i < |tree.shell| ==> tree.shell[i] in nodes && tree.shell[i] != tree.docElement)
      && (forall i :: 0 <= i < |tree.content| ==> tree.content[i] in nodes && tree.content[i] != tree.docElement)
    }

    /** The elements below the document element, in document order: `querySelectorAll("*")`. */
    function Descendants(): seq<NodeId>
      reads this
    {
      tree.shell + tree.content
    }

    /** A fresh iframe's `about:blank` document: html, head and an empty body, no root. */
    constructor Blank()
      ensures Valid()
      ensures nodes == map[0 := EmptyElement, 1 := EmptyElement, 2 := EmptyElement] && nextId == 3
      ensures tree == Tree(0, Some(2), None, [1, 2], [], "")
    {
      nodes := map[0 := EmptyElement, 1 := EmptyElement, 2 := EmptyElement];
      nextId := 3;
      tree := Tree(0, Some(2), None, [1, 2], [], "");
    }

    /**
     * `doc.open(); doc.write(shell); doc.close()`: a new tree of fresh
     * elements whose body is the (empty) root; earlier elements stay alive
     * but are no longer in the tree.
     */
    method WriteShell()
      requires Valid()
      modifies this
      ensures Valid()
      ensures nextId == old(nextId) + ShellSize
      ensures nodes == Adopt(old(nodes), old(nextId), ShellElements)
      ensures forall id :: id in old(nodes) ==> id in nodes && nodes[id] == old(nodes)[id]
      ensures var n := old(nextId);
        tree == Tree(n, Some(n + 5), Some(n + 5), [n + 1, n + 2, n + 3, n + 4, n + 5], [], "")
    {
      var n := nextId;
      ShellAdopted(nodes, n);
      nodes := Adopt(nodes, n, ShellElements);
      nextId := n + ShellSize;
      tree := Tree(n, Some(n + 5), Some(n + 5), [n + 1, n + 2, n + 3, n + 4, n + 5], [], "");
    }

    /**
     * `root.innerHTML = markup`. The browser's HTML parser is outside the
     * model: `parsed` stands for the elements it builds from the markup, in
     * document order. They get fresh identities and replace the root's
     * previous content, whose elements stay alive but leave the tree.
     */
    method SetRootContent(markup: string, parsed: seq<Element>)
      requires Valid() && tree.root.Some?
      modifies this
      ensures Valid()
      ensures nextId == old(nextId) + |parsed|
      ensures tree == old(tree).(content := Allocated(old(nextId), |parsed|), rootMarkup := markup)
      ensures nodes == Adopt(old(nodes), old(nextId), parsed)
    {
      var n := nextId;
      nodes := Adopt(nodes, n, parsed);
      nextId := n + |parsed|;
      tree := tree.(content := Allocated(n, |parsed|), rootMarkup := markup);
    }

    /** `el.style[prop] = v` on one element of the document. */
    method SetStyle(id: NodeId, prop: string, v: string)
      requires Valid() && id in nodes
      modifies this
      ensures Valid() && tree == old(tree) && nextId == old(nextId)
      ensures nodes == old(nodes)[id := WithStyle(old(nodes)[id], prop, v)]
    {
      nodes := nodes[id := WithStyle(nodes[id], prop, v)];
    }

    /** `el.setAttribute(name, v)` on one element of the document. */
    method SetAttribute(id: NodeId, name: string, v: string)
      requires Valid() && id in nodes
      modifies this
      ensures Valid() && tree == old(tree) && nextId == old(nextId)
      ensures nodes == old(nodes)[id := WithAttr(old(nodes)[id], name, v)]
    {
      nodes := nodes[id := WithAttr(nodes[id], name, v)];
    }

    /** `el.removeAttribute(name)` on one element of the document. */
    method RemoveAttribute(id: NodeId, name: string)
      requires Valid() && id in nodes
      modifies this
      ensures Valid() && tree == old(tree) && nextId == old(nextId)
      ensures nodes == old(nodes)[id := WithoutAttr(old(nodes)[id], name)]
    {
      nodes := nodes[id := WithoutAttr(nodes[id], name)];
    }

    /** `el.className = v` on one element of the document. */
    method SetClassName(id: NodeId, v: string)
      requires Valid() && id in nodes
      modifies this
      ensures Valid() && tree == old(tree) && nextId == old(nextId)
      ensures nodes == old(nodes)[id := old(nodes)[id].(className := v)]
    {
      nodes := nodes[id := nodes[id].(className := v)];
    }
  }
  /** The shell's elements take the identities n to n + 5, and nothing beyond. */
  lemma ShellAdopted(nodes: map<NodeId, Element>, n: NodeId)
    requires forall id :: id in nodes ==> id < n
    ensures var r := Adopt(nodes, n, ShellElements);
      && (forall id :: id in r ==> id < n + ShellSize)
      && n in r && n + 1 in r && n + 2 in r && n + 3 in r && n + 4 in r && n + 5 in r
  {
    var r := Adopt(nodes, n, ShellElements);
    assert |ShellElements| == 6;
    assert n + 5 in r;
  }

  /** The identities n, n + 1, ..., n + count - 1. */
  function Allocated(n: NodeId, count: nat): (r: seq<NodeId>)
    ensures |r| == count
    ensures forall i :: 0 <= i < count ==> r[i] == n + i
    decreases count
  {
    if count == 0 then [] else [n] + Allocated(n + 1, count - 1)
  }

  /**
   * `nodes` with the elements of `parsed` added under the identities
   * n, n + 1, ...; identities below n keep their elements.
   */
  function Adopt(nodes: map<NodeId, Element>, n: NodeId, parsed: seq<Element>): (r: map<NodeId, Element>)
    requires forall id :: id in nodes ==> id < n
    ensures forall id :: id in r <==> id in nodes || n <= id < n + |parsed|
    ensures forall id :: id in nodes ==> r[id] == nodes[id]
    ensures forall i :: 0 <= i < |parsed| ==> n + i in r && r[n + i] == parsed[i]
    decreases |parsed|
  {
    if |parsed| == 0 then nodes
    else
      var r := Adopt(nodes[n := parsed[0]], n + 1, parsed[1..]);
      assert forall j :: 0 <= j < |parsed| - 1 ==> r[n + 1 + j] == parsed[1..][j];
      r
  }
}
