/**
 * An abstract document tree: the part of the DOM that the tree rewrite of
 * `AnimateString` looks at. A node is a `#text` node, an element (tag name,
 * class list, child nodes in document order), or any other node kind
 * (comments and the like), which has no child nodes.
 */
module Dom {

  datatype Node =
    | Text(data: string)
    | Element(name: string, classes: set<string>, children: seq<Node>)
    | Other(name: string)

  /** The `childNodes` list of a node: empty for everything but an element. */
  function ChildNodes(n: Node): seq<Node>
  {
    if n.Element? then n.children else []
  }

  /** `textContent` of a node list: the data of every descendant text node, in document order. */
  function TextContent(ns: seq<Node>): string
  {
    if ns == [] then [] else NodeText(ns[0]) + TextContent(ns[1..])
  }

  /** `textContent` of one node (comments and the like contribute nothing). */
  function NodeText(n: Node): string
  {
    match n
    case Text(d) => d
    case Element(_, _, ch) => TextContent(ch)
    case Other(_) => []
  }

  /**
   * `querySelectorAll("." + cls)` over a node list: every element carrying the
   * class `cls`, at any depth, in depth-first document order.
   */
  function Select(ns: seq<Node>, cls: string): seq<Node>
  {
    if ns == [] then [] else SelectIn(ns[0], cls) + Select(ns[1..], cls)
  }

  /** The elements carrying `cls` in the subtree rooted at `n`, `n` itself first. */
  function SelectIn(n: Node, cls: string): seq<Node>
  {
    match n
    case Element(_, classes, ch) => (if cls in classes then [n] else []) + Select(ch, cls)
    case _ => []
  }

  /** Everything `Select` returns is an element carrying the class. */
  lemma {:induction false} SelectedCarryClass(ns: seq<Node>, cls: string)
    ensures forall i :: 0 <= i < |Select(ns, cls)| ==>
      Select(ns, cls)[i].Element? && cls in Select(ns, cls)[i].classes
    decreases ns, 0
  {
    if ns != [] {
      SelectedInCarryClass(ns[0], cls);
      SelectedCarryClass(ns[1..], cls);
    }
  }

  lemma {:induction false} SelectedInCarryClass(n: Node, cls: string)
    ensures forall i :: 0 <= i < |SelectIn(n, cls)| ==>
      SelectIn(n, cls)[i].Element? && cls in SelectIn(n, cls)[i].classes
    decreases n, 1
  {
    if n.Element? {
      SelectedCarryClass(n.children, cls);
    }
  }

  lemma Single(n: Node, cls: string)
    ensures TextContent([n]) == NodeText(n)
    ensures Select([n], cls) == SelectIn(n, cls)
  {
    assert [n][1..] == [];
  }

  /** A node list read as its first node followed by the rest. */
  lemma Cons(h: Node, t: seq<Node>, cls: string)
    ensures TextContent([h] + t) == NodeText(h) + TextContent(t)
    ensures Select([h] + t, cls) == SelectIn(h, cls) + Select(t, cls)
  {
    assert ([h] + t)[1..] == t;
  }

  lemma {:induction false} TextContentAppend(a: seq<Node>, b: seq<Node>)
    ensures TextContent(a + b) == TextContent(a) + TextContent(b)
  {
    if a == [] {
      assert a + b == b;
    } else {
      assert (a + b)[1..] == a[1..] + b;
      TextContentAppend(a[1..], b);
    }
  }

  lemma {:induction false} SelectAppend(a: seq<Node>, b: seq<Node>, cls: string)
    ensures Select(a + b, cls) == Select(a, cls) + Select(b, cls)
  {
    if a == [] {
      assert a + b == b;
    } else {
      assert (a + b)[1..] == a[1..] + b;
      SelectAppend(a[1..], b, cls);
    }
  }
}
