/**
 * The recursive tree rewrite `#updateNodeTreeRecursive`
 * (animate-string.js:147-177): every `#text` child of an element is replaced
 * by the span built for it, and every other child is recursed into.
 */
module Tree {
  import opened Text
  import opened Dom
  import opened Run

  /** `#updateNodeTreeRecursive(n)`: only an element has child nodes to walk. */
  function UpdateTree(n: Node): (r: Node)
    ensures n.Element? ==> r.Element? && r.name == n.name && r.classes == n.classes
    ensures !n.Element? ==> r == n
    decreases n, 1
  {
    match n
    case Element(name, classes, ch) => Element(name, classes, UpdateChildren(ch))
    case _ => n
  }

  /** What the loop body does with one child: a text node is replaced, anything else recursed into. */
  function UpdateChild(child: Node): Node
    decreases child, 2
  {
    if child.Text? then RunSpan(child.data) else UpdateTree(child)
  }

  /** The child list after the loop over `childNodes`. */
  function UpdateChildren(ch: seq<Node>): (out: seq<Node>)
    ensures |out| == |ch|
    decreases ch, 0
  {
    if ch == [] then [] else [UpdateChild(ch[0])] + UpdateChildren(ch[1..])
  }

  /**
   * The shape of the child list after the loop: as many children as
   * before, each text child replaced by exactly one span at its own index,
   * every other child kept at its index and rewritten recursively.
   */
  lemma UpdateChildrenShape(ch: seq<Node>)
    ensures |UpdateChildren(ch)| == |ch|
    ensures forall i :: 0 <= i < |ch| && ch[i].Text? ==> UpdateChildren(ch)[i] == RunSpan(ch[i].data)
    ensures forall i :: 0 <= i < |ch| && !ch[i].Text? ==> UpdateChildren(ch)[i] == UpdateTree(ch[i])
  {
    forall i | 0 <= i < |ch|
      ensures UpdateChildren(ch)[i] == UpdateChild(ch[i])
    {
      UpdateChildrenAt(ch, i);
    }
  }

  lemma {:induction false} UpdateChildrenAt(ch: seq<Node>, k: nat)
    requires k < |ch|
    ensures UpdateChildren(ch)[k] == UpdateChild(ch[k])
  {
    if k > 0 {
      UpdateChildrenAt(ch[1..], k - 1);
    }
  }

  /**
   * The text a rewritten list reads as: for every original text node, in
   * depth-first document order, its trimmed data followed by one space.
   */
  function NormalizedText(ns: seq<Node>): string
  {
    if ns == [] then [] else NormalizedNodeText(ns[0]) + NormalizedText(ns[1..])
  }

  function NormalizedNodeText(n: Node): string
  {
    match n
    case Text(d) => Trim(d) + " "
    case Element(_, _, ch) => NormalizedText(ch)
    case Other(_) => []
  }

  // ---------------------------------------------------------------------------
  // Properties of the rewrite

  /**
   * Text at every depth is transformed: the rewritten children read as the
   * trimmed data of each original text node plus one space, in document order.
   */
  lemma {:induction false} UpdatedText(ch: seq<Node>)
    ensures TextContent(UpdateChildren(ch)) == NormalizedText(ch)
    decreases ch, 0
  {
    if ch != [] {
      var head := UpdateChild(ch[0]);
      assert UpdateChildren(ch) == [head] + UpdateChildren(ch[1..]);
      Cons(head, UpdateChildren(ch[1..]), CharClass);
      UpdatedChildText(ch[0]);
      UpdatedText(ch[1..]);
    }
  }

  lemma {:induction false} UpdatedChildText(c: Node)
    ensures NodeText(UpdateChild(c)) == NormalizedNodeText(c)
    decreases c, 1
  {
    match c
    case Text(d) =>
      RunSpanContent(d);
    case Element(_, _, kids) =>
      UpdatedText(kids);
    case Other(_) =>
  }

  /**
   * When no element of the original tree already carries the character
   * class, the character spans under the rewritten children are exactly one
   * per non-whitespace character of their text content, in depth-first
   * document order: the concatenation of the spans made for each text node.
   */
  lemma {:induction false} UpdatedSelection(ch: seq<Node>)
    requires Select(ch, CharClass) == []
    ensures Select(UpdateChildren(ch), CharClass) == CharElements(NonWhitespace(TextContent(ch)))
    decreases ch, 0
  {
    if ch != [] {
      var head := UpdateChild(ch[0]);
      var rest := UpdateChildren(ch[1..]);
      assert UpdateChildren(ch) == [head] + rest;
      Cons(head, rest, CharClass);
      UpdatedChildSelection(ch[0]);
      UpdatedSelection(ch[1..]);
      SelectionStep(NodeText(ch[0]), TextContent(ch[1..]));
    }
  }

  lemma SelectionStep(a: string, b: string)
    ensures CharElements(NonWhitespace(a + b)) == CharElements(NonWhitespace(a)) + CharElements(NonWhitespace(b))
  {
    NonWhitespaceAppend(a, b);
    CharElementsAppend(NonWhitespace(a), NonWhitespace(b));
  }

  lemma {:induction false} UpdatedChildSelection(c: Node)
    requires SelectIn(c, CharClass) == []
    ensures SelectIn(UpdateChild(c), CharClass) == CharElements(NonWhitespace(NodeText(c)))
    decreases c, 1
  {
    match c
    case Text(d) =>
      RunSpanContent(d);
    case Element(_, classes, kids) =>
      assert CharClass !in classes;
      UpdatedSelection(kids);
    case Other(_) =>
  }

  /**
   * The rewrite of a root element: the root itself is kept, and the
   * character spans under it are one per non-whitespace character of its
   * text content, in document order.
   */
  lemma RootSelection(root: Node)
    requires Select(ChildNodes(root), CharClass) == []
    ensures Select(ChildNodes(UpdateTree(root)), CharClass) == CharElements(NonWhitespace(TextContent(ChildNodes(root))))
    ensures TextContent(ChildNodes(UpdateTree(root))) == NormalizedText(ChildNodes(root))
  {
    if root.Element? {
      UpdatedSelection(root.children);
      UpdatedText(root.children);
    }
  }

  // ---------------------------------------------------------------------------
  // The walk itself

  /** `#updateNodeTreeRecursive` as the source writes it: a loop over the live child list. */
  method UpdateNodeTree(n: Node) returns (r: Node)
    ensures r == UpdateTree(n)
    decreases n, 1
  {
    if n.Element? {
      var kids := UpdateChildNodes(n.children);
      r := Element(n.name, n.classes, kids);
    } else {
      r := n;
    }
  }

  /**
   * The loop over `childNodes` while the loop body calls `replaceWith`:
   * replacing the child at index `i` by one node leaves every later child at
   * its index, so the walk visits every original child exactly once.
   */
  method UpdateChildNodes(ch: seq<Node>) returns (childNodes: seq<Node>)
    ensures childNodes == UpdateChildren(ch)
    decreases ch, 0
  {
    ghost var target := UpdateChildren(ch);
    childNodes := ch;
    var i := 0;
    while i < |childNodes|
      invariant 0 <= i <= |childNodes| == |ch| == |target|
      invariant forall k :: 0 <= k < i ==> childNodes[k] == target[k]
      invariant childNodes[i..] == ch[i..]
    {
      var childNode := childNodes[i];
      assert childNode == ch[i] by {
        assert childNodes[i..][0] == ch[i..][0];
      }
      var newNode := ReplacementFor(childNode);
      UpdateChildrenAt(ch, i);
      childNodes := childNodes[i := newNode];
      i := i + 1;
    }
  }

  /** One turn of the loop body: the node that takes the child's place. */
  method ReplacementFor(childNode: Node) returns (newNode: Node)
    ensures newNode == UpdateChild(childNode)
    decreases childNode, 2
  {
    if childNode.Text? {
      var innerHTML;
      newNode, innerHTML := BuildRun(childNode.data);
    } else {
      newNode := UpdateNodeTree(childNode);
    }
  }

  // ---------------------------------------------------------------------------
  // Worked examples

  /** `"Hi there"` gives two words: two character spans, then five. */
  lemma HiThere()
    ensures TextRun("Hi there") == [[Wrapped('H'), Wrapped('i')],
                                    [Wrapped('t'), Wrapped('h'), Wrapped('e'), Wrapped('r'), Wrapped('e')]]
  {
    HiThereTrim();
    HiThereSplit();
    HiWrap();
    ThereWrap();
  }

  lemma HiThereTrim()
    ensures Trim("Hi there") == "Hi there"
  {
    assert !IsWhitespace('H') && !IsWhitespace('e');
    assert TrimStart("Hi there") == "Hi there";
    assert TrimEnd("Hi there") == "Hi there";
  }

  lemma HiThereSplit()
    ensures Split("Hi there", ' ') == ["Hi", "there"]
  {
    SplitJoin(["Hi", "there"], ' ');
    assert Join(["Hi", "there"], ' ') == "Hi there";
  }

  lemma HiWrap()
    ensures WrapChars("Hi") == [Wrapped('H'), Wrapped('i')]
  {
    var w := WrapChars("Hi");
    forall i | 0 <= i < 2
      ensures w[i] == Wrapped("Hi"[i])
    {
      CharsAt(w, i);
      assert !IsWhitespace("Hi"[i]);
    }
  }

  lemma ThereWrap()
    ensures WrapChars("there") == [Wrapped('t'), Wrapped('h'), Wrapped('e'), Wrapped('r'), Wrapped('e')]
  {
    var w := WrapChars("there");
    assert |w| == 5;
    forall i | 0 <= i < 5
      ensures w[i] == Wrapped("there"[i])
    {
      CharsAt(w, i);
      assert !IsWhitespace("there"[i]);
    }
  }

  /**
   * A root holding text `a`, an element holding text `b`, and text `c`: the
   * three children keep their order, the element stays in the middle, and
   * each text node, at either depth, is replaced by its own span.
   */
  lemma NestedElement(p: string, q: string, a: string, b: string, c: string)
    ensures UpdateTree(Element(p, {}, [Text(a), Element(q, {}, [Text(b)]), Text(c)]))
      == Element(p, {}, [RunSpan(a), Element(q, {}, [RunSpan(b)]), RunSpan(c)])
  {
    NestedShape([Text(a), Element(q, {}, [Text(b)]), Text(c)], q, a, b, c);
  }

  /** In the same tree, the character spans are those of `a`, then `b`, then `c`. */
  lemma NestedElementSpans(q: string, a: string, b: string, c: string)
    ensures Select([RunSpan(a), Element(q, {}, [RunSpan(b)]), RunSpan(c)], CharClass)
      == CharElements(NonWhitespace(a + b + c))
  {
    var ch := [Text(a), Element(q, {}, [Text(b)]), Text(c)];
    NestedShape(ch, q, a, b, c);
    NestedSpans(ch, q, a, b, c);
  }

  lemma NestedSpans(ch: seq<Node>, q: string, a: string, b: string, c: string)
    requires ch == [Text(a), Element(q, {}, [Text(b)]), Text(c)]
    requires UpdateChildren(ch) == [RunSpan(a), Element(q, {}, [RunSpan(b)]), RunSpan(c)]
    ensures Select(UpdateChildren(ch), CharClass) == CharElements(NonWhitespace(a + b + c))
  {
    NestedFacts(ch, q, a, b, c);
    UpdatedSelection(ch);
  }

  lemma NestedShape(ch: seq<Node>, q: string, a: string, b: string, c: string)
    requires ch == [Text(a), Element(q, {}, [Text(b)]), Text(c)]
    ensures UpdateChildren(ch) == [RunSpan(a), Element(q, {}, [RunSpan(b)]), RunSpan(c)]
  {
    var out := UpdateChildren(ch);
    NestedInner(ch[1], q, b);
    ThreeChildren(ch, out);
  }

  lemma NestedInner(x: Node, q: string, b: string)
    requires x == Element(q, {}, [Text(b)])
    ensures UpdateTree(x) == Element(q, {}, [RunSpan(b)])
  {
    SingleTextChild(b);
  }

  lemma SingleTextChild(b: string)
    ensures UpdateChildren([Text(b)]) == [RunSpan(b)]
  {
    assert [Text(b)][1..] == [];
  }

  lemma ThreeChildren(ch: seq<Node>, out: seq<Node>)
    requires |ch| == 3 && out == UpdateChildren(ch)
    ensures out == [UpdateChild(ch[0]), UpdateChild(ch[1]), UpdateChild(ch[2])]
  {
    UpdateChildrenAt(ch, 0);
    UpdateChildrenAt(ch, 1);
    UpdateChildrenAt(ch, 2);
  }

  lemma NestedFacts(ch: seq<Node>, q: string, a: string, b: string, c: string)
    requires ch == [Text(a), Element(q, {}, [Text(b)]), Text(c)]
    ensures Select(ch, CharClass) == []
    ensures TextContent(ch) == a + b + c
  {
    var inner := ch[1];
    assert ch == [Text(a)] + ([inner] + [Text(c)]);
    Cons(Text(a), [inner] + [Text(c)], CharClass);
    Cons(inner, [Text(c)], CharClass);
    Single(Text(b), CharClass);
    Single(Text(c), CharClass);
  }

  /** The instance `"A "`, `<b>B</b>`, `" C"`: the character spans are A, B, C in that order. */
  lemma NestedElementABC(q: string)
    ensures Select([RunSpan("A "), Element(q, {}, [RunSpan("B")]), RunSpan(" C")], CharClass)
      == CharElements("ABC")
  {
    NestedElementSpans(q, "A ", "B", " C");
    SpacedOut('A', 'B', 'C');
    assert "A " + "B" + " C" == ['A', ' '] + ['B'] + [' ', 'C'];
  }

  lemma SpacedOut(x: char, y: char, z: char)
    requires !IsWhitespace(x) && !IsWhitespace(y) && !IsWhitespace(z)
    ensures NonWhitespace([x, ' '] + [y] + [' ', z]) == [x, y, z]
  {
    NonWhitespaceAppend([x, ' '] + [y], [' ', z]);
    NonWhitespaceAppend([x, ' '], [y]);
    NonWhitespaceCons(' ', []);
    NonWhitespaceCons(x, [' ']);
    NonWhitespaceCons(y, []);
    NonWhitespaceCons(z, []);
    NonWhitespaceCons(' ', [z]);
  }

  lemma NonWhitespaceCons(c: char, s: string)
    ensures NonWhitespace([c] + s) == (if IsWhitespace(c) then [] else [c]) + NonWhitespace(s)
  {
    assert ([c] + s)[1..] == s;
  }
}
