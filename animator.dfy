/**
 * The `AnimateString` class (animate-string.js:6-106): the constructor
 * resolves the three settings and transforms every given root element;
 * `#transformString` rewrites one root and adds a "mouseover" listener to
 * every character span under it; a listener, when it fires, starts the
 * animation on its span and then calls the hover callback.
 *
 * The host document is not modelled as shared mutable objects: the roots
 * as they stand after the rewrite are a field, each listener records which
 * span of which root it sits on, and the effects of the handlers (the
 * `animate` call and the callback call) are appended to a log.
 */
module Animator {
  import opened Text
  import opened Dom
  import opened Run
  import opened Tree
  import opened Config

  /**
   * Whether `Element.animate` accepts the duration: the Web Animations API
   * rejects a negative duration with a `TypeError`.
   */
  predicate AnimateAccepts(duration: int)
  {
    duration >= 0
  }

  /** A "mouseover" event, known by its identity. */
  datatype Event = Event(id: nat)

  /** A listener on the `index`-th character span (in document order) under root number `root`. */
  datatype Listener = Listener(root: nat, index: nat, target: Node)

  /** What a hover handler does, in order. */
  datatype Effect =
    | Animate(root: nat, index: nat, target: Node, keyframes: seq<Keyframe>, duration: int)
    | Invoke(callback: Callback, event: Event)

  /** `root.querySelectorAll(".animated-string-char")`. */
  function CharSpansUnder(root: Node): seq<Node>
  {
    Select(ChildNodes(root), CharClass)
  }

  /** The listeners `#transformString` adds for root number `r`: one per character span, in order. */
  function ListenersOn(r: nat, root: Node): (ls: seq<Listener>)
    ensures |ls| == |CharSpansUnder(root)|
    ensures forall k :: 0 <= k < |ls| ==> ls[k] == Listener(r, k, CharSpansUnder(root)[k])
  {
    var spans := CharSpansUnder(root);
    seq(|spans|, k requires 0 <= k < |spans| => Listener(r, k, spans[k]))
  }

  /** The listeners of all roots, root after root. */
  function ListenersFor(roots: seq<Node>): (ls: seq<Listener>)
    ensures |ls| == |AllSpans(roots)|
  {
    if roots == [] then []
    else ListenersFor(roots[..|roots| - 1]) + ListenersOn(|roots| - 1, roots[|roots| - 1])
  }

  /** Every listener sits on an actual character span of its root, at the index it records. */
  lemma {:induction false} ListenersOnSpans(roots: seq<Node>)
    ensures forall i :: 0 <= i < |ListenersFor(roots)| ==>
      var l := ListenersFor(roots)[i];
      && l.root < |roots|
      && l.index < |CharSpansUnder(roots[l.root])|
      && l.target == CharSpansUnder(roots[l.root])[l.index]
  {
    if roots != [] {
      var n := |roots| - 1;
      var prefix := roots[..n];
      ListenersOnSpans(prefix);
      var a := ListenersFor(prefix);
      var b := ListenersOn(n, roots[n]);
      assert ListenersFor(roots) == a + b;
      forall i | 0 <= i < |a + b|
        ensures var l: Listener := (a + b)[i];
          && l.root < |roots|
          && l.index < |CharSpansUnder(roots[l.root])|
          && l.target == CharSpansUnder(roots[l.root])[l.index]
      {
        if i < |a| {
          assert (a + b)[i] == a[i];
          assert prefix[a[i].root] == roots[a[i].root];
        } else {
          assert (a + b)[i] == b[i - |a|];
        }
      }
    }
  }

  /** The character spans under all roots, root after root. */
  function AllSpans(roots: seq<Node>): seq<Node>
  {
    if roots == [] then []
    else AllSpans(roots[..|roots| - 1]) + CharSpansUnder(roots[|roots| - 1])
  }

  /** The targets of a list of listeners, in order. */
  function Targets(ls: seq<Listener>): (ts: seq<Node>)
    ensures |ts| == |ls|
    ensures forall i :: 0 <= i < |ls| ==> ts[i] == ls[i].target
  {
    seq(|ls|, i requires 0 <= i < |ls| => ls[i].target)
  }

  /** The roots after `#updateNodeTreeRecursive` has run on each. */
  function UpdateAll(els: seq<Node>): (roots: seq<Node>)
    ensures |roots| == |els|
    ensures forall i :: 0 <= i < |els| ==> roots[i] == UpdateTree(els[i])
  {
    seq(|els|, i requires 0 <= i < |els| => UpdateTree(els[i]))
  }

  lemma ListenersSnoc(roots: seq<Node>, root: Node)
    ensures ListenersFor(roots + [root]) == ListenersFor(roots) + ListenersOn(|roots|, root)
  {
    assert (roots + [root])[..|roots|] == roots;
  }

  lemma UpdateAllSnoc(els: seq<Node>, i: nat)
    requires i < |els|
    ensures UpdateAll(els[..i + 1]) == UpdateAll(els[..i]) + [UpdateTree(els[i])]
  {
  }

  /**
   * Each character span gets exactly one listener: the listener at position
   * `|AllSpans(roots[..r])| + k` is the one on span `k` of root `r`, and (by
   * `ListenersOnSpans` and the count) there are no other listeners.
   */
  lemma {:induction false} ListenerOfEachSpan(roots: seq<Node>, r: nat, k: nat)
    requires r < |roots| && k < |CharSpansUnder(roots[r])|
    ensures |AllSpans(roots[..r])| + k < |ListenersFor(roots)|
    ensures ListenersFor(roots)[|AllSpans(roots[..r])| + k] == Listener(r, k, CharSpansUnder(roots[r])[k])
  {
    var n := |roots| - 1;
    var prefix := roots[..n];
    assert ListenersFor(roots) == ListenersFor(prefix) + ListenersOn(n, roots[n]);
    if r < n {
      assert prefix[r] == roots[r];
      assert prefix[..r] == roots[..r];
      ListenerOfEachSpan(prefix, r, k);
    } else {
      assert roots[..r] == prefix;
    }
  }

  /** The listeners' targets, in order, are the character spans of the roots, root after root. */
  lemma {:induction false} ListenerTargets(roots: seq<Node>)
    ensures Targets(ListenersFor(roots)) == AllSpans(roots)
  {
    if roots != [] {
      var n := |roots| - 1;
      ListenerTargets(roots[..n]);
      var a := ListenersFor(roots[..n]);
      var b := ListenersOn(n, roots[n]);
      assert Targets(a + b) == Targets(a) + Targets(b);
      assert Targets(b) == CharSpansUnder(roots[n]);
    }
  }

  /**
   * When no element of the given roots already carries the character class,
   * the spans that get listeners are one per non-whitespace character of
   * each root's text content, in document order, root after root.
   */
  lemma {:induction false} SpansOfUpdatedRoots(els: seq<Node>)
    requires forall i :: 0 <= i < |els| ==> Select(ChildNodes(els[i]), CharClass) == []
    ensures AllSpans(UpdateAll(els)) == CharElements(NonWhitespace(RootsText(els)))
  {
    if els != [] {
      var n := |els| - 1;
      SpansOfUpdatedRoots(els[..n]);
      assert UpdateAll(els)[..n] == UpdateAll(els[..n]);
      RootSelection(els[n]);
      NonWhitespaceAppend(RootsText(els[..n]), TextContent(ChildNodes(els[n])));
      CharElementsAppend(NonWhitespace(RootsText(els[..n])), NonWhitespace(TextContent(ChildNodes(els[n]))));
    }
  }

  /** The text content of the roots, root after root. */
  function RootsText(els: seq<Node>): string
  {
    if els == [] then [] else RootsText(els[..|els| - 1]) + TextContent(ChildNodes(els[|els| - 1]))
  }

  /**
   * What the constructor wires up, when no element of the given roots
   * already carries the character class: one listener per non-whitespace
   * character of the roots' text, each on that character's own span, in
   * document order, root after root.
   */
  lemma ListenedSpans(els: seq<Node>)
    requires forall i :: 0 <= i < |els| ==> Select(ChildNodes(els[i]), CharClass) == []
    ensures Targets(ListenersFor(UpdateAll(els))) == CharElements(NonWhitespace(RootsText(els)))
    ensures |ListenersFor(UpdateAll(els))| == |NonWhitespace(RootsText(els))|
  {
    ListenerTargets(UpdateAll(els));
    SpansOfUpdatedRoots(els);
  }

  class AnimateString {
    /** `#animationKeyframes`, `#animationDuration` and `#onMouseover`, fixed by the constructor. */
    const animationKeyframes: seq<Keyframe>
    const animationDuration: int
    const onMouseover: Callback

    /** The root elements given to the constructor, as they stand after the rewrite. */
    var roots: seq<Node>
    /** Every "mouseover" listener added, in the order they were added. */
    var listeners: seq<Listener>
    /** What the hover handlers have done so far. */
    var log: seq<Effect>

    /** The listeners are exactly those of the character spans under the roots. */
    ghost predicate Valid()
      reads this
    {
      listeners == ListenersFor(roots)
    }

    constructor (stringEls: seq<Node>, animationKeyframes: Option<seq<Keyframe>>,
                 animationDuration: Option<int>, onMouseover: Option<Callback>, statics: Statics)
      requires forall i :: 0 <= i < |stringEls| ==> stringEls[i].Element?
      ensures this.animationKeyframes == ResolveKeyframes(animationKeyframes, statics)
      ensures this.animationDuration == ResolveDuration(animationDuration, statics)
      ensures this.onMouseover == ResolveCallback(onMouseover, statics)
      ensures roots == UpdateAll(stringEls)
      ensures listeners == ListenersFor(roots)
      ensures log == []
      ensures Valid()
    {
      if KeyframesTruthy(animationKeyframes) {
        this.animationKeyframes := animationKeyframes.value;
      } else {
        this.animationKeyframes := statics.animationKeyframes;
      }
      if DurationTruthy(animationDuration) {
        this.animationDuration := animationDuration.value;
      } else {
        this.animationDuration := statics.animationDuration;
      }
      if CallbackTruthy(onMouseover) {
        this.onMouseover := onMouseover.value;
      } else {
        this.onMouseover := statics.onMouseover;
      }
      roots, listeners, log := [], [], [];
      new;
      TransformAll(stringEls);
    }

    /** The constructor's loop: `#transformString` on each given element, in order. */
    method TransformAll(stringEls: seq<Node>)
      requires roots == [] && listeners == []
      requires forall i :: 0 <= i < |stringEls| ==> stringEls[i].Element?
      modifies this`roots, this`listeners
      ensures roots == UpdateAll(stringEls)
      ensures listeners == ListenersFor(roots)
    {
      for i := 0 to |stringEls|
        invariant roots == UpdateAll(stringEls[..i])
        invariant listeners == ListenersFor(roots)
      {
        ghost var before := roots;
        TransformString(stringEls[i]);
        UpdateAllSnoc(stringEls, i);
        ListenersSnoc(before, UpdateTree(stringEls[i]));
      }
      assert stringEls[..|stringEls|] == stringEls;
    }

    /**
     * `#transformString`: rewrite the root, then add one listener to each
     * character span under it, in document order.
     */
    method TransformString(stringEl: Node)
      requires stringEl.Element?
      modifies this`roots, this`listeners
      ensures roots == old(roots) + [UpdateTree(stringEl)]
      ensures listeners == old(listeners) + ListenersOn(|old(roots)|, UpdateTree(stringEl))
    {
      var r := |roots|;
      var updated := UpdateNodeTree(stringEl);
      roots := roots + [updated];
      AddListeners(r, updated);
    }

    /** One listener per character span under `root`, in document order. */
    method AddListeners(r: nat, root: Node)
      modifies this`listeners
      ensures listeners == old(listeners) + ListenersOn(r, root)
    {
      var charEls := Select(ChildNodes(root), CharClass);
      for k := 0 to |charEls|
        invariant listeners == old(listeners) + ListenersOn(r, root)[..k]
      {
        listeners := listeners + [Listener(r, k, charEls[k])];
        assert ListenersOn(r, root)[..k + 1] == ListenersOn(r, root)[..k] + [Listener(r, k, charEls[k])];
      }
      assert ListenersOn(r, root)[..|charEls|] == ListenersOn(r, root);
    }

    /**
     * The listener at position `i` fires with event `e`: `animate` is called
     * on its span with the instance's keyframes and duration, then the
     * instance's callback is called with the same event. When `animate`
     * throws (a negative duration), the handler stops before the callback.
     */
    method Hover(i: nat, e: Event)
      requires Valid()
      requires i < |listeners|
      modifies this`log
      ensures Valid()
      ensures listeners[i].root < |roots|
      ensures listeners[i].index < |CharSpansUnder(roots[listeners[i].root])|
      ensures listeners[i].target == CharSpansUnder(roots[listeners[i].root])[listeners[i].index]
      ensures AnimateAccepts(animationDuration) ==>
        log == old(log) + [Animate(listeners[i].root, listeners[i].index, listeners[i].target,
                                   animationKeyframes, animationDuration),
                           Invoke(onMouseover, e)]
      ensures !AnimateAccepts(animationDuration) ==>
        log == old(log) + [Animate(listeners[i].root, listeners[i].index, listeners[i].target,
                                   animationKeyframes, animationDuration)]
    {
      ListenersOnSpans(roots);
      var l := listeners[i];
      log := log + [Animate(l.root, l.index, l.target, animationKeyframes, animationDuration)];
      if !AnimateAccepts(animationDuration) {
        return;
      }
      log := log + [Invoke(onMouseover, e)];
    }
  }
}
