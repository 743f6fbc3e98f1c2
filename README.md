# AnimateString in Dafny

A model of `animate-string.js`, a small browser class that animates text on
hover. Its constructor takes a list of elements and three optional settings:
keyframes, a duration and a hover callback. It then rewrites every `#text`
node under each element:

- The text is trimmed and split on `" "`.
- Every non-whitespace character goes into its own
  `<span class='animated-string-char'>`.
- Every word goes into a `<span style="display: inline-flex;">`, followed by
  one space.
- The result is one new `<span>` that takes the text node's place.

For each element, right after rewriting it, the constructor adds a
"mouseover" listener to every character span under it. When a listener
fires, it runs the animation on its span and then calls the hover callback.

The model has six modules:

- `Dom` (`dom.dfy`): an abstract document tree. A node is a text node, an
  element (tag name, class set and child nodes), or any other node kind.
  `textContent` and `querySelectorAll` are defined on it as `TextContent`
  and `Select`, in depth-first document order.
- `Text` (`text.dfy`): the ECMAScript whitespace class, `trim`, and `split`
  on one character, with `join` as its inverse.
- `Run` (`run.dfy`): the transformation of one text node, seen three ways:
  - the abstract words, where each character is wrapped or raw (`TextRun`);
  - the markup string that the loop appends to `innerHTML` (`RunMarkup`);
  - the element the browser builds from that markup (`RunSpan`).

  `BuildRun` is the loop itself, and it produces the markup and the element
  together.
- `Tree` (`tree.dfy`): the recursive rewrite `#updateNodeTreeRecursive`.
  `UpdateTree` and `UpdateChildren` specify it as a structural map.
  `UpdateNodeTree` and `UpdateChildNodes` are the walk over the live child
  list, where each text child is replaced one for one.
- `Config` (`config.dfy`): the class's public static fields and how the
  constructor falls back on them. Any script may reassign those fields, so
  the constructor takes their current values (`Statics`) as a parameter.
  JavaScript truthiness is made explicit.
- `Animator` (`animator.dfy`): the class `AnimateString`.
  - Its resolved settings are constant fields.
  - The roots as rewritten, the listeners added and a log of what the hover
    handlers did are mutable fields.
  - The constructor, `TransformString` and `Hover` follow the source's
    methods.

The document is not shared mutable state in this model. A root is a value,
and a listener records the span it sits on: the index of its root, the
span's position under that root, and the span itself. The foreign calls
`Element.animate` and the user's callback become entries in the log.

Observable consequences of the source that the model states:

- A text node reads back as its trimmed text plus one space. Surrounding
  whitespace is dropped, and a space is added after the last word
  (`RunReadsBack`, `RunSpanContent`, `UpdatedText`).
- A blank text node still becomes a span holding one empty word span.
- Two consecutive spaces give an empty word span.
- A duration of `0` falls back to the static duration, which is 600 ms unless a script has reassigned it.
- An empty keyframes array is truthy, so it is kept.

## Model

| member | source | states |
|---|---|---|
| Dom.SelectedCarryClass | animate-string.js:92 | every node that `querySelectorAll(".animated-string-char")` returns is an element carrying that class |
| Text.NonWhitespace | animate-string.js:164 | the characters that `/\S/` matches are taken in order, and none of them is whitespace |
| Text.TrimStartSpec | animate-string.js:162 | the result is a suffix of the input that does not start with whitespace, and everything removed is whitespace |
| Text.TrimEndSpec | animate-string.js:162 | the result is a prefix of the input that does not end with whitespace, and everything removed is whitespace |
| Text.TrimSpec | animate-string.js:162 | `trim()` leaves no whitespace at either end and keeps every non-whitespace character in order |
| Text.TrimKeepsOnly | animate-string.js:162 | `trim()` introduces no character that was not in the input |
| Text.SplitSpec | animate-string.js:162 | `split(" ")` gives one more piece than there are spaces; no piece contains a space; joining the pieces with spaces gives the input back |
| Text.SplitJoin | animate-string.js:162 | splitting pieces that were joined with spaces gives the pieces back, so split and join are inverses |
| Text.AdjacentSeparatorsGiveEmptyPiece | animate-string.js:162 | two adjacent spaces make `split(" ")` yield an empty piece after the first |
| Run.WrapCharsSpec | animate-string.js:164 | `replace(/\S/g, …)` wraps exactly the non-whitespace characters; the word's characters stay in order with none added or lost |
| Run.WrapWordsAt | animate-string.js:162-164 | the word at each position is that piece of the split, wrapped on its own |
| Run.TextRunLength | animate-string.js:162-166 | a text node gives one word wrapper per space in its trimmed text, plus one |
| Run.RunReadsBack | animate-string.js:162-166 | the words read back, each followed by one space, give exactly `trim(text) + " "` |
| Run.RunWrapsNonWhitespace | animate-string.js:162-164 | the character wrappers of a text node hold its non-whitespace characters in order, one wrapper per character |
| Run.RunPieces | animate-string.js:164 | inside a word only non-whitespace characters are wrapped; what stays unwrapped is whitespace other than `" "` |
| Run.BlankTextGivesOneEmptyWord | animate-string.js:162-166 | an empty or whitespace-only text node yields exactly one, empty, word wrapper |
| Run.ConsecutiveSpacesGiveEmptyWord | animate-string.js:162-166 | two consecutive spaces in the trimmed text yield an empty word wrapper |
| Run.PiecesMarkupStrips | animate-string.js:164 | with its tags removed, a word's character markup reads as the word's characters |
| Run.WordMarkupStrips | animate-string.js:166 | with its tags removed, one word's markup reads as the word followed by one space |
| Run.RunMarkupStrips | animate-string.js:161-167 | with its tags removed, the whole accumulated `innerHTML` reads as the words, each followed by a space |
| Run.MarkupReadsBack | animate-string.js:161-167 | for text without `<`, removing every tag from the built markup leaves exactly `trim(text) + " "` |
| Run.CharElements | animate-string.js:164 | one character span per character, in order, each holding its own character |
| Run.RunNodesContent | animate-string.js:161-167 | the parsed children of the new span read as the words plus spaces, and their character spans are the wrapped characters in order |
| Run.RunSpanContent | animate-string.js:159-167 | the new span reads as `trim(text) + " "`, and its character spans are one per non-whitespace character of the text, in order |
| Run.BuildRun | animate-string.js:159-167 | the loop with `innerHTML +=` accumulates exactly the markup of every word in order, and the span it yields is the parsed run |
| Tree.UpdateTree | animate-string.js:147-177 | the rewrite keeps an element's tag and classes, and leaves every node that is not an element unchanged |
| Tree.UpdateChildrenShape | animate-string.js:149-176 | the number and order of children are kept; every text child is replaced by exactly one span at its own index; every other child stays at its index and is rewritten recursively |
| Tree.UpdatedText | animate-string.js:149-176 | text is transformed at every depth: the rewritten children read as each original text node's trimmed data plus a space, in document order |
| Tree.UpdatedSelection | animate-string.js:149-176 | with no character spans beforehand, the character spans after the rewrite are one per non-whitespace character of the text content, in depth-first document order |
| Tree.RootSelection | animate-string.js:89-92 | after `#updateNodeTreeRecursive(root)`, `querySelectorAll` on the root finds the character spans of its text in document order |
| Tree.UpdateNodeTree | animate-string.js:147-177 | the imperative walk computes the structural rewrite |
| Tree.UpdateChildNodes | animate-string.js:149-176 | the loop over the live `childNodes` list with one-for-one `replaceWith` visits every original child exactly once, and yields the mapped list |
| Tree.ReplacementFor | animate-string.js:151-175 | one turn of the loop body: a `#text` child becomes its new span, and anything else is recursed into |
| Tree.HiThere | animate-string.js:162-166 | `"Hi there"` gives two words, with two and then five wrapped characters |
| Tree.NestedElement | animate-string.js:119-145 | the documented example shape: a text node, an element holding text, and a text node keep their order, each text becomes its span and the element keeps its place with its text rewritten |
| Tree.NestedElementSpans | animate-string.js:119-145 | in that example, the character spans found are those of the three texts, in document order |
| Tree.NestedElementABC | animate-string.js:119-145 | an instance of the example, with texts `"A "`, `"B"` and `" C"`: the character spans found are exactly those of A, B and C, in that order |
| Config.KeyframesIsStaticIff | animate-string.js:58-62 | the instance uses the static keyframes as they stand exactly when no keyframes are given or that same array is given |
| Config.ResolveDuration | animate-string.js:64-68 | a truthy duration is kept; otherwise the static duration is used; the result is 0 only when the static duration has been set to 0 |
| Config.CallbackIsStaticIff | animate-string.js:70-74 | the instance uses the static callback as it stands exactly when no callback is given or that same callback is given |
| Config.ResolveIsPerSetting | animate-string.js:56-74 | each setting falls back on its own, so each resolved field depends only on its own argument and its own static field |
| Config.NoArgumentsTakeStatics | animate-string.js:56-74 | with no arguments, the instance takes the three static fields as they stand when the constructor runs |
| Config.NoOverrides | animate-string.js:11-32 | with no arguments and the static fields at their initial values: the two-keyframe default, 600 ms and the no-op |
| Config.DurationIsStaticIff | animate-string.js:64-68 | the duration is the static one exactly when the argument is missing, 0, or equal to the static duration |
| Config.EmptyKeyframesKept | animate-string.js:58 | an empty keyframes array is truthy and is kept |
| Animator.ListenersFor | animate-string.js:77-105 | the listeners of all roots are as many as their character spans |
| Animator.ListenersOnSpans | animate-string.js:77-105 | each listener sits on an actual character span of its root, at a valid root index and span position |
| Animator.ListenerOfEachSpan | animate-string.js:95-105 | every character span of every root has its listener, at its own position in the listener list, so each span gets exactly one |
| Animator.ListenerTargets | animate-string.js:92-105 | the listeners' spans, in order, are the roots' character spans, root after root |
| Animator.SpansOfUpdatedRoots | animate-string.js:89-92 | with no character spans beforehand, the spans selected after the rewrite are one per non-whitespace character of the roots' text |
| Animator.ListenedSpans | animate-string.js:77-105 | the constructor wires one listener per non-whitespace character of the roots' text, each on that character's span, in document order |
| Animator.AnimateString.constructor | animate-string.js:56-80 | the fields take the settings resolved against the static fields as they stand; the roots are rewritten; the listeners are exactly those of the rewritten roots; nothing has been animated yet |
| Animator.AnimateString.TransformAll | animate-string.js:77-79 | `#transformString` runs on each given element, in order |
| Animator.AnimateString.TransformString | animate-string.js:86-106 | one root is rewritten and appended, and one listener per character span under it is added, in order |
| Animator.AnimateString.AddListeners | animate-string.js:92-105 | the loop over `querySelectorAll` adds exactly the root's listeners, in order |
| Animator.AnimateString.Hover | animate-string.js:100-104 | the listener sits on an actual character span of its root; a hover first calls `animate` once on that span, identified by root and position, with the instance's keyframes and duration, then calls the instance's callback once with the same event; when `animate` throws on a negative duration, the callback is not reached |

## Left out

- The browser primitives `document.createElement`, `innerHTML`, `replaceWith`, `querySelectorAll`, `addEventListener` and `Element.animate` are not called. They are modelled by the tree datatype, by `Select`, by the listener list and by the effect log.
- HTML escaping: text is inserted into `innerHTML` unescaped. Every `<` and `&` is still read back literally: each is wrapped alone and followed at once by `</span>`, and neither `<<` nor `&<` starts a tag or a character reference. `MarkupReadsBack` requires text without `<` only because `StripTags`, the model's own tag remover, cannot tell a literal `<` from a tag.
- Run.RunSpan: the HTML parser's input normalisation is not modelled. Parsing turns CR and CRLF into LF and drops U+0000 from body text, so for text holding `\r` or U+0000 the browser's span differs from `RunSpan`. `RunSpanContent` and `UpdatedText` then state what the model reads back, not what the browser reads back.
- Run.WrapChars: a character is a whole Unicode code point, but `/\S/g` has no `u` flag and matches UTF-16 code units. A character outside the Basic Multilingual Plane (an emoji, say) becomes two character spans and two listeners in the source, one for each half of its surrogate pair, and one span and one listener in the model.
- The parsed structure is modelled only for the markup of a single `innerHTML +=` loop. Serialising the existing children back to markup on every `+=` is not modelled. For plain text this round trip changes nothing.
- `RootSelection`, `UpdatedSelection`, `SpansOfUpdatedRoots` and `ListenedSpans` require that no element already carries the class `animated-string-char`. An element that already carries it would also be selected, and would get a listener.
- Animator.AnimateString.constructor: the roots must be elements, as the documented parameter type `HTMLElement[]` says. A text or comment node given as a root has no `querySelectorAll`, so the source throws a `TypeError` there and leaves the later roots untouched. This throw is not modelled.
- Config: the static keyframes array is taken by value. In the source an instance that falls back on it keeps a reference, so a later change to that array's contents changes what every such instance passes to `animate`. Reassigning a static field affects only instances constructed afterwards, which the model does capture.
- Animator.AnimateString.TransformString and Animator.AnimateString.AddListeners: these are private in the source (`#transformString`) and callable in the model. A caller that uses them directly can break `Valid()`, which the constructor establishes and `Hover` requires.
- Aliasing between roots: each root is an independent value. An element given twice, or one given root nested inside another, is rewritten and wired independently in the model. In the browser, the second pass would see the first pass's spans.
- JavaScript truthiness beyond the cases that occur: a duration is an integer, so NaN, negative zero and fractional durations are not modelled. Keyframes and callbacks are either supplied or absent, and a non-array or non-function value is not modelled. Among the values that `animate` rejects, only a negative duration is modelled, in `Hover`. Malformed keyframes, which would also make `animate` throw, are not modelled.
- The animation timeline: overlapping animations, asynchronous playback and event bubbling to enclosing elements are host behaviour. `Hover` records the `animate` call, not its effect.
- Callback: the callback's own effects are not modelled. A callback is known only by its identity, and the log records that it was called.
- The whitespace class is fixed to the ECMAScript WhiteSpace and LineTerminator code points of current Unicode (space separators included). Later Unicode versions could add space separators.
- Styling: `display: inline-flex` and the class name are opaque strings.
