/**
 * The transformation of one `#text` node (animate-string.js:159-167): the
 * text is trimmed and split on `" "`; in each word every non-whitespace
 * character is wrapped in a character span (the `/\S/g` replacement), the
 * word is wrapped in an inline-flex span followed by one space, and all of
 * it is appended to the `innerHTML` of one new `<span>`.
 *
 * Three views of the result are modelled: the abstract words (`TextRun`),
 * the markup string the loop accumulates (`RunMarkup`), and the element the
 * browser makes of that markup (`RunSpan`).
 */
module Run {
  import opened Text
  import opened Dom

  /** One character of a word: wrapped in a character span, or left as it is. */
  datatype Piece = Wrapped(c: char) | Raw(c: char)

  type Word = seq<Piece>

  /** The class that marks a character span, and that the hover wiring selects. */
  const CharClass: string := "animated-string-char"

  /** `word.replace(/\S/g, ...)`: every non-whitespace character wrapped, whitespace left in place. */
  function WrapChars(w: string): (ps: Word)
    ensures |ps| == |w|
  {
    if w == [] then []
    else [if IsWhitespace(w[0]) then Raw(w[0]) else Wrapped(w[0])] + WrapChars(w[1..])
  }

  /** The word's characters stay in order, and exactly the non-whitespace ones are wrapped. */
  lemma {:induction false} WrapCharsSpec(w: string)
    ensures Chars(WrapChars(w)) == w
    ensures forall i :: 0 <= i < |w| ==> (WrapChars(w)[i].Wrapped? <==> !IsWhitespace(w[i]))
  {
    if w != [] {
      WrapCharsSpec(w[1..]);
      var ps := WrapChars(w);
      assert ps[1..] == WrapChars(w[1..]);
      forall i | 1 <= i < |w|
        ensures ps[i].Wrapped? <==> !IsWhitespace(w[i])
      {
        assert ps[i] == ps[1..][i - 1];
        assert w[i] == w[1..][i - 1];
      }
      assert w == [w[0]] + w[1..];
    }
  }

  /** The characters of a word read in order, markup removed. */
  function Chars(ps: Word): string
  {
    if ps == [] then [] else [ps[0].c] + Chars(ps[1..])
  }

  /** The characters of the wrapped pieces of a word, in order. */
  function WrappedChars(ps: Word): string
  {
    if ps == [] then []
    else (if ps[0].Wrapped? then [ps[0].c] else []) + WrappedChars(ps[1..])
  }

  function WrapWords(parts: seq<string>): (ws: seq<Word>)
    ensures |ws| == |parts|
  {
    if parts == [] then [] else [WrapChars(parts[0])] + WrapWords(parts[1..])
  }

  /** Each word is wrapped on its own, in order. */
  lemma {:induction false} WrapWordsAt(parts: seq<string>, i: nat)
    requires i < |parts|
    ensures WrapWords(parts)[i] == WrapChars(parts[i])
  {
    if i > 0 {
      WrapWordsAt(parts[1..], i - 1);
    }
  }

  /** The words built for one text node, in order. */
  function TextRun(text: string): seq<Word>
  {
    WrapWords(Split(Trim(text), ' '))
  }

  /** One word per space of the trimmed text, plus one. */
  lemma TextRunLength(text: string)
    ensures |TextRun(text)| == Count(Trim(text), ' ') + 1
  {
    SplitSpec(Trim(text), ' ');
  }

  /** The text of a run read back: each word's characters followed by one space. */
  function ReadBack(words: seq<Word>): string
  {
    if words == [] then [] else Chars(words[0]) + " " + ReadBack(words[1..])
  }

  /** The characters of every character span of a run, in order. */
  function RunWrappedChars(words: seq<Word>): string
  {
    if words == [] then [] else WrappedChars(words[0]) + RunWrappedChars(words[1..])
  }

  // ---------------------------------------------------------------------------
  // Properties of the abstract run

  lemma {:induction false} WrappedCharsOfWord(w: string)
    ensures WrappedChars(WrapChars(w)) == NonWhitespace(w)
  {
    if w != [] {
      WrappedCharsOfWord(w[1..]);
    }
  }

  lemma {:induction false} ReadBackJoin(parts: seq<string>)
    requires |parts| >= 1
    ensures ReadBack(WrapWords(parts)) == Join(parts, ' ') + " "
  {
    var ws := WrapWords(parts);
    assert ws[1..] == WrapWords(parts[1..]);
    WrapCharsSpec(parts[0]);
    if |parts| == 1 {
      assert ReadBack(ws[1..]) == [];
    } else {
      ReadBackJoin(parts[1..]);
    }
  }

  lemma {:induction false} WrappedCharsJoin(parts: seq<string>)
    requires |parts| >= 1
    ensures RunWrappedChars(WrapWords(parts)) == NonWhitespace(Join(parts, ' '))
  {
    var ws := WrapWords(parts);
    assert ws[1..] == WrapWords(parts[1..]);
    WrappedCharsOfWord(parts[0]);
    if |parts| == 1 {
      assert RunWrappedChars(ws[1..]) == [];
    } else {
      WrappedCharsJoin(parts[1..]);
      NonWhitespaceAppend(parts[0] + [' '], Join(parts[1..], ' '));
      NonWhitespaceAppend(parts[0], [' ']);
      assert NonWhitespace([' ']) == [];
    }
  }

  /**
   * Reading the characters of the new span in order, markup removed, gives
   * the trimmed text followed by one space: splitting on `" "` and emitting
   * every word followed by `" "` loses nothing but the trimmed whitespace.
   */
  lemma RunReadsBack(text: string)
    ensures ReadBack(TextRun(text)) == Trim(text) + " "
  {
    SplitSpec(Trim(text), ' ');
    ReadBackJoin(Split(Trim(text), ' '));
  }

  /**
   * The character spans of one text node hold exactly its non-whitespace
   * characters, in order; so there are as many as it has non-whitespace characters.
   */
  lemma RunWrapsNonWhitespace(text: string)
    ensures RunWrappedChars(TextRun(text)) == NonWhitespace(text)
    ensures |RunWrappedChars(TextRun(text))| == |NonWhitespace(text)|
  {
    SplitSpec(Trim(text), ' ');
    TrimSpec(text);
    WrappedCharsJoin(Split(Trim(text), ' '));
  }

  /**
   * Inside a word only non-whitespace characters are wrapped; what stays
   * unwrapped is whitespace other than `" "` (tabs, newlines and the like).
   */
  lemma RunPieces(text: string)
    ensures forall i, j :: 0 <= i < |TextRun(text)| && 0 <= j < |TextRun(text)[i]| ==>
      var p := TextRun(text)[i][j];
      (p.Wrapped? ==> !IsWhitespace(p.c)) && (p.Raw? ==> IsWhitespace(p.c) && p.c != ' ')
  {
    var parts := Split(Trim(text), ' ');
    SplitSpec(Trim(text), ' ');
    forall i, j | 0 <= i < |TextRun(text)| && 0 <= j < |TextRun(text)[i]|
      ensures var p := TextRun(text)[i][j];
        (p.Wrapped? ==> !IsWhitespace(p.c)) && (p.Raw? ==> IsWhitespace(p.c) && p.c != ' ')
    {
      var w := parts[i];
      WrapWordsAt(parts, i);
      WrapCharsSpec(w);
      CharsAt(WrapChars(w), j);
      assert w[j] in w;
    }
  }

  lemma {:induction false} CharsAt(ps: Word, j: nat)
    requires j < |ps|
    ensures |Chars(ps)| == |ps| && Chars(ps)[j] == ps[j].c
  {
    if j > 0 {
      CharsAt(ps[1..], j - 1);
    } else {
      CharsLength(ps[1..]);
    }
  }

  lemma {:induction false} CharsLength(ps: Word)
    ensures |Chars(ps)| == |ps|
  {
    if ps != [] {
      CharsLength(ps[1..]);
    }
  }

  /** An empty or whitespace-only text node still yields exactly one, empty, word. */
  lemma BlankTextGivesOneEmptyWord(text: string)
    requires NonWhitespace(text) == []
    ensures TextRun(text) == [[]]
  {
    var t := Trim(text);
    TrimSpec(text);
    if t != [] {
      assert false;
    }
  }

  /** Two consecutive spaces in the trimmed text yield an empty word after the first. */
  lemma ConsecutiveSpacesGiveEmptyWord(text: string, k: nat)
    requires k + 1 < |Trim(text)| && Trim(text)[k] == ' ' && Trim(text)[k + 1] == ' '
    ensures [] in TextRun(text)[1..]
  {
    var parts := Split(Trim(text), ' ');
    AdjacentSeparatorsGiveEmptyPiece(Trim(text), ' ', k);
    var i :| 1 <= i < |parts| && parts[i] == [];
    WrapWordsAt(parts, i);
    assert TextRun(text)[1..][i - 1] == WrapChars([]);
  }

  // ---------------------------------------------------------------------------
  // The markup string

  const CharOpen: string := "<span class='animated-string-char'>"
  const WordOpen: string := "<span style=\"display: inline-flex;\">"
  const SpanClose: string := "</span>"

  function PieceMarkup(p: Piece): string
  {
    match p
    case Wrapped(c) => CharOpen + [c] + SpanClose
    case Raw(c) => [c]
  }

  function PiecesMarkup(ps: Word): string
  {
    if ps == [] then [] else PieceMarkup(ps[0]) + PiecesMarkup(ps[1..])
  }

  /** The markup appended for one word: its span, then one space. */
  function WordMarkup(w: Word): string
  {
    WordOpen + PiecesMarkup(w) + SpanClose + " "
  }

  /** The whole `innerHTML` of the new span. */
  function RunMarkup(words: seq<Word>): string
  {
    if words == [] then [] else WordMarkup(words[0]) + RunMarkup(words[1..])
  }

  /**
   * The character data of a markup string, tags removed: text outside
   * `<`...`>` is kept; `inTag` says whether the string starts inside a tag.
   */
  function StripTags(s: string, inTag: bool): string
  {
    if s == [] then []
    else if inTag then StripTags(s[1..], s[0] != '>')
    else if s[0] == '<' then StripTags(s[1..], true)
    else [s[0]] + StripTags(s[1..], false)
  }

  /** Whether, having read `s` from state `inTag`, the reader is inside a tag. */
  function InTagAfter(s: string, inTag: bool): bool
  {
    if s == [] then inTag
    else if inTag then InTagAfter(s[1..], s[0] != '>')
    else InTagAfter(s[1..], s[0] == '<')
  }

  lemma {:induction false} StripTagsAppend(a: string, b: string, inTag: bool)
    ensures StripTags(a + b, inTag) == StripTags(a, inTag) + StripTags(b, InTagAfter(a, inTag))
  {
    if a == [] {
      assert a + b == b;
    } else {
      assert (a + b)[0] == a[0] && (a + b)[1..] == a[1..] + b;
      StripTagsAppend(a[1..], b, if inTag then a[0] != '>' else a[0] == '<');
    }
  }

  lemma {:induction false} InsideTag(m: string)
    requires forall k :: 0 <= k < |m| ==> m[k] != '>'
    ensures StripTags(m, true) == [] && InTagAfter(m, true)
  {
    if m != [] {
      InsideTag(m[1..]);
    }
  }

  /** A whole tag `<...>` contributes no characters and leaves the reader outside a tag. */
  lemma TagStrips(tag: string)
    requires |tag| >= 2 && tag[0] == '<' && tag[|tag| - 1] == '>'
    requires forall k :: 1 <= k < |tag| - 1 ==> tag[k] != '>'
    ensures StripTags(tag, false) == [] && !InTagAfter(tag, false)
  {
    var m := tag[1..|tag| - 1];
    InsideTag(m);
    assert tag[1..] == m + ">";
    StripTagsAppend(m, ">", true);
    InTagAfterAppend(m, ">", true);
  }

  lemma {:induction false} InTagAfterAppend(a: string, b: string, inTag: bool)
    ensures InTagAfter(a + b, inTag) == InTagAfter(b, InTagAfter(a, inTag))
  {
    if a == [] {
      assert a + b == b;
    } else {
      assert (a + b)[0] == a[0] && (a + b)[1..] == a[1..] + b;
      InTagAfterAppend(a[1..], b, if inTag then a[0] != '>' else a[0] == '<');
    }
  }

  lemma CharOpenStrips()
    ensures StripTags(CharOpen, false) == [] && !InTagAfter(CharOpen, false)
  {
    TagStrips(CharOpen);
  }

  lemma WordOpenStrips()
    ensures StripTags(WordOpen, false) == [] && !InTagAfter(WordOpen, false)
  {
    TagStrips(WordOpen);
  }

  lemma SpanCloseStrips()
    ensures StripTags(SpanClose, false) == [] && !InTagAfter(SpanClose, false)
  {
    TagStrips(SpanClose);
  }

  /** Text without `<`, read outside a tag, is kept whole and stays outside. */
  lemma {:induction false} PlainStrips(u: string)
    requires '<' !in u
    ensures StripTags(u, false) == u && !InTagAfter(u, false)
  {
    if u != [] {
      PlainStrips(u[1..]);
      assert u == [u[0]] + u[1..];
    }
  }

  /** Strip `a + b` outside a tag, given what each part contributes. */
  lemma Concat(a: string, b: string, sa: string, sb: string)
    requires StripTags(a, false) == sa && !InTagAfter(a, false)
    requires StripTags(b, false) == sb && !InTagAfter(b, false)
    ensures StripTags(a + b, false) == sa + sb && !InTagAfter(a + b, false)
  {
    StripTagsAppend(a, b, false);
    InTagAfterAppend(a, b, false);
  }

  lemma {:induction false} PiecesMarkupStrips(ps: Word)
    requires '<' !in Chars(ps)
    ensures StripTags(PiecesMarkup(ps), false) == Chars(ps) && !InTagAfter(PiecesMarkup(ps), false)
  {
    if ps != [] {
      PiecesMarkupStrips(ps[1..]);
      var c := ps[0].c;
      PlainStrips([c]);
      if ps[0].Wrapped? {
        CharOpenStrips();
        SpanCloseStrips();
        Enclosed(CharOpen, [c], SpanClose, [c]);
      }
      Concat(PieceMarkup(ps[0]), PiecesMarkup(ps[1..]), [c], Chars(ps[1..]));
    }
  }

  /** Markup between two tags strips to what the markup alone strips to. */
  lemma Enclosed(open: string, mid: string, close: string, sm: string)
    requires StripTags(open, false) == [] && !InTagAfter(open, false)
    requires StripTags(close, false) == [] && !InTagAfter(close, false)
    requires StripTags(mid, false) == sm && !InTagAfter(mid, false)
    ensures StripTags(open + mid + close, false) == sm && !InTagAfter(open + mid + close, false)
  {
    Concat(open, mid, [], sm);
    Concat(open + mid, close, sm, []);
    assert [] + sm + [] == sm;
  }

  lemma WordMarkupStrips(w: Word)
    requires '<' !in Chars(w)
    ensures StripTags(WordMarkup(w), false) == Chars(w) + " " && !InTagAfter(WordMarkup(w), false)
  {
    PiecesMarkupStrips(w);
    WordOpenStrips();
    SpanCloseStrips();
    PlainStrips(" ");
    Enclosed(WordOpen, PiecesMarkup(w), SpanClose, Chars(w));
    Concat(WordOpen + PiecesMarkup(w) + SpanClose, " ", Chars(w), " ");
  }

  lemma {:induction false} RunMarkupStrips(words: seq<Word>)
    requires '<' !in ReadBack(words)
    ensures StripTags(RunMarkup(words), false) == ReadBack(words) && !InTagAfter(RunMarkup(words), false)
  {
    if words != [] {
      RunMarkupStrips(words[1..]);
      WordMarkupStrips(words[0]);
      Concat(WordMarkup(words[0]), RunMarkup(words[1..]), Chars(words[0]) + " ", ReadBack(words[1..]));
    }
  }

  /**
   * The markup round trip: for text without `<`, removing every tag from the
   * markup built for a text node leaves exactly the trimmed text and one space.
   */
  lemma MarkupReadsBack(text: string)
    requires '<' !in text
    ensures StripTags(RunMarkup(TextRun(text)), false) == Trim(text) + " "
  {
    RunReadsBack(text);
    TrimKeepsOnly(text, '<');
    RunMarkupStrips(TextRun(text));
  }

  // ---------------------------------------------------------------------------
  // The element the browser builds from the markup

  /** The character span around `c`. */
  function CharElement(c: char): Node
  {
    Element("span", {CharClass}, [Text([c])])
  }

  function CharElements(s: string): (r: seq<Node>)
    ensures |r| == |s|
    ensures forall i :: 0 <= i < |s| ==> r[i] == CharElement(s[i])
  {
    if s == [] then [] else [CharElement(s[0])] + CharElements(s[1..])
  }

  /**
   * The child nodes of a word span: a character span per wrapped piece, and
   * one text node per maximal stretch of unwrapped characters.
   */
  function PieceNodes(ps: Word): seq<Node>
  {
    if ps == [] then []
    else if ps[0].Wrapped? then [CharElement(ps[0].c)] + PieceNodes(ps[1..])
    else
      var rest := PieceNodes(ps[1..]);
      if rest != [] && rest[0].Text? then [Text([ps[0].c] + rest[0].data)] + rest[1..]
      else [Text([ps[0].c])] + rest
  }

  /** The nodes made of one word's markup: the word span and the space after it. */
  function WordNodes(w: Word): seq<Node>
  {
    [Element("span", {}, PieceNodes(w)), Text(" ")]
  }

  function RunNodes(words: seq<Word>): seq<Node>
  {
    if words == [] then [] else WordNodes(words[0]) + RunNodes(words[1..])
  }

  /** The `<span>` that replaces the text node `text`. */
  function RunSpan(text: string): Node
  {
    Element("span", {}, RunNodes(TextRun(text)))
  }

  lemma {:induction false} PieceNodesContent(ps: Word)
    ensures TextContent(PieceNodes(ps)) == Chars(ps)
    ensures Select(PieceNodes(ps), CharClass) == CharElements(WrappedChars(ps))
  {
    if ps != [] {
      PieceNodesContent(ps[1..]);
      if ps[0].Wrapped? {
        WrappedPieceNodes(ps);
      } else {
        RawPieceNodes(ps);
      }
    }
  }

  lemma WrappedPieceNodes(ps: Word)
    requires ps != [] && ps[0].Wrapped?
    requires TextContent(PieceNodes(ps[1..])) == Chars(ps[1..])
    requires Select(PieceNodes(ps[1..]), CharClass) == CharElements(WrappedChars(ps[1..]))
    ensures TextContent(PieceNodes(ps)) == Chars(ps)
    ensures Select(PieceNodes(ps), CharClass) == CharElements(WrappedChars(ps))
  {
    var c := ps[0].c;
    var rest := PieceNodes(ps[1..]);
    var e := CharElement(c);
    Single(Text([c]), CharClass);
    Single(e, CharClass);
    TextContentAppend([e], rest);
    SelectAppend([e], rest, CharClass);
  }

  lemma RawPieceNodes(ps: Word)
    requires ps != [] && ps[0].Raw?
    requires TextContent(PieceNodes(ps[1..])) == Chars(ps[1..])
    requires Select(PieceNodes(ps[1..]), CharClass) == CharElements(WrappedChars(ps[1..]))
    ensures TextContent(PieceNodes(ps)) == Chars(ps)
    ensures Select(PieceNodes(ps), CharClass) == CharElements(WrappedChars(ps))
  {
    var c := ps[0].c;
    var rest := PieceNodes(ps[1..]);
    if rest != [] && rest[0].Text? {
      MergedText(c, rest);
    } else {
      PrependText(c, rest);
    }
  }

  /** A raw character merged into the text node that follows it. */
  lemma MergedText(c: char, rest: seq<Node>)
    requires rest != [] && rest[0].Text?
    ensures TextContent([Text([c] + rest[0].data)] + rest[1..]) == [c] + TextContent(rest)
    ensures Select([Text([c] + rest[0].data)] + rest[1..], CharClass) == Select(rest, CharClass)
  {
    var x, t := rest[0], rest[1..];
    assert rest == [x] + t;
    MergedTextContent(c, x.data, t);
    MergedTextSelect(c, x.data, t);
  }

  lemma MergedTextContent(c: char, d: string, t: seq<Node>)
    ensures TextContent([Text([c] + d)] + t) == [c] + TextContent([Text(d)] + t)
  {
    Cons(Text(d), t, CharClass);
    Cons(Text([c] + d), t, CharClass);
  }

  lemma MergedTextSelect(c: char, d: string, t: seq<Node>)
    ensures Select([Text([c] + d)] + t, CharClass) == Select([Text(d)] + t, CharClass)
  {
    Cons(Text(d), t, CharClass);
    Cons(Text([c] + d), t, CharClass);
  }

  /** A raw character as a text node of its own. */
  lemma PrependText(c: char, rest: seq<Node>)
    ensures TextContent([Text([c])] + rest) == [c] + TextContent(rest)
    ensures Select([Text([c])] + rest, CharClass) == Select(rest, CharClass)
  {
    Cons(Text([c]), rest, CharClass);
  }

  /** The word span and the space after it read as the word's characters and a space. */
  lemma WordNodesContent(w: Word)
    ensures TextContent(WordNodes(w)) == Chars(w) + " "
    ensures Select(WordNodes(w), CharClass) == CharElements(WrappedChars(w))
  {
    PieceNodesContent(w);
    Cons(Element("span", {}, PieceNodes(w)), [Text(" ")], CharClass);
    Single(Text(" "), CharClass);
  }

  lemma {:induction false} RunNodesContent(words: seq<Word>)
    ensures TextContent(RunNodes(words)) == ReadBack(words)
    ensures Select(RunNodes(words), CharClass) == CharElements(RunWrappedChars(words))
  {
    if words != [] {
      var w := words[0];
      RunNodesContent(words[1..]);
      WordNodesContent(w);
      TextContentAppend(WordNodes(w), RunNodes(words[1..]));
      SelectAppend(WordNodes(w), RunNodes(words[1..]), CharClass);
      CharElementsAppend(WrappedChars(w), RunWrappedChars(words[1..]));
    }
  }

  lemma {:induction false} CharElementsAppend(a: string, b: string)
    ensures CharElements(a + b) == CharElements(a) + CharElements(b)
  {
    if a == [] {
      assert a + b == b;
    } else {
      assert (a + b)[1..] == a[1..] + b;
      CharElementsAppend(a[1..], b);
    }
  }

  /**
   * The new span reads as the trimmed text plus one space, and its character
   * spans are one per non-whitespace character of the text, in order.
   */
  lemma RunSpanContent(text: string)
    ensures NodeText(RunSpan(text)) == Trim(text) + " "
    ensures SelectIn(RunSpan(text), CharClass) == CharElements(NonWhitespace(text))
  {
    RunNodesContent(TextRun(text));
    RunReadsBack(text);
    RunWrapsNonWhitespace(text);
  }

  // ---------------------------------------------------------------------------
  // The loop that builds the new span

  /**
   * The per-word loop of animate-string.js:159-167: for each piece of the
   * trimmed text split on `" "`, wrap its characters and append the word's
   * markup to the new span's `innerHTML`; the span's child nodes grow with it.
   */
  method BuildRun(text: string) returns (span: Node, html: string)
    ensures html == RunMarkup(TextRun(text))
    ensures span == RunSpan(text)
  {
    var parts := Split(Trim(text), ' ');
    ghost var words := WrapWords(parts);
    html := [];
    var kids: seq<Node> := [];
    var i := 0;
    while i < |parts|
      invariant 0 <= i <= |parts|
      invariant html == RunMarkup(words[..i])
      invariant kids == RunNodes(words[..i])
    {
      var wordStr := WrapChars(parts[i]);
      WrapWordsAt(parts, i);
      RunSnoc(words, i);
      html := html + WordMarkup(wordStr);
      kids := kids + WordNodes(wordStr);
      i := i + 1;
    }
    assert words[..i] == words;
    span := Element("span", {}, kids);
  }

  lemma RunSnoc(words: seq<Word>, i: nat)
    requires i < |words|
    ensures RunMarkup(words[..i + 1]) == RunMarkup(words[..i]) + WordMarkup(words[i])
    ensures RunNodes(words[..i + 1]) == RunNodes(words[..i]) + WordNodes(words[i])
  {
    var w := words[i];
    assert words[..i + 1] == words[..i] + [w];
    RunMarkupAppend(words[..i], [w]);
    RunNodesAppend(words[..i], [w]);
    assert [w][1..] == [];
  }

  lemma {:induction false} RunMarkupAppend(a: seq<Word>, b: seq<Word>)
    ensures RunMarkup(a + b) == RunMarkup(a) + RunMarkup(b)
  {
    if a == [] {
      assert a + b == b;
    } else {
      assert (a + b)[0] == a[0];
      assert (a + b)[1..] == a[1..] + b;
      RunMarkupAppend(a[1..], b);
    }
  }

  lemma {:induction false} RunNodesAppend(a: seq<Word>, b: seq<Word>)
    ensures RunNodes(a + b) == RunNodes(a) + RunNodes(b)
  {
    if a == [] {
      assert a + b == b;
    } else {
      assert (a + b)[0] == a[0];
      assert (a + b)[1..] == a[1..] + b;
      RunNodesAppend(a[1..], b);
    }
  }
}
