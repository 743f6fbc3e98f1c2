/**
 * The string operations the text-run transformation relies on: the
 * ECMAScript whitespace class (shared by `String.prototype.trim` and the
 * regular-expression class `\s`), `trim`, and `split` on a single character
 * with its inverse `join`.
 */
module Text {

  /**
   * ECMAScript WhiteSpace and LineTerminator code points: tab, vertical tab,
   * form feed, space, no-break space, byte-order mark, the space separators
   * (Zs) and the four line terminators.
   */
  predicate IsWhitespace(c: char)
  {
    || c == '\t' || c == '\n' || c == '\U{000B}' || c == '\U{000C}' || c == '\r'
    || c == ' ' || c == '\U{00A0}' || c == '\U{1680}'
    || ('\U{2000}' <= c <= '\U{200A}')
    || c == '\U{2028}' || c == '\U{2029}' || c == '\U{202F}' || c == '\U{205F}'
    || c == '\U{3000}' || c == '\U{FEFF}'
  }

  /** The non-whitespace characters of `s`, in order (what `\S` matches). */
  function NonWhitespace(s: string): (r: string)
    ensures |r| <= |s|
    ensures forall i :: 0 <= i < |r| ==> !IsWhitespace(r[i])
  {
    if s == [] then []
    else (if IsWhitespace(s[0]) then [] else [s[0]]) + NonWhitespace(s[1..])
  }

  /** Number of occurrences of `c` in `s`. */
  function Count(s: string, c: char): nat
  {
    if s == [] then 0 else (if s[0] == c then 1 else 0) + Count(s[1..], c)
  }

  /** `s` without its leading whitespace. */
  function TrimStart(s: string): (r: string)
    ensures |r| <= |s|
  {
    if s != [] && IsWhitespace(s[0]) then TrimStart(s[1..]) else s
  }

  /** `TrimStart` keeps the longest suffix that does not start with whitespace. */
  lemma {:induction false} TrimStartSpec(s: string)
    ensures TrimStart(s) == s[|s| - |TrimStart(s)|..]
    ensures TrimStart(s) == [] || !IsWhitespace(TrimStart(s)[0])
    ensures forall k :: 0 <= k < |s| - |TrimStart(s)| ==> IsWhitespace(s[k])
  {
    if s != [] && IsWhitespace(s[0]) {
      TrimStartSpec(s[1..]);
      assert s[1..][|s[1..]| - |TrimStart(s)|..] == s[|s| - |TrimStart(s)|..];
      forall k | 1 <= k < |s| - |TrimStart(s)|
        ensures IsWhitespace(s[k])
      {
        assert s[1..][k - 1] == s[k];
      }
    }
  }

  /** `s` without its trailing whitespace. */
  function TrimEnd(s: string): (r: string)
    ensures |r| <= |s|
  {
    if s != [] && IsWhitespace(s[|s| - 1]) then TrimEnd(s[..|s| - 1]) else s
  }

  /** `TrimEnd` keeps the longest prefix that does not end with whitespace. */
  lemma {:induction false} TrimEndSpec(s: string)
    ensures TrimEnd(s) == s[..|TrimEnd(s)|]
    ensures TrimEnd(s) == [] || !IsWhitespace(TrimEnd(s)[|TrimEnd(s)| - 1])
    ensures forall k :: |TrimEnd(s)| <= k < |s| ==> IsWhitespace(s[k])
  {
    if s != [] && IsWhitespace(s[|s| - 1]) {
      var p := s[..|s| - 1];
      TrimEndSpec(p);
      assert p[..|TrimEnd(s)|] == s[..|TrimEnd(s)|];
      forall k | |TrimEnd(s)| <= k < |s| - 1
        ensures IsWhitespace(s[k])
      {
        assert p[k] == s[k];
      }
    }
  }

  /** `String.prototype.trim`: whitespace removed from both ends. */
  function Trim(s: string): (r: string)
    ensures |r| <= |s|
  {
    TrimEnd(TrimStart(s))
  }

  /** `trim()` leaves no whitespace at either end and touches nothing else. */
  lemma TrimSpec(s: string)
    ensures Trim(s) == [] || (!IsWhitespace(Trim(s)[0]) && !IsWhitespace(Trim(s)[|Trim(s)| - 1]))
    ensures NonWhitespace(Trim(s)) == NonWhitespace(s)
  {
    var t := TrimStart(s);
    var r := TrimEnd(t);
    TrimStartSpec(s);
    TrimEndSpec(t);
    NonWhitespaceOfBlankPrefix(s, |s| - |t|);
    NonWhitespaceOfBlankSuffix(t, |r|);
    if r != [] {
      assert r[0] == t[0];
    }
  }

  /** Trimming adds no character. */
  lemma TrimKeepsOnly(s: string, c: char)
    ensures c in Trim(s) ==> c in s
  {
    var t := TrimStart(s);
    var r := Trim(s);
    TrimStartSpec(s);
    TrimEndSpec(t);
    if c in r {
      var k :| 0 <= k < |r| && r[k] == c;
      assert t[k] == c;
      assert s[|s| - |t| + k] == c;
    }
  }

  lemma {:induction false} NonWhitespaceAppend(a: string, b: string)
    ensures NonWhitespace(a + b) == NonWhitespace(a) + NonWhitespace(b)
  {
    if a == [] {
      assert a + b == b;
    } else {
      assert (a + b)[1..] == a[1..] + b;
      NonWhitespaceAppend(a[1..], b);
    }
  }

  lemma {:induction false} NonWhitespaceOfBlank(s: string)
    requires forall k :: 0 <= k < |s| ==> IsWhitespace(s[k])
    ensures NonWhitespace(s) == []
  {
    if s != [] {
      NonWhitespaceOfBlank(s[1..]);
    }
  }

  /** Dropping a blank prefix keeps the non-whitespace characters. */
  lemma NonWhitespaceOfBlankPrefix(s: string, n: nat)
    requires n <= |s|
    requires forall k :: 0 <= k < n ==> IsWhitespace(s[k])
    ensures NonWhitespace(s[n..]) == NonWhitespace(s)
  {
    assert s == s[..n] + s[n..];
    var blank := s[..n];
    forall k | 0 <= k < |blank|
      ensures IsWhitespace(blank[k])
    {
      assert blank[k] == s[k];
    }
    NonWhitespaceAppend(s[..n], s[n..]);
    NonWhitespaceOfBlank(blank);
  }

  /** Dropping a blank suffix keeps the non-whitespace characters. */
  lemma {:induction false} NonWhitespaceOfBlankSuffix(s: string, n: nat)
    requires n <= |s|
    requires forall k :: n <= k < |s| ==> IsWhitespace(s[k])
    ensures NonWhitespace(s[..n]) == NonWhitespace(s)
  {
    if n == 0 {
      NonWhitespaceOfBlank(s);
      assert s[..0] == [];
    } else {
      var t := s[1..];
      forall k | n - 1 <= k < |t|
        ensures IsWhitespace(t[k])
      {
        assert t[k] == s[k + 1];
      }
      NonWhitespaceOfBlankSuffix(t, n - 1);
      assert s[..n][1..] == t[..n - 1];
    }
  }

  /** The inverse of `Split`: the parts with one `sep` between neighbours. */
  function Join(parts: seq<string>, sep: char): string
    requires |parts| >= 1
  {
    if |parts| == 1 then parts[0] else parts[0] + [sep] + Join(parts[1..], sep)
  }

  /**
   * `s.split(sep)` for a one-character separator: the maximal `sep`-free
   * pieces between separators. Empty pieces are kept, so the empty string
   * gives one empty piece and adjacent separators give an empty piece between them.
   */
  function Split(s: string, sep: char): (parts: seq<string>)
    ensures |parts| >= 1
  {
    if s == [] then [[]]
    else
      var rest := Split(s[1..], sep);
      if s[0] == sep then [[]] + rest
      else [[s[0]] + rest[0]] + rest[1..]
  }

  /**
   * `split` gives one more piece than there are separators, no piece holds
   * a separator, and joining the pieces gives the string back.
   */
  lemma {:induction false} SplitSpec(s: string, sep: char)
    ensures |Split(s, sep)| == Count(s, sep) + 1
    ensures forall i :: 0 <= i < |Split(s, sep)| ==> sep !in Split(s, sep)[i]
    ensures Join(Split(s, sep), sep) == s
  {
    if s != [] {
      var rest := Split(s[1..], sep);
      SplitSpec(s[1..], sep);
      var parts := Split(s, sep);
      assert s == [s[0]] + s[1..];
      if s[0] == sep {
        assert parts == [[]] + rest;
        assert parts[1..] == rest;
      } else {
        assert parts == [[s[0]] + rest[0]] + rest[1..];
        assert parts[1..] == rest[1..];
        assert sep !in rest[0];
        if |rest| > 1 {
          assert rest == [rest[0]] + rest[1..];
        }
      }
    }
  }

  /** Splitting a joined list of separator-free parts gives those parts back. */
  lemma {:induction false} SplitJoin(parts: seq<string>, sep: char)
    requires |parts| >= 1
    requires forall i :: 0 <= i < |parts| ==> sep !in parts[i]
    ensures Split(Join(parts, sep), sep) == parts
  {
    if |parts| == 1 {
      SplitSepFree(parts[0], [], sep);
      assert parts[0] + [] == parts[0];
    } else {
      SplitJoin(parts[1..], sep);
      SplitSepFree(parts[0], [sep] + Join(parts[1..], sep), sep);
      assert parts[0] + ([sep] + Join(parts[1..], sep)) == Join(parts, sep);
      var x := [sep] + Join(parts[1..], sep);
      assert Split(x, sep) == [[]] + parts[1..] by {
        assert x[1..] == Join(parts[1..], sep);
      }
      assert Split(x, sep)[0] == [] && Split(x, sep)[1..] == parts[1..];
      assert parts[0] + [] == parts[0];
      assert parts == [parts[0]] + parts[1..];
    }
  }

  /** A separator-free prefix becomes the head of the first piece. */
  lemma {:induction false} SplitSepFree(a: string, b: string, sep: char)
    requires sep !in a
    ensures Split(a + b, sep) == [a + Split(b, sep)[0]] + Split(b, sep)[1..]
  {
    if a != [] {
      assert (a + b)[1..] == a[1..] + b;
      SplitSepFree(a[1..], b, sep);
      assert a + Split(b, sep)[0] == [a[0]] + (a[1..] + Split(b, sep)[0]);
    } else {
      var r := Split(b, sep);
      assert a + b == b;
      assert a + r[0] == r[0];
      assert r == [r[0]] + r[1..];
    }
  }

  /** Two adjacent separators produce an empty piece (never the first one). */
  lemma {:induction false} AdjacentSeparatorsGiveEmptyPiece(s: string, sep: char, k: nat)
    requires k + 1 < |s| && s[k] == sep && s[k + 1] == sep
    ensures [] in Split(s, sep)[1..]
  {
    var rest := Split(s[1..], sep);
    if k == 0 {
      assert s[1..][0] == sep;
      assert rest[0] == [];
      assert Split(s, sep)[1..] == rest;
    } else {
      AdjacentSeparatorsGiveEmptyPiece(s[1..], sep, k - 1);
      var i :| 1 <= i < |rest| && rest[i] == [];
      if s[0] == sep {
        assert Split(s, sep)[1..][i] == rest[i];
      } else {
        assert Split(s, sep)[1..][i - 1] == rest[i];
      }
    }
  }
}
