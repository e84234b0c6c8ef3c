/**
 * Word counting as the conversation trimming does it: `len(content.split())`,
 * where `str.split()` with no argument cuts a string into its maximal runs of
 * non-whitespace characters.
 */
module Words {
  import opened Seqs

  /** Python's `str.isspace()` on one character: the ASCII controls TAB to CR,
      the information separators 0x1C to 0x1F, SPACE, NEL, NO-BREAK SPACE and
      the Unicode space and line/paragraph separators. */
  predicate IsSpace(c: char)
  {
    || ('\t' <= c <= '\r')
    || ('\U{1C}' <= c <= '\U{1F}')
    || c == ' '
    || c == '\U{85}'
    || c == '\U{A0}'
    || c == '\U{1680}'
    || ('\U{2000}' <= c <= '\U{200A}')
    || c == '\U{2028}'
    || c == '\U{2029}'
    || c == '\U{202F}'
    || c == '\U{205F}'
    || c == '\U{3000}'
  }

  predicate IsWordChar(c: char)
  {
    !IsSpace(c)
  }

  /** Python's `s.split()`: skip whitespace, take the longest run of
      non-whitespace as one word, repeat. */
  function SplitWhitespace(s: string): seq<string>
    decreases |s|
  {
    if |s| == 0 then []
    else if IsSpace(s[0]) then SplitWhitespace(s[1..])
    else
      var n := RunLength(s, IsWordChar);
      [s[..n]] + SplitWhitespace(s[n..])
  }

  /** `len(s.split())`: the approximate token cost of one message. */
  function WordCount(s: string): nat
  {
    |SplitWhitespace(s)|
  }

  /** The characters of s that are not whitespace, in order. */
  function NonSpace(s: string): string
    decreases |s|
  {
    if |s| == 0 then []
    else (if IsSpace(s[0]) then [] else [s[0]]) + NonSpace(s[1..])
  }

  lemma {:induction false} NonSpaceOfWordPrefix(s: string, n: nat)
    requires n <= |s|
    requires forall i :: 0 <= i < n ==> IsWordChar(s[i])
    ensures NonSpace(s) == s[..n] + NonSpace(s[n..])
    decreases n
  {
    if n > 0 {
      NonSpaceOfWordPrefix(s[1..], n - 1);
      assert s[1..][n - 1..] == s[n..];
      assert s[..n] == [s[0]] + s[1..][..n - 1];
    }
  }

  /** Every word is non-empty and free of whitespace, and the words put back
      together are exactly the non-whitespace characters of s. */
  lemma {:induction false} SplitWhitespaceWords(s: string)
    ensures forall k :: 0 <= k < |SplitWhitespace(s)| ==> |SplitWhitespace(s)[k]| > 0
    ensures forall k, i :: 0 <= k < |SplitWhitespace(s)| && 0 <= i < |SplitWhitespace(s)[k]| ==>
              !IsSpace(SplitWhitespace(s)[k][i])
    ensures Concat(SplitWhitespace(s)) == NonSpace(s)
    decreases |s|
  {
    if |s| > 0 {
      if IsSpace(s[0]) {
        SplitWhitespaceWords(s[1..]);
      } else {
        var n := RunLength(s, IsWordChar);
        var rest := SplitWhitespace(s[n..]);
        SplitWhitespaceWords(s[n..]);
        assert SplitWhitespace(s) == [s[..n]] + rest;
        assert SplitWhitespace(s)[1..] == rest;
        NonSpaceOfWordPrefix(s, n);
      }
    }
  }

  /** An independent count of words: the positions holding a non-whitespace
      character whose predecessor is whitespace (or which come first, when
      afterSpace holds). */
  function WordStarts(s: string, afterSpace: bool): nat
    decreases |s|
  {
    if |s| == 0 then 0
    else (if afterSpace && !IsSpace(s[0]) then 1 else 0) + WordStarts(s[1..], IsSpace(s[0]))
  }

  lemma {:induction false} WordStartsSkipRun(t: string)
    ensures WordStarts(t, false) == WordStarts(t[RunLength(t, IsWordChar)..], false)
    decreases |t|
  {
    if |t| > 0 && IsWordChar(t[0]) {
      WordStartsSkipRun(t[1..]);
      assert t[1..][RunLength(t[1..], IsWordChar)..] == t[RunLength(t, IsWordChar)..];
    }
  }

  /** The number of words `str.split()` finds is the number of word starts. */
  lemma {:induction false} WordCountIsWordStarts(s: string)
    ensures WordCount(s) == WordStarts(s, true)
    decreases |s|
  {
    if |s| > 0 {
      if IsSpace(s[0]) {
        WordCountIsWordStarts(s[1..]);
      } else {
        var n := RunLength(s, IsWordChar);
        var u := s[n..];
        WordCountIsWordStarts(u);
        assert SplitWhitespace(s) == [s[..n]] + SplitWhitespace(u);
        WordStartsSkipRun(s[1..]);
        assert s[1..][RunLength(s[1..], IsWordChar)..] == u;
        assert WordStarts(u, false) == WordStarts(u, true);
      }
    }
  }

  lemma {:induction false} RunOfWord(w: string, rest: string)
    requires forall i :: 0 <= i < |w| ==> IsWordChar(w[i])
    requires rest == [] || IsSpace(rest[0])
    ensures RunLength(w + rest, IsWordChar) == |w|
    decreases |w|
  {
    if |w| == 0 {
      assert w + rest == rest;
    } else {
      assert (w + rest)[1..] == w[1..] + rest;
      RunOfWord(w[1..], rest);
    }
  }

  /** Splitting words joined by single spaces gives the words back, when each
      is non-empty and free of whitespace; in particular there are |words|
      of them. */
  lemma {:induction false} SplitWhitespaceJoin(words: seq<string>)
    requires forall k :: 0 <= k < |words| ==> |words[k]| > 0
    requires forall k, i :: 0 <= k < |words| && 0 <= i < |words[k]| ==> IsWordChar(words[k][i])
    ensures SplitWhitespace(Join(words, " ")) == words
    ensures WordCount(Join(words, " ")) == |words|
    decreases |words|
  {
    if |words| == 1 {
      var w := words[0];
      RunOfWord(w, []);
      assert w + [] == w;
      assert w[..|w|] == w && w[|w|..] == [];
    } else if |words| > 1 {
      var w := words[0];
      var tail := Join(words[1..], " ");
      var s := w + (" " + tail);
      assert Join(words, " ") == s;
      RunOfWord(w, " " + tail);
      assert s[..|w|] == w;
      assert s[|w|..] == " " + tail;
      assert (" " + tail)[1..] == tail;
      SplitWhitespaceJoin(words[1..]);
      assert words == [w] + words[1..];
    }
  }
}
