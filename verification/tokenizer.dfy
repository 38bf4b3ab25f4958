/** Splitting extracted page text into display words, as Rust's
    `str::split_whitespace` does, and joining a chunk of words back into the
    single line of text that is shown. */
module Tokenizer {

  /** The Unicode `White_Space` property, which is what `split_whitespace`
      splits on: tab, line feed, vertical tab, form feed, carriage return,
      space, next line, no-break space, ogham space mark, the en quad to hair
      space block, line and paragraph separators, narrow no-break space,
      medium mathematical space and ideographic space. */
  predicate IsWhitespace(c: char) {
    var n := c as int;
    || (0x09 <= n <= 0x0D)
    || n == 0x20
    || n == 0x85
    || n == 0xA0
    || n == 0x1680
    || (0x2000 <= n <= 0x200A)
    || n == 0x2028
    || n == 0x2029
    || n == 0x202F
    || n == 0x205F
    || n == 0x3000
  }

  /** A display word: non-empty and free of whitespace. */
  predicate IsWord(w: string) {
    |w| > 0 && forall i :: 0 <= i < |w| ==> !IsWhitespace(w[i])
  }

  predicate AllWords(ws: seq<string>) {
    forall i :: 0 <= i < |ws| ==> IsWord(ws[i])
  }

  /** The length of the longest whitespace-free prefix of `s`. */
  function WordLength(s: string): (n: nat)
    ensures n <= |s|
    ensures forall i :: 0 <= i < n ==> !IsWhitespace(s[i])
    ensures n < |s| ==> IsWhitespace(s[n])
  {
    if s == [] || IsWhitespace(s[0]) then 0 else 1 + WordLength(s[1..])
  }

  /** The maximal whitespace-free runs of `text`, left to right. */
  function SplitWhitespace(text: string): (words: seq<string>)
    ensures AllWords(words)
    decreases |text|
  {
    if text == [] then []
    else if IsWhitespace(text[0]) then SplitWhitespace(text[1..])
    else
      var n := WordLength(text);
      [text[..n]] + SplitWhitespace(text[n..])
  }

  /** `[String]::join(" ")`: the words separated by single spaces. The text
      starts with the first word, followed by a space when more words come. */
  function JoinWords(ws: seq<string>): (text: string)
    ensures |ws| > 0 ==> |ws[0]| <= |text| && text[..|ws[0]|] == ws[0]
    ensures |ws| > 1 ==> |ws[0]| < |text| && text[|ws[0]|] == ' '
  {
    if |ws| == 0 then ""
    else if |ws| == 1 then ws[0]
    else ws[0] + " " + JoinWords(ws[1..])
  }

  /** Joining display words adds only whitespace: the joined text's
      non-whitespace characters are the words' characters, in order. */
  lemma {:induction false} JoinKeepsWords(ws: seq<string>)
    requires AllWords(ws)
    ensures NonWhitespace(JoinWords(ws)) == Concat(ws)
    decreases |ws|
  {
    if |ws| == 1 {
      NonWhitespaceOfWord(ws[0]);
      assert Concat(ws[1..]) == [];
    } else if |ws| > 1 {
      var rest := JoinWords(ws[1..]);
      JoinKeepsWords(ws[1..]);
      assert JoinWords(ws) == (ws[0] + " ") + rest;
      NonWhitespaceAppend(ws[0] + " ", rest);
      NonWhitespaceAppend(ws[0], " ");
      assert NonWhitespace(" ") == [];
      NonWhitespaceOfWord(ws[0]);
    }
  }

  /** The joined text is one character longer than the words for every gap
      between two words: one separator per gap, nothing at either end. */
  lemma {:induction false} JoinLength(ws: seq<string>)
    requires |ws| > 0
    ensures |JoinWords(ws)| == |Concat(ws)| + |ws| - 1
    decreases |ws|
  {
    if |ws| == 1 {
      assert Concat(ws[1..]) == [];
    } else {
      JoinLength(ws[1..]);
    }
  }

  /** The only whitespace in the text joined from display words is the
      plain space put between them. */
  lemma {:induction false} JoinOnlySpaces(ws: seq<string>)
    requires AllWords(ws)
    ensures forall i :: 0 <= i < |JoinWords(ws)| && IsWhitespace(JoinWords(ws)[i]) ==> JoinWords(ws)[i] == ' '
    decreases |ws|
  {
    var text := JoinWords(ws);
    if |ws| == 1 {
      assert text == ws[0];
      assert IsWord(ws[0]);
    } else if |ws| > 1 {
      var rest := JoinWords(ws[1..]);
      JoinOnlySpaces(ws[1..]);
      assert IsWord(ws[0]);
      assert text == ws[0] + " " + rest;
      forall i | 0 <= i < |text| && IsWhitespace(text[i]) ensures text[i] == ' ' {
        if i > |ws[0]| {
          assert text[i] == rest[i - |ws[0]| - 1];
        }
      }
    }
  }

  /** The characters of `s` that are not whitespace, in order. */
  function NonWhitespace(s: string): string {
    if s == [] then []
    else (if IsWhitespace(s[0]) then [] else [s[0]]) + NonWhitespace(s[1..])
  }

  /** All the words of a list written one after another. */
  function Concat(ws: seq<string>): string {
    if ws == [] then [] else ws[0] + Concat(ws[1..])
  }

  lemma {:induction false} NonWhitespaceAppend(a: string, b: string)
    ensures NonWhitespace(a + b) == NonWhitespace(a) + NonWhitespace(b)
    decreases |a|
  {
    if a == [] {
      assert a + b == b;
    } else {
      assert (a + b)[0] == a[0];
      assert (a + b)[1..] == a[1..] + b;
      NonWhitespaceAppend(a[1..], b);
    }
  }

  lemma {:induction false} NonWhitespaceOfWord(w: string)
    requires forall i :: 0 <= i < |w| ==> !IsWhitespace(w[i])
    ensures NonWhitespace(w) == w
    decreases |w|
  {
    if w != [] {
      NonWhitespaceOfWord(w[1..]);
      assert w == [w[0]] + w[1..];
    }
  }

  /** Splitting loses nothing but whitespace and keeps the left-to-right order
      of the characters: the words written end to end are exactly the
      non-whitespace characters of the text. */
  lemma {:induction false} SplitKeepsOrder(text: string)
    ensures Concat(SplitWhitespace(text)) == NonWhitespace(text)
    decreases |text|
  {
    if text == [] {
    } else if IsWhitespace(text[0]) {
      SplitKeepsOrder(text[1..]);
    } else {
      var n := WordLength(text);
      var rest := SplitWhitespace(text[n..]);
      SplitKeepsOrder(text[n..]);
      assert ([text[..n]] + rest)[1..] == rest;
      assert text == text[..n] + text[n..];
      NonWhitespaceAppend(text[..n], text[n..]);
      NonWhitespaceOfWord(text[..n]);
    }
  }

  /** A text yields no words exactly when it is empty or all whitespace. */
  lemma {:induction false} SplitEmptyIff(text: string)
    ensures SplitWhitespace(text) == [] <==> forall i :: 0 <= i < |text| ==> IsWhitespace(text[i])
  {
    var ws := SplitWhitespace(text);
    SplitKeepsOrder(text);
    NonWhitespaceEmptyIff(text);
    if ws != [] {
      assert Concat(ws) == ws[0] + Concat(ws[1..]);
      assert |ws[0]| > 0;
    }
  }

  lemma {:induction false} NonWhitespaceEmptyIff(s: string)
    ensures NonWhitespace(s) == [] <==> forall i :: 0 <= i < |s| ==> IsWhitespace(s[i])
    decreases |s|
  {
    if s != [] {
      NonWhitespaceEmptyIff(s[1..]);
      if forall i :: 0 <= i < |s| ==> IsWhitespace(s[i]) {
        assert forall i :: 0 <= i < |s[1..]| ==> IsWhitespace(s[1..][i]) by {
          forall i | 0 <= i < |s[1..]| ensures IsWhitespace(s[1..][i]) {
            assert s[1..][i] == s[i + 1];
          }
        }
      } else {
        var j :| 0 <= j < |s| && !IsWhitespace(s[j]);
        if j > 0 {
          assert s[1..][j - 1] == s[j];
        }
      }
    }
  }

  /** A word followed by whitespace (or by nothing) splits into that word
      followed by the words of the remainder. */
  lemma SplitWordThen(w: string, t: string)
    requires IsWord(w)
    requires t == [] || IsWhitespace(t[0])
    ensures SplitWhitespace(w + t) == [w] + SplitWhitespace(t)
  {
    var s := w + t;
    assert s[0] == w[0];
    var n := WordLength(s);
    assert forall i :: 0 <= i < |w| ==> s[i] == w[i];
    assert |w| < |s| ==> s[|w|] == t[0];
    assert s[..n] == w;
    assert s[n..] == t;
  }

  /** Where the first whitespace-free run of `a` ends inside `a`, or `a`
      is followed by whitespace, appending to `a` does not change that run. */
  lemma WordLengthExtend(a: string, t: string)
    requires WordLength(a) < |a| || (t != [] && IsWhitespace(t[0]))
    ensures WordLength(a + t) == WordLength(a)
  {
    var s := a + t;
    var n := WordLength(a);
    assert forall i :: 0 <= i < |a| ==> s[i] == a[i];
    assert n == |a| ==> s[n] == t[0];
  }

  /** Words break at whitespace: splitting a text at any whitespace character
      gives the words before it followed by the words after it, so no word
      spans a whitespace character. That a whitespace-free run stays one whole
      word is `SplitWordThen`. */
  lemma {:induction false} SplitAtWhitespace(a: string, c: char, b: string)
    requires IsWhitespace(c)
    ensures SplitWhitespace(a + [c] + b) == SplitWhitespace(a) + SplitWhitespace(b)
    decreases |a|
  {
    var s := a + [c] + b;
    if a == [] {
      assert s == [c] + b;
      assert s[1..] == b;
    } else if IsWhitespace(a[0]) {
      assert s[0] == a[0];
      assert s[1..] == a[1..] + [c] + b;
      SplitAtWhitespace(a[1..], c, b);
    } else {
      var n := WordLength(a);
      assert n >= 1;
      var tail := a[n..] + [c] + b;
      assert SplitWhitespace(s) == [a[..n]] + SplitWhitespace(tail) by {
        assert s[0] == a[0];
        assert s == a + ([c] + b);
        WordLengthExtend(a, [c] + b);
        assert s[..n] == a[..n];
        assert s[n..] == tail;
      }
      assert SplitWhitespace(tail) == SplitWhitespace(a[n..]) + SplitWhitespace(b) by {
        SplitAtWhitespace(a[n..], c, b);
      }
      assert SplitWhitespace(a) == [a[..n]] + SplitWhitespace(a[n..]);
    }
  }

  /** The text shown for a chunk splits back into exactly that chunk: joining
      with single spaces and splitting on whitespace are inverse on words. */
  lemma {:induction false} SplitJoin(ws: seq<string>)
    requires AllWords(ws)
    ensures SplitWhitespace(JoinWords(ws)) == ws
    decreases |ws|
  {
    if |ws| == 0 {
    } else if |ws| == 1 {
      assert ws[0] + [] == ws[0];
      SplitWordThen(ws[0], []);
    } else {
      var tail := " " + JoinWords(ws[1..]);
      assert SplitWhitespace(JoinWords(ws)) == [ws[0]] + SplitWhitespace(tail) by {
        assert JoinWords(ws) == ws[0] + tail;
        SplitWordThen(ws[0], tail);
      }
      assert SplitWhitespace(tail) == ws[1..] by {
        assert tail[1..] == JoinWords(ws[1..]);
        SplitJoin(ws[1..]);
      }
      assert ws == [ws[0]] + ws[1..];
    }
  }
}
