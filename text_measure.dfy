/** Text measurement: word and paragraph counting (src/lib2.rs).
    Text is a sequence of Unicode scalar values; the byte encoding plays no part here. */
module TextMeasure {

  // ---------------------------------------------------------------------------
  // Character classes
  // ---------------------------------------------------------------------------

  /** Unicode White_Space, the class `char::is_whitespace` tests and
      `str::split_whitespace` splits on. */
  predicate IsWhitespace(c: char) {
    var cp := c as int;
    (0x09 <= cp <= 0x0D) || cp == 0x20 || cp == 0x85 || cp == 0xA0 || cp == 0x1680
    || (0x2000 <= cp <= 0x200A) || cp == 0x2028 || cp == 0x2029 || cp == 0x202F
    || cp == 0x205F || cp == 0x3000
  }

  /** `char::is_ascii_punctuation`: the four ASCII punctuation blocks. */
  predicate IsAsciiPunctuation(c: char) {
    var cp := c as int;
    (0x21 <= cp <= 0x2F) || (0x3A <= cp <= 0x40) || (0x5B <= cp <= 0x60) || (0x7B <= cp <= 0x7E)
  }

  /** The characters word counting trims off both ends of a token:
      ASCII punctuation except the apostrophe and the hyphen. */
  predicate IsTrimmed(c: char) {
    IsAsciiPunctuation(c) && c != '\'' && c != '-'
  }

  /** Within ASCII, White_Space is exactly space, tab, LF, VT, FF and CR. */
  lemma AsciiWhitespace(c: char)
    requires c as int < 0x80
    ensures IsWhitespace(c) <==> c in " \t\n\U{0B}\U{0C}\r"
  {
  }

  /** ASCII punctuation is what Rust documents it to be: a graphic ASCII
      character that is neither a digit nor a letter. */
  lemma AsciiPunctuationIsGraphicNotAlphanumeric(c: char)
    ensures IsAsciiPunctuation(c) <==>
      0x21 <= c as int <= 0x7E && !('0' <= c <= '9') && !('A' <= c <= 'Z') && !('a' <= c <= 'z')
  {
  }

  /** The thirty characters trimmed off a token, listed one by one. */
  lemma TrimmedCharacters(c: char)
    ensures IsTrimmed(c) <==> c in "!\"#$%&()*+,./:;<=>?@[\\]^_`{|}~"
  {
  }

  /** `is_cjk`: membership of the code point in one of eight ideograph blocks. */
  predicate IsCjk(c: char) {
    var cp := c as int;
    (0x4E00 <= cp <= 0x9FFF)        // CJK Unified Ideographs
    || (0x3400 <= cp <= 0x4DBF)     // Extension A
    || (0x20000 <= cp <= 0x2A6DF)   // Extension B
    || (0x2A700 <= cp <= 0x2B73F)   // Extension C
    || (0x2B740 <= cp <= 0x2B81F)   // Extension D
    || (0x2B820 <= cp <= 0x2CEAF)   // Extension E
    || (0xF900 <= cp <= 0xFAFF)     // Compatibility Ideographs
    || (0x2F800 <= cp <= 0x2FA1F)   // Compatibility Ideographs Supplement
  }

  /** The block table behind `is_cjk`, as inclusive (first, last) code point pairs. */
  const CjkBlocks: seq<(int, int)> := [
    (0x4E00, 0x9FFF), (0x3400, 0x4DBF), (0x20000, 0x2A6DF), (0x2A700, 0x2B73F),
    (0x2B740, 0x2B81F), (0x2B820, 0x2CEAF), (0xF900, 0xFAFF), (0x2F800, 0x2FA1F)
  ]


  /** `is_cjk(c)` holds exactly when c lies in one of the eight blocks of the table. */
  lemma IsCjkIffInTable(c: char)
    ensures IsCjk(c) <==> exists i :: 0 <= i < |CjkBlocks| && CjkBlocks[i].0 <= c as int <= CjkBlocks[i].1
  {
    var cp := c as int;
    if IsCjk(c) {
      var i :=
        if 0x4E00 <= cp <= 0x9FFF then 0
        else if 0x3400 <= cp <= 0x4DBF then 1
        else if 0x20000 <= cp <= 0x2A6DF then 2
        else if 0x2A700 <= cp <= 0x2B73F then 3
        else if 0x2B740 <= cp <= 0x2B81F then 4
        else if 0x2B820 <= cp <= 0x2CEAF then 5
        else if 0xF900 <= cp <= 0xFAFF then 6
        else 7;
      assert CjkBlocks[i].0 <= cp <= CjkBlocks[i].1;
    }
  }

  /** The examples documented for `is_cjk`. */
  lemma IsCjkExamples()
    ensures IsCjk('你') && IsCjk('界')
    ensures !IsCjk('a') && !IsCjk('🙂')
  {
  }

  /** An ideograph is never a separator and is never trimmed, so it always
      survives into the trimmed token. */
  lemma CjkIsWordCharacter(c: char)
    requires IsCjk(c)
    ensures !IsWhitespace(c) && !IsTrimmed(c)
  {
  }

  // ---------------------------------------------------------------------------
  // Splitting on whitespace
  // ---------------------------------------------------------------------------

  predicate NoWhitespace(t: string) {
    forall k :: 0 <= k < |t| ==> !IsWhitespace(t[k])
  }

  predicate AllWhitespace(t: string) {
    forall k :: 0 <= k < |t| ==> IsWhitespace(t[k])
  }

  /** Length of the run of non-whitespace characters that starts s. */
  function TokenLen(s: string): (n: nat)
    ensures n <= |s|
    ensures NoWhitespace(s[..n])
    ensures n == |s| || IsWhitespace(s[n])
    decreases |s|
  {
    if s == [] || IsWhitespace(s[0]) then 0 else 1 + TokenLen(s[1..])
  }

  /** `str::split_whitespace`: the maximal runs of non-whitespace characters, in order. */
  function SplitWhitespace(s: string): (tokens: seq<string>)
    ensures forall k :: 0 <= k < |tokens| ==> tokens[k] != [] && NoWhitespace(tokens[k])
    decreases |s|
  {
    if s == [] then []
    else if IsWhitespace(s[0]) then SplitWhitespace(s[1..])
    else
      var n := TokenLen(s);
      [s[..n]] + SplitWhitespace(s[n..])
  }

  function Concat(tokens: seq<string>): string {
    if tokens == [] then [] else tokens[0] + Concat(tokens[1..])
  }

  /** s with every whitespace character deleted. */
  function DropWhitespace(s: string): string {
    if s == [] then []
    else (if IsWhitespace(s[0]) then [] else [s[0]]) + DropWhitespace(s[1..])
  }

  lemma {:induction false} DropWhitespaceConcat(a: string, b: string)
    ensures DropWhitespace(a + b) == DropWhitespace(a) + DropWhitespace(b)
    decreases |a|
  {
    if a != [] {
      assert (a + b)[1..] == a[1..] + b;
      DropWhitespaceConcat(a[1..], b);
    } else {
      assert a + b == b;
    }
  }

  lemma {:induction false} DropWhitespaceKeepsWord(t: string)
    requires NoWhitespace(t)
    ensures DropWhitespace(t) == t
    decreases |t|
  {
    if t != [] {
      DropWhitespaceKeepsWord(t[1..]);
    }
  }

  /** Splitting loses no non-whitespace character and invents none: the
      tokens put back together are the text without its whitespace. */
  lemma {:induction false} SplitWhitespaceKeepsText(s: string)
    ensures Concat(SplitWhitespace(s)) == DropWhitespace(s)
    decreases |s|
  {
    if s == [] {
    } else if IsWhitespace(s[0]) {
      SplitWhitespaceKeepsText(s[1..]);
    } else {
      var n := TokenLen(s);
      var rest := SplitWhitespace(s[n..]);
      assert SplitWhitespace(s) == [s[..n]] + rest;
      assert ([s[..n]] + rest)[1..] == rest;
      SplitWhitespaceKeepsText(s[n..]);
      assert s == s[..n] + s[n..];
      DropWhitespaceConcat(s[..n], s[n..]);
      DropWhitespaceKeepsWord(s[..n]);
    }
  }

  /** Leading whitespace is skipped. */
  lemma {:induction false} SplitSkipsWhitespace(w: string, b: string)
    requires AllWhitespace(w)
    ensures SplitWhitespace(w + b) == SplitWhitespace(b)
    decreases |w|
  {
    if w != [] {
      assert (w + b)[1..] == w[1..] + b;
      SplitSkipsWhitespace(w[1..], b);
    } else {
      assert w + b == b;
    }
  }

  /** A token of a ends where it ends in a, when what follows a starts with whitespace. */
  lemma {:induction false} TokenLenStopsAtWhitespace(a: string, c: string)
    requires c == [] || IsWhitespace(c[0])
    ensures TokenLen(a + c) == TokenLen(a)
    decreases |a|
  {
    if a == [] {
      assert a + c == c;
    } else if !IsWhitespace(a[0]) {
      assert (a + c)[1..] == a[1..] + c;
      TokenLenStopsAtWhitespace(a[1..], c);
    }
  }

  /** Whitespace between two texts separates their tokens. */
  lemma {:induction false} SplitAcrossWhitespace(a: string, w: string, b: string)
    requires w != [] && AllWhitespace(w)
    ensures SplitWhitespace(a + w + b) == SplitWhitespace(a) + SplitWhitespace(b)
    decreases |a|
  {
    var s := a + w + b;
    if a == [] {
      assert s == w + b;
      SplitSkipsWhitespace(w, b);
    } else if IsWhitespace(a[0]) {
      assert s[1..] == a[1..] + w + b;
      SplitAcrossWhitespace(a[1..], w, b);
    } else {
      var n := TokenLen(a);
      assert s == a + (w + b);
      TokenLenStopsAtWhitespace(a, w + b);
      assert s[..n] == a[..n];
      assert s[n..] == a[n..] + w + b;
      SplitAcrossWhitespace(a[n..], w, b);
    }
  }

  // ---------------------------------------------------------------------------
  // Trimming punctuation off a token
  // ---------------------------------------------------------------------------

  /** Drops the leading trimmed characters. */
  function TrimStart(t: string): (r: string)
    ensures |r| <= |t| && r == t[|t| - |r|..]
    ensures forall k :: 0 <= k < |t| - |r| ==> IsTrimmed(t[k])
    ensures r == [] || !IsTrimmed(r[0])
    decreases |t|
  {
    if t != [] && IsTrimmed(t[0]) then TrimStart(t[1..]) else t
  }

  /** Drops the trailing trimmed characters. */
  function TrimEnd(t: string): (r: string)
    ensures |r| <= |t| && r == t[..|r|]
    ensures forall k :: |r| <= k < |t| ==> IsTrimmed(t[k])
    ensures r == [] || !IsTrimmed(r[|r| - 1])
    decreases |t|
  {
    if t != [] && IsTrimmed(t[|t| - 1]) then TrimEnd(t[..|t| - 1]) else t
  }

  /** `str::trim_matches` with the word-count pattern: both ends trimmed. */
  function Trim(t: string): (r: string)
    ensures |r| <= |t|
  {
    TrimEnd(TrimStart(t))
  }

  /** Trimming cuts only at the two ends: what is left is one contiguous piece
      of the token, and it neither starts nor ends with a trimmed character. */
  lemma TrimShape(t: string)
    ensures exists i, j :: 0 <= i <= j <= |t| && Trim(t) == t[i..j]
    ensures Trim(t) == [] || (!IsTrimmed(Trim(t)[0]) && !IsTrimmed(Trim(t)[|Trim(t)| - 1]))
  {
    var front := TrimStart(t);
    var r := TrimEnd(front);
    assert r == Trim(t);
    var i, j := |t| - |front|, |t| - |front| + |r|;
    assert front == t[i..] && r == front[..|r|];
    assert 0 <= i <= j <= |t| && Trim(t) == t[i..j];
    if r != [] {
      assert r[0] == front[0];
    }
  }


  /** Trimming removes only trimmed characters: every other character of the
      token, the apostrophe and the hyphen among them, is still there. */
  lemma TrimKeeps(t: string, k: int)
    requires 0 <= k < |t| && !IsTrimmed(t[k])
    ensures Trim(t) != [] && t[k] in Trim(t)
  {
  }

  /** A token made only of trimmed punctuation trims to nothing. */
  lemma TrimAllPunctuation(t: string)
    requires forall k :: 0 <= k < |t| ==> IsTrimmed(t[k])
    ensures Trim(t) == []
  {
  }

  /** A token with nothing to trim at either end is left as it is. */
  lemma TrimUntrimmable(t: string)
    requires forall k :: 0 <= k < |t| ==> !IsTrimmed(t[k])
    ensures Trim(t) == t
  {
  }

  /** A token trims to nothing exactly when every one of its characters is trimmed. */
  lemma TrimEmptyIffAllTrimmed(t: string)
    ensures Trim(t) == [] <==> forall k :: 0 <= k < |t| ==> IsTrimmed(t[k])
  {
    if !forall k :: 0 <= k < |t| ==> IsTrimmed(t[k]) {
      var k :| 0 <= k < |t| && !IsTrimmed(t[k]);
      TrimKeeps(t, k);
    }
  }

  // ---------------------------------------------------------------------------
  // Counting words
  // ---------------------------------------------------------------------------

  predicate AllCjk(t: string) {
    forall k :: 0 <= k < |t| ==> IsCjk(t[k])
  }

  /** What one whitespace-delimited token adds to the word count: nothing when it
      trims to nothing, one per character when all that is left is ideographs,
      and one otherwise. */
  function TokenWords(token: string): (n: nat)
    ensures n <= |token|
  {
    var trimmed := Trim(token);
    if trimmed == [] then 0
    else if AllCjk(trimmed) then |trimmed|
    else 1
  }

  function SumWords(tokens: seq<string>): nat {
    if tokens == [] then 0
    else SumWords(tokens[..|tokens| - 1]) + TokenWords(tokens[|tokens| - 1])
  }

  /** The number of words of a text, token by token. A text never has more
      words than characters. */
  function WordCountOf(text: string): (n: nat)
    ensures n <= |text|
  {
    var tokens := SplitWhitespace(text);
    SplitWhitespaceKeepsText(text);
    DropWhitespaceShorter(text);
    SumWordsAtMostLength(tokens);
    SumWords(tokens)
  }

  lemma {:induction false} DropWhitespaceShorter(s: string)
    ensures |DropWhitespace(s)| <= |s|
    decreases |s|
  {
    if s != [] {
      DropWhitespaceShorter(s[1..]);
    }
  }

  /** The tokens' words never outnumber their characters. */
  lemma {:induction false} SumWordsAtMostLength(tokens: seq<string>)
    ensures SumWords(tokens) <= |Concat(tokens)|
    decreases |tokens|
  {
    if tokens != [] {
      SumWordsAtMostLength(tokens[1..]);
      assert tokens == [tokens[0]] + tokens[1..];
      SumWordsConcat([tokens[0]], tokens[1..]);
      SumWordsSingle(tokens[0]);
    }
  }

  /** `word_count`: one pass over the whitespace tokens, adding each one's share. */
  method WordCount(text: string) returns (count: nat)
    ensures count == WordCountOf(text)
  {
    count := 0;
    var tokens := SplitWhitespace(text);
    for i := 0 to |tokens|
      invariant count == SumWords(tokens[..i])
    {
      SumWordsStep(tokens, i);
      var trimmed := Trim(tokens[i]);
      assert TokenWords(tokens[i]) == if trimmed == [] then 0 else if AllCjk(trimmed) then |trimmed| else 1;
      if trimmed == [] {
        continue;
      }
      if AllCjk(trimmed) {
        count := count + |trimmed|;
        continue;
      }
      count := count + 1;
    }
    assert tokens[..|tokens|] == tokens;
  }

  lemma SumWordsStep(tokens: seq<string>, i: int)
    requires 0 <= i < |tokens|
    ensures SumWords(tokens[..i + 1]) == SumWords(tokens[..i]) + TokenWords(tokens[i])
  {
    assert tokens[..i + 1][..i] == tokens[..i];
  }

  lemma {:induction false} SumWordsConcat(a: seq<string>, b: seq<string>)
    ensures SumWords(a + b) == SumWords(a) + SumWords(b)
    decreases |b|
  {
    if b == [] {
      assert a + b == a;
    } else {
      var last := |b| - 1;
      assert (a + b)[..|a + b| - 1] == a + b[..last];
      assert (a + b)[|a + b| - 1] == b[last];
      SumWordsConcat(a, b[..last]);
    }
  }

  /** Words on the two sides of any whitespace run add up: the run itself,
      whatever its length or kind of whitespace, counts for nothing. */
  lemma WordCountAdditive(a: string, w: string, b: string)
    requires w != [] && AllWhitespace(w)
    ensures WordCountOf(a + w + b) == WordCountOf(a) + WordCountOf(b)
  {
    SplitAcrossWhitespace(a, w, b);
    SumWordsConcat(SplitWhitespace(a), SplitWhitespace(b));
  }

  /** The single-space case of additivity. */
  lemma WordCountJoinedBySpace(a: string, b: string)
    ensures WordCountOf(a + " " + b) == WordCountOf(a) + WordCountOf(b)
  {
    WordCountAdditive(a, " ", b);
  }

  /** Empty and whitespace-only texts have no words. */
  lemma WhitespaceOnlyHasNoWords(s: string)
    requires AllWhitespace(s)
    ensures SplitWhitespace(s) == [] && WordCountOf(s) == 0
  {
  }

  /** A text without whitespace is a single token. */
  lemma SingleToken(t: string)
    requires t != [] && NoWhitespace(t)
    ensures SplitWhitespace(t) == [t]
    ensures WordCountOf(t) == TokenWords(t)
  {
    var n := TokenLen(t);
    assert n == |t| && t[..n] == t && t[n..] == [];
    assert SplitWhitespace(t) == [t];
    SumWordsSingle(t);
  }

  lemma SumWordsSingle(t: string)
    ensures SumWords([t]) == TokenWords(t)
  {
    assert [t][..0] == [];
  }

  /** A token of nothing but trimmed punctuation adds no word. */
  lemma PunctuationTokenAddsNothing(t: string)
    requires forall k :: 0 <= k < |t| ==> IsTrimmed(t[k])
    ensures TokenWords(t) == 0
  {
  }

  /** A whitespace-free text with one character that is neither trimmed nor an
      ideograph is one word: hyphenated compounds, contractions, URLs, emoji. */
  lemma OneWord(t: string, k: int)
    requires NoWhitespace(t)
    requires 0 <= k < |t| && !IsTrimmed(t[k]) && !IsCjk(t[k])
    ensures WordCountOf(t) == 1
  {
    SingleToken(t);
    TrimKeeps(t, k);
    var trimmed := Trim(t);
    var j :| 0 <= j < |trimmed| && trimmed[j] == t[k];
    assert !AllCjk(trimmed);
  }

  /** A run of ideographs counts one word per character. */
  lemma CjkRunCountsEachCharacter(t: string)
    requires t != [] && AllCjk(t)
    ensures WordCountOf(t) == |t|
  {
    SingleToken(t);
    TrimUntrimmable(t);
  }

  // One example per lemma: each brings a literal text whose function
  // applications the verifier unfolds, and several at once are too costly.

  /** A hyphenated compound is one word. */
  lemma HyphenatedExample()
    ensures WordCountOf("state-of-the-art") == 1
  {
    OneWord("state-of-the-art", 0);
  }

  /** A contraction is one word. */
  lemma ContractionExample()
    ensures WordCountOf("don't") == 1
  {
    OneWord("don't", 0);
  }

  /** A URL is one word. */
  lemma UrlExample()
    ensures WordCountOf("example.com/test") == 1
  {
    OneWord("example.com/test", 0);
  }

  /** The emoji test of tests/tests2.rs: its literal, read as UTF-8, is the four
      characters U+00F0 U+0178 U+2122 U+201A, and they make one word. */
  lemma MisencodedEmojiExample()
    ensures WordCountOf("\U{F0}\U{178}\U{2122}\U{201A}") == 1
  {
    OneWord("\U{F0}\U{178}\U{2122}\U{201A}", 0);
  }

  /** An emoji is one word. */
  lemma EmojiExample()
    ensures WordCountOf("🙂") == 1
  {
    OneWord("🙂", 0);
  }

  /** Each ideograph is a word. The documentation of `word_count` says
      "你好世界" counts 3; the code counts 4. */
  lemma CjkExample()
    ensures WordCountOf("你好世界") == 4
  {
    CjkRunCountsEachCharacter("你好世界");
  }

  /** Trailing punctuation is trimmed off a word. */
  lemma TrailingPunctuationExample(w: string)
    requires w == "Hello," || w == "world!"
    ensures WordCountOf(w) == 1
  {
    OneWord(w, 0);
  }

  /** Punctuation next to a word is ignored. */
  lemma PunctuationExample(a: string, b: string)
    requires a == "Hello," && b == "world!"
    ensures WordCountOf(a + " " + b) == 2
  {
    TrailingPunctuationExample(a);
    TrailingPunctuationExample(b);
    WordCountJoinedBySpace(a, b);
  }

  /** Whitespace alone counts nothing. */
  lemma WhitespaceExample()
    ensures WordCountOf("\n\t  ") == 0
  {
    WhitespaceOnlyHasNoWords("\n\t  ");
  }

  // ---------------------------------------------------------------------------
  // Counting paragraphs
  // ---------------------------------------------------------------------------

  /** `replace("\r\n", "\n")`: each CR LF pair, matched left to right, becomes one LF. */
  function ReplaceCrLf(s: string): (r: string)
    ensures |r| <= |s|
    ensures r == [] <==> s == []
    decreases |s|
  {
    if |s| >= 2 && s[0] == '\r' && s[1] == '\n' then "\n" + ReplaceCrLf(s[2..])
    else if s == [] then []
    else [s[0]] + ReplaceCrLf(s[1..])
  }

  /** `replace('\r', "\n")`: every remaining CR becomes LF. */
  function ReplaceCr(s: string): (r: string)
    ensures |r| == |s| && '\r' !in r
    ensures forall k :: 0 <= k < |s| && s[k] != '\r' ==> r[k] == s[k]
  {
    seq(|s|, k requires 0 <= k < |s| => if s[k] == '\r' then '\n' else s[k])
  }

  /** The text with all three newline conventions turned into LF. */
  function Normalize(s: string): (r: string)
    ensures '\r' !in r
    ensures |r| <= |s|
  {
    ReplaceCr(ReplaceCrLf(s))
  }

  /** `matches('\n').count()`. */
  function CountNewlines(s: string): (n: nat)
    ensures n <= |s|
    ensures n == 0 <==> '\n' !in s
  {
    if s == [] then 0 else (if s[0] == '\n' then 1 else 0) + CountNewlines(s[1..])
  }

  /** `count_paragraphs`. */
  function CountParagraphs(text: string): (n: nat)
    ensures n == 0 <==> text == []
    ensures n <= |text|
  {
    if text == [] then 0
    else
      var normalized := Normalize(text);
      var newlines := CountNewlines(normalized);
      if newlines == 0 then 1
      else if normalized[0] == '\n' then newlines
      else newlines + 1
  }

  /** Paragraph breaks counted directly on the raw text: each CR LF pair, each
      CR not followed by LF, and each LF not preceded by CR is one break. */
  function Breaks(s: string): nat
    decreases |s|
  {
    if s == [] then 0
    else if |s| >= 2 && s[0] == '\r' && s[1] == '\n' then 1 + Breaks(s[2..])
    else if s[0] == '\r' || s[0] == '\n' then 1 + Breaks(s[1..])
    else Breaks(s[1..])
  }

  predicate StartsWithBreak(s: string) {
    s != [] && (s[0] == '\r' || s[0] == '\n')
  }

  lemma ReplaceCrPrepend(c: char, s: string)
    ensures ReplaceCr([c] + s) == [if c == '\r' then '\n' else c] + ReplaceCr(s)
  {
  }

  /** Normalising loses no break and makes none up, and it leaves a leading
      break at the front. */
  lemma {:induction false} NormalizeCountsBreaks(s: string)
    ensures CountNewlines(Normalize(s)) == Breaks(s)
    ensures |Normalize(s)| > 0 <==> s != []
    ensures s != [] ==> (Normalize(s)[0] == '\n' <==> StartsWithBreak(s))
    decreases |s|
  {
    if s == [] {
    } else if |s| >= 2 && s[0] == '\r' && s[1] == '\n' {
      NormalizeCountsBreaks(s[2..]);
      assert ReplaceCrLf(s) == ['\n'] + ReplaceCrLf(s[2..]);
      ReplaceCrPrepend('\n', ReplaceCrLf(s[2..]));
    } else {
      NormalizeCountsBreaks(s[1..]);
      assert ReplaceCrLf(s) == [s[0]] + ReplaceCrLf(s[1..]);
      ReplaceCrPrepend(s[0], ReplaceCrLf(s[1..]));
    }
  }

  /** The paragraph rule stated on raw breaks: none for the empty text, one for
      a text with no break, the break count for a text that starts with a
      break, and one more than the break count otherwise. */
  lemma ParagraphsFromBreaks(s: string)
    ensures CountParagraphs(s) ==
      if s == [] then 0
      else if Breaks(s) == 0 then 1
      else if StartsWithBreak(s) then Breaks(s)
      else Breaks(s) + 1
  {
    NormalizeCountsBreaks(s);
  }

  lemma {:induction false} NoBreakCharacters(s: string)
    requires forall k :: 0 <= k < |s| ==> s[k] != '\r' && s[k] != '\n'
    ensures Breaks(s) == 0
    decreases |s|
  {
    if s != [] {
      NoBreakCharacters(s[1..]);
    }
  }

  /** A text without CR or LF is one paragraph; every non-empty text has at least one. */
  lemma ParagraphBounds(s: string)
    ensures s == [] ==> CountParagraphs(s) == 0
    ensures s != [] ==> CountParagraphs(s) >= 1
    ensures s != [] && (forall k :: 0 <= k < |s| ==> s[k] != '\r' && s[k] != '\n') ==>
      CountParagraphs(s) == 1
  {
    ParagraphsFromBreaks(s);
    if StartsWithBreak(s) {
      assert Breaks(s) >= 1;
    }
    if s != [] && forall k :: 0 <= k < |s| ==> s[k] != '\r' && s[k] != '\n' {
      NoBreakCharacters(s);
    }
  }

  /** All three newline conventions in one text. */
  lemma MixedNewlinesExample()
    ensures CountParagraphs("A\r\nB\nC\rD") == 4
  {
    assert Breaks("A\r\nB\nC\rD") == 3;
    ParagraphsFromBreaks("A\r\nB\nC\rD");
  }

  /** A lone CR LF is one (empty) paragraph. */
  lemma CrLfOnlyExample()
    ensures CountParagraphs("\r\n") == 1
  {
    assert Breaks("\r\n") == 1;
    ParagraphsFromBreaks("\r\n");
  }

  /** A trailing newline opens an empty last paragraph. */
  lemma TrailingNewlineExample()
    ensures CountParagraphs("Hello\n") == 2
  {
    assert Breaks("Hello\n") == 1;
    ParagraphsFromBreaks("Hello\n");
  }

  /** Consecutive newlines make empty paragraphs. */
  lemma ConsecutiveNewlinesExample()
    ensures CountParagraphs("A\n\n\nB") == 4
  {
    assert Breaks("A\n\n\nB") == 3;
    ParagraphsFromBreaks("A\n\n\nB");
  }
}
