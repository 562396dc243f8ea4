# bt_string_utils: text measurement and substring helpers in Dafny

This project models the two core source files of the `bt_string_utils` Rust crate.
It also proves what their documentation and tests promise.

- `text_measure.dfy`, module `TextMeasure` (src/lib2.rs):
  - `is_cjk` is the predicate `IsCjk`, a check against eight code point blocks.
  - `word_count` is the method `WordCount`. Its loop runs over the whitespace tokens of the text.
    Each token is trimmed of ASCII punctuation other than `'` and `-`.
    A token adds nothing if it trims to nothing.
    It adds its character count if what is left is all ideographs, and 1 otherwise.
    The method is proved equal to the specification function `WordCountOf`.
  - `count_paragraphs` is the function `CountParagraphs`. It follows the two `replace` calls, the newline count and the three-way rule.
    It is related to `Breaks`, an independent count of CR LF pairs, lone CRs and lone LFs on the raw text.
- `string_utils.dfy`, module `StringUtils` (src/lib.rs):
  - `get_first_of_split` is `GetFirstOfSplit`.
  - `get_first_occurrance` is `GetFirstOccurrance`.
  - `find_value_by_key` is `FindValueByKey`, with `str::split_once` as `SplitOnce`.
  - `remove_char` is `RemoveChar`.

Text is `string` (a sequence of Unicode scalar values), so strings are well formed by construction.
Rust slices strings at byte offsets, while the model indexes by character.
Byte lengths appear only where the code mixes bytes and characters:
- `Utf8Len` and `ByteLen` give the UTF-8 size of a character and of a string.
- In `get_first_of_split`, the byte offset `position + 1` is one character past the match start, because the character at the match is one byte long.
  The predicate `SplitDefined` states exactly this condition; when it fails, the Rust slice panics.
- In `remove_char`, `input.len()` is `ByteLen(input)`.

The documentation of `word_count` (src/lib2.rs:14) says `"你好世界"` counts 3.
The code counts one word per ideograph, which gives 4. The model follows the code (`CjkExample`).

## Model

| member | source | states |
|---|---|---|
| TextMeasure.IsWhitespace | src/lib2.rs:37 | defined as the code points of Unicode White_Space, the class `split_whitespace` splits on |
| TextMeasure.AsciiWhitespace | src/lib2.rs:37 | within ASCII, whitespace is exactly space, tab, LF, VT, FF and CR |
| TextMeasure.IsAsciiPunctuation | src/lib2.rs:40 | defined as the four ASCII punctuation blocks |
| TextMeasure.AsciiPunctuationIsGraphicNotAlphanumeric | src/lib2.rs:40 | `is_ascii_punctuation` holds exactly for a graphic ASCII character that is neither a digit nor a letter |
| TextMeasure.IsTrimmed | src/lib2.rs:39-41 | defined as ASCII punctuation other than `'` and `-` |
| TextMeasure.TrimmedCharacters | src/lib2.rs:39-41 | the trimmed characters are exactly the thirty listed one by one: the ASCII punctuation without `'` and `-` |
| TextMeasure.IsCjk | src/lib2.rs:75-86 | defined as membership in the eight blocks; `IsCjkIffInTable` relates it to the block table |
| TextMeasure.IsCjkIffInTable | src/lib2.rs:75-86 | `is_cjk(c)` holds exactly when c's code point lies in one of the eight listed blocks |
| TextMeasure.IsCjkExamples | src/lib2.rs:64-73 | '你' and '界' are CJK; 'a' and '🙂' are not |
| TextMeasure.CjkIsWordCharacter | src/lib2.rs:37-41 | an ideograph is never whitespace and never trimmed |
| TextMeasure.SplitWhitespace | src/lib2.rs:37 | every token is non-empty and holds no whitespace |
| TextMeasure.SplitWhitespaceKeepsText | src/lib2.rs:37 | the tokens, joined, are exactly the text with its whitespace deleted: no character is lost or added |
| TextMeasure.SplitAcrossWhitespace | src/lib2.rs:37 | the tokens of `a + w + b`, for a non-empty whitespace run w, are those of a followed by those of b |
| TextMeasure.TrimStart | src/lib2.rs:39-41 | the result is a suffix of the token; everything dropped is trimmable; the result does not start with a trimmable character |
| TextMeasure.TrimEnd | src/lib2.rs:39-41 | the result is a prefix of the token; everything dropped is trimmable; the result does not end with a trimmable character |
| TextMeasure.Trim | src/lib2.rs:39-41 | the trimmed token is no longer than the token |
| TextMeasure.TrimShape | src/lib2.rs:39-41 | the trimmed token is one contiguous piece of the token, and it neither starts nor ends with a trimmed character |
| TextMeasure.TrimKeeps | src/lib2.rs:39-41 | every character that is not trimmable punctuation, `'` and `-` included, survives trimming |
| TextMeasure.TrimAllPunctuation | src/lib2.rs:39-43 | a token made only of trimmable punctuation trims to the empty string |
| TextMeasure.TrimEmptyIffAllTrimmed | src/lib2.rs:39-45 | a token trims to nothing exactly when every one of its characters is trimmed |
| TextMeasure.TokenWords | src/lib2.rs:43-54 | one token adds at most as many words as it has characters |
| TextMeasure.WordCountOf | src/lib2.rs:34-58 | a text never has more words than characters |
| TextMeasure.WordCount | src/lib2.rs:34-58 | the loop's result is `WordCountOf(text)`: the sum over the whitespace tokens of 0 (trims to empty), the character count (all CJK) or 1 |
| TextMeasure.WordCountAdditive | src/lib2.rs:37-57 | `word_count(a + w + b) == word_count(a) + word_count(b)` for any non-empty run w of spaces, tabs, newlines or other whitespace |
| TextMeasure.WordCountJoinedBySpace | src/lib2.rs:37-57 | `word_count(a + " " + b) == word_count(a) + word_count(b)` |
| TextMeasure.WhitespaceOnlyHasNoWords | src/lib2.rs:37 | an empty or whitespace-only text has no tokens and counts 0 |
| TextMeasure.SingleToken | src/lib2.rs:37 | a non-empty text without whitespace is a single token and counts that token's share |
| TextMeasure.PunctuationTokenAddsNothing | src/lib2.rs:39-45 | a token of trimmable punctuation only adds 0 |
| TextMeasure.OneWord | src/lib2.rs:47-54 | a whitespace-free text with a character that is neither trimmable nor CJK counts exactly 1 |
| TextMeasure.CjkRunCountsEachCharacter | src/lib2.rs:47-51 | a non-empty run of ideographs counts one word per character |
| TextMeasure.HyphenatedExample | tests/tests2.rs:26-29 | `"state-of-the-art"` counts 1 |
| TextMeasure.ContractionExample | src/lib2.rs:10 | `"don't"` counts 1 |
| TextMeasure.UrlExample | tests/tests2.rs:39-42 | `"example.com/test"` counts 1 |
| TextMeasure.EmojiExample | src/lib2.rs:12 | `"🙂"` counts 1 |
| TextMeasure.MisencodedEmojiExample | tests/tests2.rs:44-47 | the test's literal, the four characters U+00F0 U+0178 U+2122 U+201A, counts 1 |
| TextMeasure.CjkExample | src/lib2.rs:47-51 | `"你好世界"` counts 4 |
| TextMeasure.TrailingPunctuationExample | src/lib2.rs:8 | `"Hello,"` and `"world!"` each count 1 |
| TextMeasure.PunctuationExample | tests/tests2.rs:13-14 | `"Hello," + " " + "world!"`, that is `"Hello, world!"`, counts 2 |
| TextMeasure.WhitespaceExample | tests/tests2.rs:51-55 | `"\n\t  "` counts 0 |
| TextMeasure.ReplaceCrLf | src/lib2.rs:116 | replacing CR LF by LF never lengthens the text and leaves a non-empty text non-empty |
| TextMeasure.ReplaceCr | src/lib2.rs:116 | replacing CR by LF keeps the length, leaves no CR, and changes no other character |
| TextMeasure.Normalize | src/lib2.rs:116 | after both replacements no CR is left, and the text is no longer than before |
| TextMeasure.CountNewlines | src/lib2.rs:118 | the LF count is at most the length, and zero exactly when there is no LF |
| TextMeasure.CountParagraphs | src/lib2.rs:110-131 | the count is zero exactly for the empty text, and never exceeds the number of characters |
| TextMeasure.NormalizeCountsBreaks | src/lib2.rs:115-118 | after both replacements the number of LFs equals the raw break count; the text is non-empty and starts with LF exactly when the raw text is non-empty and starts with CR or LF |
| TextMeasure.ParagraphsFromBreaks | src/lib2.rs:110-131 | the count is 0 for empty text, 1 with no break, the break count when the text starts with a break, and breaks + 1 otherwise |
| TextMeasure.ParagraphBounds | src/lib2.rs:110-122 | empty gives 0; non-empty gives at least 1; non-empty without CR or LF gives 1 |
| TextMeasure.MixedNewlinesExample | tests/tests2.rs:130-134 | `"A\r\nB\nC\rD"` has 4 paragraphs |
| TextMeasure.CrLfOnlyExample | tests/tests2.rs:102-106 | `"\r\n"` has 1 paragraph |
| TextMeasure.TrailingNewlineExample | tests/tests2.rs:108-113 | `"Hello\n"` has 2 paragraphs |
| TextMeasure.ConsecutiveNewlinesExample | tests/tests2.rs:115-122 | `"A\n\n\nB"` has 4 paragraphs |
| StringUtils.ByteLen | src/lib.rs:145 | a string's byte length is at least its character count, and equal to it exactly when it is all ASCII |
| StringUtils.Find | src/lib.rs:35 | `str::find` is defined exactly when the separator occurs; the result is an occurrence, and no occurrence starts earlier |
| StringUtils.GetFirstOfSplit | src/lib.rs:34-42 | no occurrence gives `(s, "")`; otherwise the head is s up to the first occurrence, and head + the character at the match + tail == s |
| StringUtils.AsciiSeparatorSplits | src/lib.rs:37 | a separator whose first character is ASCII never makes the byte slice `position + 1` panic |
| StringUtils.SplitHeadHasNoSeparator | src/lib.rs:35-36 | the head contains no occurrence of a non-empty separator |
| StringUtils.SingleCharSplitRoundTrip | src/lib.rs:35-38 | for a one-character ASCII separator c present in s, head + c + tail == s and c is not in the head |
| StringUtils.GetFirstOfSplitExample | tests/tests.rs:19-24 | `("First:Second:Third", ":")` splits into `("First", "Second:Third")` |
| StringUtils.GetFirstOfSplitAbsentExample | tests/tests.rs:26-31 | an absent separator gives `(s, "")` |
| StringUtils.GetFirstOfSplitKeepsSeparatorTail | src/lib.rs:37 | the tail starts with the separator minus its first character |
| StringUtils.GetFirstOfSplitLongSeparatorExample | src/lib.rs:37 | `("key=>value", "=>")` splits into `("key", ">value")` |
| StringUtils.SplitAtFirst | src/lib.rs:10-16 | the documented split: head + separator + tail == s, and no occurrence starts in the head; absent gives `(s, "")` |
| StringUtils.SplitAtFirstAgrees | src/lib.rs:35-38 | the written and the documented split have the same head, and agree completely for one-character separators |
| StringUtils.GetFirstOccurrance | src/lib.rs:67-73 | absent gives `""`; otherwise the result is the prefix of s ending where the first occurrence starts |
| StringUtils.FirstOccurranceIsSplitHead | src/lib.rs:67-72 | when the separator occurs, the result is the head of `get_first_of_split` |
| StringUtils.GetFirstOccurranceExample | tests/tests.rs:5-10 | `("First:Second:Third", ":")` gives `"First"` |
| StringUtils.GetFirstOccurranceAbsentExample | tests/tests.rs:12-17 | `("First:Second:Third", "*")` gives `""` |
| StringUtils.IndexOfChar | src/lib.rs:99 | absent exactly when the character does not occur; otherwise the index of its first occurrence |
| StringUtils.SplitOnce | src/lib.rs:99 | `split_once` fails exactly when the delimiter is absent; otherwise key + delimiter + value == item and the key has no delimiter |
| StringUtils.SplitOnceJoin | src/lib.rs:99 | splitting `key + "=" + value`, for a key without '=', gives back the key and the value |
| StringUtils.FindValueByKey | src/lib.rs:96-106 | any value found comes from an entry that is exactly `key=value` for the searched key |
| StringUtils.FindValueByKeyFirstMatch | src/lib.rs:96-103 | the result is the text after the first '=' of the first entry whose key equals the searched key |
| StringUtils.FindValueByKeyNone | src/lib.rs:96-106 | the result is `None` exactly when no entry has the searched key |
| StringUtils.FindValueByKeyFoundExample | tests/tests.rs:41-45 | `["k1=a", "k2=b", "k3=c"]` and `"k3"` give `Some("c")` |
| StringUtils.FindValueByKeyMissingExample | tests/tests.rs:47-51 | the same list and `"k5"` give `None` |
| StringUtils.FindValueByKeyValueWithEquals | src/lib.rs:99-101 | an entry without '=' is skipped, and a value may contain '=': `["flag", "a=b=c"]` and `"a"` give `Some("b=c")` |
| StringUtils.Take | src/lib.rs:145 | `chars().take(n)` is the first n characters, or the whole text when it is shorter |
| StringUtils.RemoveChar | src/lib.rs:138-149 | no match leaves the input unchanged; removing from the front drops exactly the first character; removing from the back gives a prefix of the input |
| StringUtils.RemoveLastAscii | src/lib.rs:143-146 | on ASCII text with the target at the end, the result + target == input |
| StringUtils.RemoveLastNonAsciiKeepsInput | src/lib.rs:145 | on text with any multi-byte character, removing from the back changes nothing |
| StringUtils.RemoveCharExamples | src/lib.rs:122-137 | the documented examples hold: `"hello"` gives `"ello"`, `"world!"` gives `"world"`, `"rust"` stays; `"café!"` stays unchanged |
| StringUtils.RemoveCharIntended | src/lib.rs:108-118 | the documented removal: with a match, target + result (front) or result + target (back) == input; otherwise unchanged |
| StringUtils.RemoveCharAgreesOnAscii | src/lib.rs:138-149 | on ASCII text the written and the documented removal agree |

## Findings

| source | as written | input that shows it | evidently intended | confidence | as-written member | corrected member |
|---|---|---|---|---|---|---|
| src/lib.rs:37 | the tail starts one byte after the match start, so a separator longer than one character leaves all but its first character in the tail | `get_first_of_split("key=>value", "=>")` gives `("key", ">value")` | the tail starts after the whole separator, as the documentation says ("the second part of the string after the separator"): `("key", "value")` | medium, not executed | StringUtils.GetFirstOfSplitLongSeparatorExample | StringUtils.SplitAtFirst |
| src/lib.rs:145 | `take(input.len() - 1)` counts bytes but takes characters, so on text with a multi-byte character it takes every character | `remove_char(false, "café!".to_string(), '!')` returns `"café!"` | the last character is removed: `"café"` | high, not executed | StringUtils.RemoveLastNonAsciiKeepsInput | StringUtils.RemoveCharIntended |

## Left out

- GetFirstOfSplit: requires `SplitDefined`, so the inputs on which Rust panics are left out. These are an empty separator on an empty text, and a match whose character is more than one byte long. Panics are not modelled.
- WordCount: the tokens of `split_whitespace` are computed as a whole sequence, not produced lazily by an iterator.
- CountParagraphs: the intermediate strings the two `replace` calls allocate are modelled as values.
- UTF-8 encoding and validation: strings are sequences of scalar values. Bytes appear only as the lengths given by `Utf8Len` and `ByteLen`.
- The `println!` calls and the test harness in tests/tests.rs and tests/tests2.rs: their assertions appear as example lemmas.
- The chunk splitter, the word-boundary N-way splitter, the tag stripper and the random identifier generator are not part of this model. Their source files are not among the files modelled.
