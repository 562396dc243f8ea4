/** Substring and lookup helpers (src/lib.rs).
    Strings are sequences of Unicode scalar values. Rust indexes them by UTF-8
    byte offset; the model indexes by character and brings byte lengths in
    only where the code mixes the two (`position + 1` and `input.len()`). */
module StringUtils {

  datatype Option<T> = None | Some(value: T)

  // ---------------------------------------------------------------------------
  // UTF-8 lengths
  // ---------------------------------------------------------------------------

  /** Number of bytes of c in UTF-8. */
  function Utf8Len(c: char): (n: nat)
    ensures 1 <= n <= 4
    ensures n == 1 <==> c as int < 0x80
  {
    if c as int < 0x80 then 1
    else if c as int < 0x800 then 2
    else if c as int < 0x10000 then 3
    else 4
  }

  predicate IsAscii(s: string) {
    forall k :: 0 <= k < |s| ==> s[k] as int < 0x80
  }

  /** `str::len`: the number of bytes of s in UTF-8. It is never below the
      number of characters, and equals it exactly for ASCII text. */
  function ByteLen(s: string): (n: nat)
    ensures n >= |s|
    ensures n == |s| <==> IsAscii(s)
    decreases |s|
  {
    if s == [] then 0 else Utf8Len(s[0]) + ByteLen(s[1..])
  }

  // ---------------------------------------------------------------------------
  // Searching
  // ---------------------------------------------------------------------------

  /** sep occurs in s starting at character i. */
  predicate OccursAt(s: string, sep: string, i: int) {
    0 <= i && i + |sep| <= |s| && s[i..i + |sep|] == sep
  }

  predicate Occurs(s: string, sep: string) {
    exists i :: 0 <= i <= |s| && OccursAt(s, sep, i)
  }

  /** The first occurrence of sep in s at or after start. */
  function FindFrom(s: string, sep: string, start: nat): (r: Option<nat>)
    ensures r.Some? ==> start <= r.value && OccursAt(s, sep, r.value)
    ensures r.Some? ==> forall i :: start <= i < r.value ==> !OccursAt(s, sep, i)
    ensures r.None? ==> forall i :: start <= i ==> !OccursAt(s, sep, i)
    decreases |s| - start
  {
    if start + |sep| > |s| then None
    else if s[start..start + |sep|] == sep then Some(start)
    else FindFrom(s, sep, start + 1)
  }

  /** `str::find`: where the first occurrence of sep starts, if there is one.
      An empty separator is found at 0. */
  function Find(s: string, sep: string): (r: Option<nat>)
    ensures r.Some? <==> Occurs(s, sep)
    ensures r.Some? ==> OccursAt(s, sep, r.value)
    ensures r.Some? ==> forall i :: 0 <= i < r.value ==> !OccursAt(s, sep, i)
  {
    FindFrom(s, sep, 0)
  }

  lemma SingleCharOccurs(s: string, c: char)
    ensures forall i :: OccursAt(s, [c], i) <==> 0 <= i < |s| && s[i] == c
  {
  }

  // ---------------------------------------------------------------------------
  // get_first_of_split
  // ---------------------------------------------------------------------------

  /** `s[position + 1..]` needs the byte after the match start to begin a
      character: the character at the match must be one byte long (and must
      exist, which fails only for an empty separator on an empty text).
      Otherwise the Rust slice panics; the model leaves those inputs out. */
  predicate SplitDefined(s: string, sep: string) {
    match Find(s, sep)
    case None => true
    case Some(p) => p < |s| && Utf8Len(s[p]) == 1
  }

  /** `get_first_of_split`, as written: the text before the first occurrence of
      sep, and the text from one character after where that occurrence
      starts. The first character of sep is dropped, whatever sep's length. */
  function GetFirstOfSplit(s: string, sep: string): (r: (string, string))
    requires SplitDefined(s, sep)
    ensures !Occurs(s, sep) ==> r == (s, [])
    ensures Occurs(s, sep) ==>
      |r.0| < |s| && s == r.0 + [s[|r.0|]] + r.1
      && OccursAt(s, sep, |r.0|)
      && forall i :: 0 <= i < |r.0| ==> !OccursAt(s, sep, i)
  {
    match Find(s, sep)
    case Some(p) =>
      assert s == s[..p] + [s[p]] + s[p + 1..];
      (s[..p], s[p + 1..])
    case None => (s, [])
  }

  /** A separator whose first character is ASCII never makes the split panic. */
  lemma AsciiSeparatorSplits(s: string, sep: string)
    requires sep != [] && Utf8Len(sep[0]) == 1
    ensures SplitDefined(s, sep)
  {
  }

  /** The first component never contains the separator. */
  lemma SplitHeadHasNoSeparator(s: string, sep: string)
    requires SplitDefined(s, sep) && Occurs(s, sep) && sep != []
    ensures !Occurs(GetFirstOfSplit(s, sep).0, sep)
  {
    var head := GetFirstOfSplit(s, sep).0;
    assert |head| < |s| && s[..|head|] == head by {
      assert s == head + [s[|head|]] + GetFirstOfSplit(s, sep).1;
    }
    forall i | 0 <= i <= |head| ensures !OccursAt(head, sep, i) {
      if i + |sep| <= |head| {
        assert !OccursAt(s, sep, i);
        assert s[i..i + |sep|] == head[i..i + |sep|];
      }
    }
  }

  /** With a one-character ASCII separator the split is exact: head, separator
      and tail put back together give the text. */
  lemma SingleCharSplitRoundTrip(s: string, c: char)
    requires Utf8Len(c) == 1 && c in s
    ensures SplitDefined(s, [c])
    ensures GetFirstOfSplit(s, [c]).0 + [c] + GetFirstOfSplit(s, [c]).1 == s
    ensures c !in GetFirstOfSplit(s, [c]).0
  {
    AsciiSeparatorSplits(s, [c]);
    SingleCharOccurs(s, c);
    var k :| 0 <= k < |s| && s[k] == c;
    assert OccursAt(s, [c], k);
    var r := GetFirstOfSplit(s, [c]);
    assert s[|r.0|] == c;
    assert s[..|r.0|] == r.0 by {
      assert s == r.0 + [s[|r.0|]] + r.1;
    }
    forall j | 0 <= j < |r.0| ensures r.0[j] != c {
      assert !OccursAt(s, [c], j);
    }
  }

  /** The case tests/tests.rs checks: the text before the first ':' and the text after it. */
  lemma GetFirstOfSplitExample(s: string)
    requires s == "First:Second:Third"
    ensures GetFirstOfSplit(s, ":") == ("First", "Second:Third")
  {
    SingleCharOccurs(s, ':');
    assert OccursAt(s, ":", 5);
    assert Find(s, ":") == Some(5);
    assert s[..5] == "First" && s[6..] == "Second:Third";
  }

  /** An absent separator leaves the text whole. */
  lemma GetFirstOfSplitAbsentExample(s: string)
    requires s == "First:Second:Third"
    ensures GetFirstOfSplit(s, "*") == (s, "")
  {
    SingleCharOccurs(s, '*');
    assert !Occurs(s, "*");
  }

  /** With a longer separator the tail keeps all but the first character of it:
      splitting "key=>value" at "=>" gives ("key", ">value"). */
  lemma GetFirstOfSplitKeepsSeparatorTail(s: string, sep: string)
    requires SplitDefined(s, sep) && Occurs(s, sep) && sep != []
    ensures sep[1..] == GetFirstOfSplit(s, sep).1[..|sep| - 1]
  {
  }

  lemma GetFirstOfSplitLongSeparatorExample(s: string)
    requires s == "key=>value"
    ensures GetFirstOfSplit(s, "=>") == ("key", ">value")
  {
    assert OccursAt(s, "=>", 3);
    forall i | 0 <= i < 3 ensures !OccursAt(s, "=>", i) {
      assert s[i..i + 2][0] == s[i];
    }
    assert Find(s, "=>") == Some(3);
    assert s[..3] == "key" && s[4..] == ">value";
  }

  /** The split the documentation describes ("the second part of the string
      after the separator"): the whole separator is skipped. Its result always
      reassembles the text, and it cannot panic. */
  function SplitAtFirst(s: string, sep: string): (r: (string, string))
    ensures !Occurs(s, sep) ==> r == (s, [])
    ensures Occurs(s, sep) ==>
      s == r.0 + sep + r.1
      && forall i :: 0 <= i < |r.0| ==> !OccursAt(s, sep, i)
  {
    match Find(s, sep)
    case Some(p) =>
      assert s == s[..p] + s[p..p + |sep|] + s[p + |sep|..];
      (s[..p], s[p + |sep|..])
    case None => (s, [])
  }

  /** The two splits agree on the head, and on the tail exactly when the
      separator is a single character. */
  lemma SplitAtFirstAgrees(s: string, sep: string)
    requires SplitDefined(s, sep)
    ensures SplitAtFirst(s, sep).0 == GetFirstOfSplit(s, sep).0
    ensures |sep| == 1 ==> SplitAtFirst(s, sep) == GetFirstOfSplit(s, sep)
  {
  }

  // ---------------------------------------------------------------------------
  // get_first_occurrance
  // ---------------------------------------------------------------------------

  /** `get_first_occurrance`: the text before the first occurrence of sep, or
      the empty string when sep does not occur. */
  function GetFirstOccurrance(s: string, sep: string): (r: string)
    ensures !Occurs(s, sep) ==> r == []
    ensures Occurs(s, sep) ==>
      |r| <= |s| && r == s[..|r|] && OccursAt(s, sep, |r|)
      && forall i :: 0 <= i < |r| ==> !OccursAt(s, sep, i)
  {
    match Find(s, sep)
    case Some(p) => s[..p]
    case None => []
  }

  /** When sep occurs, the prefix is the head of `get_first_of_split`. */
  lemma FirstOccurranceIsSplitHead(s: string, sep: string)
    requires SplitDefined(s, sep) && Occurs(s, sep)
    ensures GetFirstOccurrance(s, sep) == GetFirstOfSplit(s, sep).0
  {
  }

  /** The case tests/tests.rs checks: the prefix before the first ':'. */
  lemma GetFirstOccurranceExample(s: string)
    requires s == "First:Second:Third"
    ensures GetFirstOccurrance(s, ":") == "First"
  {
    SingleCharOccurs(s, ':');
    assert OccursAt(s, ":", 5);
    assert s[..5] == "First";
  }

  /** An absent separator gives the empty string. */
  lemma GetFirstOccurranceAbsentExample(s: string)
    requires s == "First:Second:Third"
    ensures GetFirstOccurrance(s, "*") == ""
  {
    SingleCharOccurs(s, '*');
    assert !Occurs(s, "*");
  }

  // ---------------------------------------------------------------------------
  // find_value_by_key
  // ---------------------------------------------------------------------------

  /** Where the first c in s is, if there is one. */
  function IndexOfChar(s: string, c: char): (r: Option<nat>)
    ensures r.None? <==> c !in s
    ensures r.Some? ==> r.value < |s| && s[r.value] == c && c !in s[..r.value]
    decreases |s|
  {
    if s == [] then None
    else if s[0] == c then Some(0)
    else match IndexOfChar(s[1..], c)
      case Some(i) =>
        assert s[..i + 1] == [s[0]] + s[1..][..i];
        Some(i + 1)
      case None => None
  }

  /** `str::split_once(delim)`: the text before and after the first delim. */
  function SplitOnce(item: string, delim: char): (r: Option<(string, string)>)
    ensures r.None? <==> delim !in item
    ensures r.Some? ==> item == r.value.0 + [delim] + r.value.1 && delim !in r.value.0
  {
    match IndexOfChar(item, delim)
    case Some(p) =>
      assert item == item[..p] + [delim] + item[p + 1..];
      Some((item[..p], item[p + 1..]))
    case None => None
  }

  /** The item is a `key=value` entry whose key (the text before its first '=') is key. */
  predicate HasKey(item: string, key: string) {
    match SplitOnce(item, '=')
    case Some(kv) => kv.0 == key
    case None => false
  }

  /** `find_value_by_key`: the value of the first entry whose key matches. */
  function FindValueByKey(kvPairs: seq<string>, key: string): (r: Option<string>)
    ensures r.Some? ==> exists i :: 0 <= i < |kvPairs| && kvPairs[i] == key + "=" + r.value
    decreases |kvPairs|
  {
    if kvPairs == [] then None
    else match SplitOnce(kvPairs[0], '=')
      case Some(kv) => if kv.0 == key then Some(kv.1) else FindValueByKey(kvPairs[1..], key)
      case None => FindValueByKey(kvPairs[1..], key)
  }

  /** The value found is that of the first matching entry: everything after
      the '=' that ends its key, further '=' characters included. */
  lemma {:induction false} FindValueByKeyFirstMatch(kvPairs: seq<string>, key: string, i: int)
    requires 0 <= i < |kvPairs| && HasKey(kvPairs[i], key)
    requires forall j :: 0 <= j < i ==> !HasKey(kvPairs[j], key)
    ensures kvPairs[i] == key + "=" + kvPairs[i][|key| + 1..]
    ensures FindValueByKey(kvPairs, key) == Some(kvPairs[i][|key| + 1..])
    decreases i
  {
    if i > 0 {
      assert !HasKey(kvPairs[0], key);
      FindValueByKeyFirstMatch(kvPairs[1..], key, i - 1);
    } else {
      var kv := SplitOnce(kvPairs[0], '=').value;
      assert kvPairs[0] == key + "=" + kv.1;
    }
  }

  /** Nothing is found exactly when no entry has the key. */
  lemma {:induction false} FindValueByKeyNone(kvPairs: seq<string>, key: string)
    ensures FindValueByKey(kvPairs, key) == None
      <==> forall j :: 0 <= j < |kvPairs| ==> !HasKey(kvPairs[j], key)
    decreases |kvPairs|
  {
    if kvPairs != [] {
      FindValueByKeyNone(kvPairs[1..], key);
      assert forall j :: 1 <= j < |kvPairs| ==> kvPairs[j] == kvPairs[1..][j - 1];
    }
  }

  /** An entry made of a key without '=', an '=' and any value splits back
      into that key and that value. */
  lemma SplitOnceJoin(item: string, key: string, value: string)
    requires '=' !in key && item == key + "=" + value
    ensures SplitOnce(item, '=') == Some((key, value))
  {
    var p := |key|;
    assert item[p] == '=';
    var kv := SplitOnce(item, '=').value;
    assert item[|kv.0|] == '=';
    assert forall j :: 0 <= j < p ==> item[j] == key[j];
    assert |kv.0| >= p;
    assert forall j :: 0 <= j < |kv.0| ==> kv.0[j] == item[j];
    assert |kv.0| <= p;
    assert item[..p] == key;
    assert item[p + 1..] == value;
  }

  /** The case tests/tests.rs checks: the lookup of a present key. */
  lemma FindValueByKeyFoundExample(a: string, b: string, c: string)
    requires a == "k1=a" && b == "k2=b" && c == "k3=c"
    ensures FindValueByKey([a, b, c], "k3") == Some("c")
  {
    SplitOnceJoin(a, "k1", "a");
    SplitOnceJoin(b, "k2", "b");
    SplitOnceJoin(c, "k3", "c");
    FindValueByKeyFirstMatch([a, b, c], "k3", 2);
    assert c[3..] == "c";
  }

  /** The case tests/tests.rs checks: the lookup of a missing key. */
  lemma FindValueByKeyMissingExample(a: string, b: string, c: string)
    requires a == "k1=a" && b == "k2=b" && c == "k3=c"
    ensures FindValueByKey([a, b, c], "k5") == None
  {
    SplitOnceJoin(a, "k1", "a");
    SplitOnceJoin(b, "k2", "b");
    SplitOnceJoin(c, "k3", "c");
    FindValueByKeyNone([a, b, c], "k5");
  }

  /** A value may itself contain '=': only the first '=' ends the key, and
      an entry without '=' is passed over. */
  lemma FindValueByKeyValueWithEquals(a: string, b: string)
    requires a == "flag" && b == "a=b=c"
    ensures FindValueByKey([a, b], "a") == Some("b=c")
  {
    SplitOnceJoin(b, "a", "b=c");
    assert SplitOnce(a, '=') == None;
    FindValueByKeyFirstMatch([a, b], "a", 1);
    assert b[2..] == "b=c";
  }

  // ---------------------------------------------------------------------------
  // remove_char
  // ---------------------------------------------------------------------------

  /** `chars().take(n)`: the first n characters, or all when there are fewer. */
  function Take(s: string, n: nat): (r: string)
    ensures |r| == if n < |s| then n else |s|
    ensures r == s[..|r|]
  {
    if n < |s| then s[..n] else s
  }

  /** `remove_char`, as written. Removing the last character keeps the first
      `input.len() - 1` characters, where `len` counts bytes. */
  function RemoveChar(begin: bool, input: string, target: char): (r: string)
    ensures !TargetAtEnd(begin, input, target) ==> r == input
    ensures TargetAtEnd(begin, input, target) && begin ==> [target] + r == input
    ensures !begin ==> |r| <= |input| && r == input[..|r|]
  {
    if !TargetAtEnd(begin, input, target) then input
    else if begin then input[1..]
    else Take(input, ByteLen(input) - 1)
  }

  /** On ASCII text, removing a matching last character drops exactly it. */
  lemma RemoveLastAscii(input: string, target: char)
    requires input != [] && input[|input| - 1] == target && IsAscii(input)
    ensures RemoveChar(false, input, target) + [target] == input
  {
  }

  /** On text with any multi-byte character, the byte length exceeds the
      character count, so nothing is removed at the end. */
  lemma RemoveLastNonAsciiKeepsInput(input: string, target: char)
    requires input != [] && input[|input| - 1] == target && !IsAscii(input)
    ensures RemoveChar(false, input, target) == input
  {
  }

  lemma RemoveCharExamples()
    ensures RemoveChar(true, "hello", 'h') == "ello"
    ensures RemoveChar(false, "world!", '!') == "world"
    ensures RemoveChar(true, "rust", 'x') == "rust"
    ensures RemoveChar(false, "café!", '!') == "café!"
  {
    assert IsAscii("world!");
    assert "café!"[3] as int >= 0x80;
    RemoveLastNonAsciiKeepsInput("café!", '!');
  }

  /** The character `remove_char` is asked about is there: `starts_with`
      when begin holds, `ends_with` otherwise. */
  predicate TargetAtEnd(begin: bool, input: string, target: char) {
    input != [] && (if begin then input[0] == target else input[|input| - 1] == target)
  }

  /** `remove_char` as its documentation describes it: a matching last
      character is removed whatever the text's encoding length. */
  function RemoveCharIntended(begin: bool, input: string, target: char): (r: string)
    ensures TargetAtEnd(begin, input, target) && begin ==> [target] + r == input
    ensures TargetAtEnd(begin, input, target) && !begin ==> r + [target] == input
    ensures !TargetAtEnd(begin, input, target) ==> r == input
  {
    if !TargetAtEnd(begin, input, target) then input
    else if begin then input[1..]
    else input[..|input| - 1]
  }

  /** The intended and the written removal agree on ASCII text. */
  lemma RemoveCharAgreesOnAscii(begin: bool, input: string, target: char)
    requires IsAscii(input)
    ensures RemoveChar(begin, input, target) == RemoveCharIntended(begin, input, target)
  {
  }
}
