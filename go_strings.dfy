/**
 * The few functions of Go's strings and unicode packages that the
 * restore-status parser relies on. Strings are sequences of code points;
 * every separator used here is a single ASCII character, so splitting at a
 * code point is the same as Go's splitting of the UTF-8 bytes.
 */
module GoStrings {

  /** strings.Index with a one-character separator: the first position of c, or -1. */
  function Index(s: string, c: char): (i: int)
    ensures -1 <= i < |s|
    ensures i == -1 <==> c !in s
    ensures 0 <= i ==> s[i] == c && c !in s[..i]
  {
    if |s| == 0 then -1
    else if s[0] == c then 0
    else
      var j := Index(s[1..], c);
      if j < 0 then -1 else j + 1
  }

  /** strings.SplitN(s, sep, 2): s cut at the first separator, or s alone. */
  function Cut(s: string, sep: char): (r: seq<string>)
    ensures |r| == 1 || |r| == 2
    ensures |r| == 2 <==> sep in s
    ensures |r| == 1 ==> r[0] == s
    ensures |r| == 2 ==> s == r[0] + [sep] + r[1] && sep !in r[0]
  {
    var i := Index(s, sep);
    if i < 0 then [s]
    else
      assert s == s[..i] + [sep] + s[i + 1..];
      [s[..i], s[i + 1..]]
  }

  /** The first occurrence of c is at or before any occurrence. */
  lemma {:induction false} IndexAtMost(s: string, c: char, k: nat)
    requires k < |s| && s[k] == c
    ensures 0 <= Index(s, c) <= k
  {
    if s[0] != c {
      IndexAtMost(s[1..], c, k - 1);
    }
  }

  /** Text without the separator is not cut. */
  lemma CutWithoutSeparator(s: string, sep: char)
    requires sep !in s
    ensures Cut(s, sep) == [s]
  {
  }

  /** Cutting at the first separator recovers the text before it and after it. */
  lemma CutAt(head: string, tail: string, sep: char)
    requires sep !in head
    ensures Cut(head + [sep] + tail, sep) == [head, tail]
  {
    var s := head + [sep] + tail;
    IndexAtMost(s, sep, |head|);
    var i := Index(s, sep);
    assert forall k :: 0 <= k < |head| ==> s[k] == head[k];
    assert i == |head|;
    assert s[..i] == head && s[i + 1..] == tail;
  }

  /** The pieces joined again with the separator between them. */
  function Join(pieces: seq<string>, sep: char): (s: string)
    requires |pieces| >= 1
  {
    if |pieces| == 1 then pieces[0] else pieces[0] + [sep] + Join(pieces[1..], sep)
  }

  /** strings.Split(s, sep): every piece between separators, including empty ones. */
  function Split(s: string, sep: char): (r: seq<string>)
    ensures |r| >= 1
    ensures forall k :: 0 <= k < |r| ==> sep !in r[k]
    ensures Join(r, sep) == s
    decreases |s|
  {
    var i := Index(s, sep);
    if i < 0 then [s]
    else
      var rest := Split(s[i + 1..], sep);
      assert ([s[..i]] + rest)[1..] == rest;
      assert s == s[..i] + [sep] + s[i + 1..];
      [s[..i]] + rest
  }

  /** Split inverts Join on pieces that hold no separator. */
  lemma {:induction false} SplitJoin(pieces: seq<string>, sep: char)
    requires |pieces| >= 1
    requires forall k :: 0 <= k < |pieces| ==> sep !in pieces[k]
    ensures Split(Join(pieces, sep), sep) == pieces
    decreases |pieces|
  {
    var s := Join(pieces, sep);
    if |pieces| > 1 {
      var head := pieces[0];
      var tail := Join(pieces[1..], sep);
      assert s == head + [sep] + tail;
      assert Index(s, sep) == |head| by {
        assert s[|head|] == sep;
        assert s[..|head|] == head;
      }
      assert s[|head| + 1..] == tail;
      SplitJoin(pieces[1..], sep);
      assert [head] + pieces[1..] == pieces;
    }
  }

  /** unicode.IsSpace: the white-space code points of Unicode. */
  predicate IsSpace(c: char)
  {
    var n := c as int;
    (9 <= n <= 13) || n == 32 || n == 0x85 || n == 0xA0 || n == 0x1680 ||
    (0x2000 <= n <= 0x200A) || n == 0x2028 || n == 0x2029 || n == 0x202F ||
    n == 0x205F || n == 0x3000
  }

  function TrimLeft(s: string): (r: string)
    ensures |r| <= |s| && r == s[|s| - |r|..]
    ensures r == [] || !IsSpace(r[0])
    ensures forall k :: 0 <= k < |s| - |r| ==> IsSpace(s[k])
  {
    if |s| > 0 && IsSpace(s[0]) then TrimLeft(s[1..]) else s
  }

  function TrimRight(s: string): (r: string)
    ensures |r| <= |s| && r == s[..|r|]
    ensures r == [] || !IsSpace(r[|r| - 1])
    ensures forall k :: |r| <= k < |s| ==> IsSpace(s[k])
  {
    if |s| > 0 && IsSpace(s[|s| - 1]) then TrimRight(s[..|s| - 1]) else s
  }

  /** strings.TrimSpace: s without its leading and trailing white space. */
  function TrimSpace(s: string): (r: string)
    ensures r == [] || (!IsSpace(r[0]) && !IsSpace(r[|r| - 1]))
  {
    TrimRight(TrimLeft(s))
  }

  /** White space around a word that neither starts nor ends with white space is all TrimSpace removes. */
  lemma TrimSpaceOfPadded(before: string, word: string, after: string)
    requires forall k :: 0 <= k < |before| ==> IsSpace(before[k])
    requires forall k :: 0 <= k < |after| ==> IsSpace(after[k])
    requires word != [] && !IsSpace(word[0]) && !IsSpace(word[|word| - 1])
    ensures TrimSpace(before + word + after) == word
  {
    assert before + word + after == before + (word + after);
    TrimLeftOfPadded(before, word + after);
    TrimRightOfPadded(word, after);
  }

  lemma {:induction false} TrimLeftOfPadded(before: string, rest: string)
    requires forall k :: 0 <= k < |before| ==> IsSpace(before[k])
    requires rest != [] && !IsSpace(rest[0])
    ensures TrimLeft(before + rest) == rest
  {
    if before == [] {
      assert before + rest == rest;
    } else {
      assert (before + rest)[1..] == before[1..] + rest;
      TrimLeftOfPadded(before[1..], rest);
    }
  }

  lemma {:induction false} TrimRightOfPadded(word: string, after: string)
    requires forall k :: 0 <= k < |after| ==> IsSpace(after[k])
    requires word != [] && !IsSpace(word[|word| - 1])
    ensures TrimRight(word + after) == word
    decreases |after|
  {
    if after == [] {
      assert word + after == word;
    } else {
      var shorter := after[..|after| - 1];
      assert (word + after)[..|word + after| - 1] == word + shorter;
      TrimRightOfPadded(word, shorter);
    }
  }
}
