/** String helpers with Python's semantics: the whitespace `str.split()` breaks on,
    whitespace splitting itself, and the longest prefix free of a character. */
module Text {

  /** The characters for which Python's `str.isspace()` holds, which are exactly
      the separators of `str.split()` without arguments. */
  predicate IsSpace(c: char)
  {
    var n := c as int;
    || 9 <= n <= 13
    || 28 <= n <= 32
    || n == 0x85
    || n == 0xA0
    || n == 0x1680
    || 0x2000 <= n <= 0x200A
    || n == 0x2028
    || n == 0x2029
    || n == 0x202F
    || n == 0x205F
    || n == 0x3000
  }

  predicate NoSpace(s: string)
  {
    forall i :: 0 <= i < |s| ==> !IsSpace(s[i])
  }

  /** A word of a split: non-empty and free of whitespace. */
  predicate IsWord(w: string)
  {
    w != [] && NoSpace(w)
  }

  /** Length of the longest prefix of `s` without `c`. */
  function PrefixLengthWithout(s: string, c: char): (k: nat)
    ensures k <= |s|
    ensures c !in s[..k]
    ensures k == |s| || s[k] == c
  {
    if s == [] || s[0] == c then 0
    else
      var k := 1 + PrefixLengthWithout(s[1..], c);
      assert s[..k] == [s[0]] + s[1..][..k - 1];
      k
  }

  /** Length of the leading run of non-whitespace characters of `s`. */
  function WordLength(s: string): (k: nat)
    ensures k <= |s|
    ensures forall i :: 0 <= i < k ==> !IsSpace(s[i])
    ensures k == |s| || IsSpace(s[k])
  {
    if s == [] || IsSpace(s[0]) then 0
    else 1 + WordLength(s[1..])
  }

  /** Python's `s.split()`: the maximal runs of non-whitespace, in order. */
  function Split(s: string): (words: seq<string>)
    ensures forall i :: 0 <= i < |words| ==> IsWord(words[i])
    decreases |s|
  {
    if s == [] then []
    else if IsSpace(s[0]) then Split(s[1..])
    else
      var k := WordLength(s);
      [s[..k]] + Split(s[k..])
  }

  /** The words joined by single spaces, as `" ".join(words)`. */
  function JoinWords(words: seq<string>): string
  {
    if |words| == 0 then ""
    else if |words| == 1 then words[0]
    else words[0] + " " + JoinWords(words[1..])
  }

  lemma {:induction false} WordLengthOfWord(w: string, rest: string)
    requires NoSpace(w)
    requires rest == [] || IsSpace(rest[0])
    ensures WordLength(w + rest) == |w|
    decreases |w|
  {
    if w != [] {
      assert (w + rest)[1..] == w[1..] + rest;
      WordLengthOfWord(w[1..], rest);
    }
  }

  /** A leading whitespace character does not change the split. */
  lemma SplitSkipsSpace(c: char, s: string)
    requires IsSpace(c)
    ensures Split([c] + s) == Split(s)
  {
    assert ([c] + s)[1..] == s;
  }

  /** A word followed by whitespace or nothing is the first word of the split. */
  lemma SplitAfterWord(w: string, rest: string)
    requires IsWord(w)
    requires rest == [] || IsSpace(rest[0])
    ensures Split(w + rest) == [w] + Split(rest)
  {
    var s := w + rest;
    assert s[0] == w[0];
    WordLengthOfWord(w, rest);
    assert s[..|w|] == w;
    assert s[|w|..] == rest;
  }

  /** Splitting undoes joining with single spaces. */
  lemma {:induction false} SplitJoin(words: seq<string>)
    requires forall i :: 0 <= i < |words| ==> IsWord(words[i])
    ensures Split(JoinWords(words)) == words
    decreases |words|
  {
    if |words| == 0 {
    } else if |words| == 1 {
      SplitAfterWord(words[0], "");
      assert words[0] + "" == words[0];
    } else {
      var tail := JoinWords(words[1..]);
      var joined := JoinWords(words);
      assert joined == words[0] + ([' '] + tail);
      SplitAfterWord(words[0], [' '] + tail);
      assert Split(joined) == [words[0]] + Split([' '] + tail);
      SplitSkipsSpace(' ', tail);
      SplitJoin(words[1..]);
      assert words == [words[0]] + words[1..];
    }
  }

  /** Two words separated by a space start the split, whatever follows a
      further space. */
  lemma SplitTwoWords(first: string, second: string, rest: string)
    requires IsWord(first) && IsWord(second)
    ensures |Split(first + " " + second + " " + rest)| >= 2
    ensures Split(first + " " + second + " " + rest)[0] == first
    ensures Split(first + " " + second + " " + rest)[1] == second
  {
    var tail := [' '] + rest;
    var afterFirst := [' '] + (second + tail);
    assert first + " " + second + " " + rest == first + afterFirst;
    SplitAfterWord(first, afterFirst);
    SplitSkipsSpace(' ', second + tail);
    SplitAfterWord(second, tail);
  }
}
