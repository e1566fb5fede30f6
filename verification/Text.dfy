/** Python's whitespace handling on character sequences: `strip`, `split` and `" ".join`. */
module Text {

  predicate IsSpace(c: char) {
    c == ' ' || '\t' <= c <= '\r' || '\U{1c}' <= c <= '\U{1f}'
  }

  predicate IsLetterOrUnderscore(c: char) {
    'A' <= c <= 'Z' || 'a' <= c <= 'z' || c == '_'
  }

  predicate IsWordChar(c: char) {
    IsLetterOrUnderscore(c) || '0' <= c <= '9'
  }

  /** The pattern `[A-Za-z_][A-Za-z0-9_]*`, matched in full. */
  predicate IsIdentifier(s: string) {
    s != "" && IsLetterOrUnderscore(s[0]) && forall i :: 0 <= i < |s| ==> IsWordChar(s[i])
  }

  function StripLeft(s: string): string {
    if s != "" && IsSpace(s[0]) then StripLeft(s[1..]) else s
  }

  function StripRight(s: string): string {
    if s != "" && IsSpace(s[|s| - 1]) then StripRight(s[..|s| - 1]) else s
  }

  function Strip(s: string): string {
    StripRight(StripLeft(s))
  }

  predicate Trimmed(s: string) {
    s != "" ==> !IsSpace(s[0]) && !IsSpace(s[|s| - 1])
  }

  predicate AllSpace(s: string) {
    forall i :: 0 <= i < |s| ==> IsSpace(s[i])
  }

  lemma {:induction false} StripLeftExact(s: string)
    ensures |StripLeft(s)| <= |s| && StripLeft(s) == s[|s| - |StripLeft(s)|..]
    ensures StripLeft(s) != "" ==> !IsSpace(StripLeft(s)[0])
    ensures AllSpace(s[..|s| - |StripLeft(s)|])
  {
    if s != "" && IsSpace(s[0]) {
      StripLeftExact(s[1..]);
      var n := |s| - |StripLeft(s)|;
      assert s[..n] == [s[0]] + s[1..][..n - 1];
    }
  }

  lemma {:induction false} StripRightExact(s: string)
    ensures |StripRight(s)| <= |s| && StripRight(s) == s[..|StripRight(s)|]
    ensures StripRight(s) != "" ==> !IsSpace(StripRight(s)[|StripRight(s)| - 1])
    ensures AllSpace(s[|StripRight(s)|..])
  {
    if s != "" && IsSpace(s[|s| - 1]) {
      StripRightExact(s[..|s| - 1]);
      var n := |StripRight(s)|;
      assert s[n..] == s[..|s| - 1][n..] + [s[|s| - 1]];
    }
  }

  lemma {:induction false} StripSplits(s: string) returns (a: string, b: string)
    ensures s == a + Strip(s) + b && AllSpace(a) && AllSpace(b)
  {
    StripLeftExact(s);
    var l := StripLeft(s);
    StripRightExact(l);
    a, b := s[..|s| - |l|], l[|StripRight(l)|..];
    assert s == a + l && l == StripRight(l) + b;
    assert a + (StripRight(l) + b) == a + StripRight(l) + b;
  }

  lemma {:induction false} StripTrims(s: string)
    ensures Trimmed(Strip(s))
  {
    StripLeftExact(s);
    StripRightExact(StripLeft(s));
    var l, r := StripLeft(s), StripRight(StripLeft(s));
    assert r != "" ==> r[0] == l[0];
  }

  /** Only whitespace is taken away, and all of it at both ends. */
  lemma {:induction false} StripExact(s: string)
    ensures Trimmed(Strip(s))
    ensures exists a, b :: s == a + Strip(s) + b && AllSpace(a) && AllSpace(b)
  {
    StripTrims(s);
    var a, b := StripSplits(s);
  }

  lemma {:induction false} StripIdentity(s: string)
    requires Trimmed(s)
    ensures Strip(s) == s
  {
  }

  /** Length of the longest prefix without whitespace. */
  function WordLength(s: string): (n: nat)
    ensures n <= |s|
    ensures forall i :: 0 <= i < n ==> !IsSpace(s[i])
    ensures n < |s| ==> IsSpace(s[n])
  {
    if s == "" || IsSpace(s[0]) then 0 else 1 + WordLength(s[1..])
  }

  /** `s.split()`: the maximal runs without whitespace. */
  function Words(s: string): seq<string> {
    if s == "" then []
    else if IsSpace(s[0]) then Words(s[1..])
    else
      var n := WordLength(s);
      [s[..n]] + Words(s[n..])
  }

  function Join(parts: seq<string>, separator: string): string {
    if parts == [] then ""
    else if |parts| == 1 then parts[0]
    else parts[0] + separator + Join(parts[1..], separator)
  }

  /** `" ".join(s.split())` */
  function Normalize(s: string): string {
    Join(Words(s), " ")
  }

  /** Single inner spaces only, none at the ends. */
  predicate Normalized(s: string) {
    forall i :: 0 <= i < |s| && IsSpace(s[i]) ==>
      s[i] == ' ' && 0 < i < |s| - 1 && !IsSpace(s[i - 1]) && !IsSpace(s[i + 1])
  }

  lemma {:induction false} NormalizeIdentity(s: string)
    requires Normalized(s)
    ensures Normalize(s) == s
  {
    if s != "" {
      var n := WordLength(s);
      if n == |s| {
        assert s[..n] == s && s[n..] == "" && Words(s) == [s];
      } else {
        var rest := s[n + 1..];
        assert rest[0] == s[n + 1];
        assert s[n..][1..] == rest;
        forall i | 0 <= i < |rest| && IsSpace(rest[i])
          ensures rest[i] == ' ' && 0 < i < |rest| - 1 && !IsSpace(rest[i - 1]) && !IsSpace(rest[i + 1])
        {
          assert rest[i] == s[n + 1 + i];
        }
        NormalizeIdentity(rest);
        assert s == s[..n] + " " + rest;
      }
    }
  }

  lemma {:induction false} NormalizedSpace(a: string, b: string)
    requires Normalized(a) && Normalized(b) && a != "" && b != ""
    ensures Normalized(a + " " + b)
  {
    var s := a + " " + b;
    assert !IsSpace(a[|a| - 1]) && !IsSpace(b[0]);
    forall i | 0 <= i < |s| && IsSpace(s[i])
      ensures s[i] == ' ' && 0 < i < |s| - 1 && !IsSpace(s[i - 1]) && !IsSpace(s[i + 1])
    {
      if i < |a| {
        assert IsSpace(a[i]);
      } else if i > |a| {
        assert IsSpace(b[i - |a| - 1]);
      }
    }
  }

  predicate IsWord(s: string) {
    s != "" && forall i :: 0 <= i < |s| ==> !IsSpace(s[i])
  }

  lemma {:induction false} WordsAreWords(s: string)
    ensures forall i :: 0 <= i < |Words(s)| ==> IsWord(Words(s)[i])
    decreases |s|
  {
    if s != "" {
      if IsSpace(s[0]) {
        WordsAreWords(s[1..]);
      } else {
        var n := WordLength(s);
        WordsAreWords(s[n..]);
      }
    }
  }

  lemma {:induction false} JoinedWords(words: seq<string>)
    requires forall i :: 0 <= i < |words| ==> IsWord(words[i])
    ensures Normalized(Join(words, " ")) && (words != [] ==> Join(words, " ") != "")
  {
    if |words| > 1 {
      JoinedWords(words[1..]);
      NormalizedSpace(words[0], Join(words[1..], " "));
    }
  }

  /** The result of splitting and joining is spelled normally, so that doing it again changes nothing. */
  lemma {:induction false} NormalizeNormal(s: string)
    ensures Normalized(Normalize(s)) && Normalize(Normalize(s)) == Normalize(s)
  {
    WordsAreWords(s);
    JoinedWords(Words(s));
    NormalizeIdentity(Normalize(s));
  }

  /** The text is made of these words with spaces around and between them. */
  ghost predicate MadeOf(s: string, words: seq<string>)
    decreases |words|
  {
    if words == [] then AllSpace(s)
    else
      exists a, rest :: AllSpace(a) && s == a + words[0] + rest && MadeOf(rest, words[1..])
                     && (rest == "" || IsSpace(rest[0]))
  }

  /** `split` finds exactly the words that the text is made of. */
  lemma {:induction false} WordsExact(s: string)
    ensures MadeOf(s, Words(s))
    ensures forall i :: 0 <= i < |Words(s)| ==> IsWord(Words(s)[i])
    decreases |s|
  {
    WordsAreWords(s);
    if s != "" {
      if IsSpace(s[0]) {
        WordsExact(s[1..]);
        SpaceBefore(s[0], s[1..], Words(s[1..]));
        assert s == [s[0]] + s[1..];
      } else {
        var n := WordLength(s);
        WordsExact(s[n..]);
        WordBefore(s[..n], s[n..], Words(s[n..]));
        assert s == s[..n] + s[n..];
      }
    }
  }

  lemma {:induction false} MadeOfFirst(a: string, word: string, s: string, words: seq<string>)
    requires AllSpace(a) && MadeOf(s, words) && (s == "" || IsSpace(s[0]))
    ensures MadeOf(a + word + s, [word] + words)
  {
    assert ([word] + words)[1..] == words;
  }

  lemma {:induction false} WordBefore(word: string, s: string, words: seq<string>)
    requires MadeOf(s, words) && (s == "" || IsSpace(s[0]))
    ensures MadeOf(word + s, [word] + words)
  {
    MadeOfFirst("", word, s, words);
    assert "" + word + s == word + s;
  }

  lemma {:induction false} SpaceBefore(c: char, s: string, words: seq<string>)
    requires IsSpace(c) && MadeOf(s, words)
    ensures MadeOf([c] + s, words)
  {
    if words != [] {
      var a, rest :| AllSpace(a) && s == a + words[0] + rest && MadeOf(rest, words[1..])
                  && (rest == "" || IsSpace(rest[0]));
      MadeOfFirst([c] + a, words[0], rest, words[1..]);
      MoreBefore([c], a, words[0], rest);
      assert words == [words[0]] + words[1..];
    }
  }

  lemma {:induction false} MoreBefore(more: string, a: string, word: string, rest: string)
    ensures more + (a + word + rest) == (more + a) + word + rest
  {
  }
}
