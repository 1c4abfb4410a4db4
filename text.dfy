/** The Python string operations the request parsers are built from:
    str.isspace, str.strip, str.split(sep), str.split() and str.count. */
module Text {

  /** Python's str.isspace() on one character. */
  predicate IsSpace(c: char) {
    || c == ' ' || c == '\t' || c == '\n' || c == '\r' || c == '\U{0B}' || c == '\U{0C}'
    || ('\U{1C}' <= c <= '\U{1F}') || c == '\U{85}' || c == '\U{A0}' || c == '\U{1680}'
    || ('\U{2000}' <= c <= '\U{200A}') || c == '\U{2028}' || c == '\U{2029}'
    || c == '\U{202F}' || c == '\U{205F}' || c == '\U{3000}'
  }

  /** Python truthiness of s.strip(): false exactly when s is all whitespace. */
  predicate Blank(s: string) {
    forall i | 0 <= i < |s| :: IsSpace(s[i])
  }

  predicate NoSpace(s: string) {
    forall i | 0 <= i < |s| :: !IsSpace(s[i])
  }

  /** No leading and no trailing whitespace. */
  predicate Stripped(s: string) {
    s == [] || (!IsSpace(s[0]) && !IsSpace(s[|s| - 1]))
  }

  predicate StartsWith(s: string, prefix: string) {
    |prefix| <= |s| && s[..|prefix|] == prefix
  }

  /** `needle` occurs in `s` at position i. */
  predicate OccursAt(s: string, needle: string, i: int) {
    0 <= i <= |s| - |needle| && s[i..i + |needle|] == needle
  }

  /** `needle` occurs somewhere in `s`. */
  predicate Contains(s: string, needle: string) {
    exists i | 0 <= i <= |s| - |needle| :: OccursAt(s, needle, i)
  }

  function StripLeft(s: string): (r: string)
    ensures |r| <= |s|
    ensures r == [] || !IsSpace(r[0])
  {
    if |s| > 0 && IsSpace(s[0]) then StripLeft(s[1..]) else s
  }

  /** StripLeft keeps a suffix of s, and the prefix it drops is whitespace. */
  lemma {:induction false} StripLeftSuffix(s: string)
    ensures StripLeft(s) == s[|s| - |StripLeft(s)|..]
    ensures Blank(s[..|s| - |StripLeft(s)|])
    decreases |s|
  {
    if |s| > 0 && IsSpace(s[0]) {
      var t := s[1..];
      StripLeftSuffix(t);
      var k := |t| - |StripLeft(t)|;
      assert t[k..] == s[k + 1..];
      assert s[..k + 1] == [s[0]] + t[..k];
    }
  }

  /** StripLeft keeps a suffix of s and drops only whitespace. */
  lemma StripLeftFacts(s: string)
    ensures forall i | 0 <= i < |StripLeft(s)| :: StripLeft(s)[i] == s[|s| - |StripLeft(s)| + i]
    ensures forall i | 0 <= i < |s| - |StripLeft(s)| :: IsSpace(s[i])
  {
    StripLeftSuffix(s);
    var k := |s| - |StripLeft(s)|;
    assert forall i | 0 <= i < k :: s[..k][i] == s[i];
  }

  function StripRight(s: string): (r: string)
    ensures |r| <= |s|
    ensures r == [] || !IsSpace(r[|r| - 1])
  {
    if |s| > 0 && IsSpace(s[|s| - 1]) then StripRight(s[..|s| - 1]) else s
  }

  /** StripRight keeps a prefix of s and drops only whitespace. */
  lemma {:induction false} StripRightFacts(s: string)
    ensures forall i | 0 <= i < |StripRight(s)| :: StripRight(s)[i] == s[i]
    ensures forall i | |StripRight(s)| <= i < |s| :: IsSpace(s[i])
    decreases |s|
  {
    if |s| > 0 && IsSpace(s[|s| - 1]) {
      StripRightFacts(s[..|s| - 1]);
    }
  }

  /** Python's s.strip(): the result is empty exactly when s is blank, and
      otherwise it starts and ends with a non-whitespace character. */
  function Strip(s: string): (r: string)
    ensures r == [] <==> Blank(s)
    ensures Stripped(r)
    ensures |r| <= |s|
  {
    StripBothEnds(s);
    StripRight(StripLeft(s))
  }

  /** Stripping the left and then the right end leaves nothing exactly when
      every character is whitespace, and otherwise no whitespace at either end. */
  lemma StripBothEnds(s: string)
    ensures StripRight(StripLeft(s)) == [] <==> Blank(s)
    ensures Stripped(StripRight(StripLeft(s)))
  {
    var l := StripLeft(s);
    var r := StripRight(l);
    assert r == [] <==> Blank(s) by {
      StripLeftFacts(s);
      StripRightFacts(l);
      if l != [] {
        assert s[|s| - |l|] == l[0];
      }
    }
    if r != [] {
      StripRightFacts(l);
      assert r[0] == l[0];
    }
  }

  /** Strip leaves an already stripped string alone. */
  lemma StripStripped(s: string)
    requires Stripped(s)
    ensures Strip(s) == s
  {
  }

  /** Python's s.split(sep) for a non-empty separator: the pieces between the
      leftmost non-overlapping occurrences of sep; there is always at least
      one piece. */
  function SplitOn(s: string, sep: string): (r: seq<string>)
    requires |sep| > 0
    ensures |r| >= 1
    decreases |s|
  {
    if |s| < |sep| then [s]
    else if s[..|sep|] == sep then [""] + SplitOn(s[|sep|..], sep)
    else
      var rest := SplitOn(s[1..], sep);
      [[s[0]] + rest[0]] + rest[1..]
  }

  /** Python's sep.join(parts). */
  function Join(parts: seq<string>, sep: string): (r: string)
    requires |parts| >= 1
    decreases |parts|
  {
    if |parts| == 1 then parts[0] else parts[0] + sep + Join(parts[1..], sep)
  }

  /** Splitting and joining back with the same separator restores the string. */
  lemma {:induction false} JoinSplitOn(s: string, sep: string)
    requires |sep| > 0
    ensures Join(SplitOn(s, sep), sep) == s
    decreases |s|
  {
    if |s| < |sep| {
    } else if s[..|sep|] == sep {
      var tail := SplitOn(s[|sep|..], sep);
      assert SplitOn(s, sep) == [""] + tail;
      JoinSplitOn(s[|sep|..], sep);
      JoinCons("", tail, sep);
      assert s == sep + s[|sep|..];
    } else {
      var rest := SplitOn(s[1..], sep);
      assert SplitOn(s, sep) == [[s[0]] + rest[0]] + rest[1..];
      JoinSplitOn(s[1..], sep);
      JoinExtendFirst(s[0], rest, sep);
      assert s == [s[0]] + s[1..];
    }
  }

  lemma JoinCons(p: string, parts: seq<string>, sep: string)
    requires |parts| >= 1
    ensures Join([p] + parts, sep) == p + sep + Join(parts, sep)
  {
    assert ([p] + parts)[1..] == parts;
  }

  /** Prepending a character to the first piece prepends it to the join. */
  lemma JoinExtendFirst(c: char, parts: seq<string>, sep: string)
    requires |parts| >= 1
    ensures Join([[c] + parts[0]] + parts[1..], sep) == [c] + Join(parts, sep)
  {
    var r := [[c] + parts[0]] + parts[1..];
    if |parts| > 1 {
      assert r[1..] == parts[1..];
    }
  }

  /** No occurrence of sep starts inside `p` when `p` is followed by sep:
      the first piece split off from p + sep + rest is then exactly p. */
  predicate FirstOccurrenceAfter(p: string, sep: string) {
    forall j | 0 <= j < |p| :: !StartsWith((p + sep)[j..], sep)
  }

  lemma {:induction false} SplitOnPrefix(p: string, sep: string, rest: string)
    requires |sep| > 0
    requires FirstOccurrenceAfter(p, sep)
    ensures SplitOn(p + sep + rest, sep) == [p] + SplitOn(rest, sep)
    decreases |p|
  {
    var s := p + sep + rest;
    if |p| == 0 {
      assert s[..|sep|] == sep;
      assert s[|sep|..] == rest;
    } else {
      assert (p + sep)[0..][..|sep|] == s[..|sep|];
      assert s[..|sep|] != sep;
      var p' := p[1..];
      forall j | 0 <= j < |p'| ensures !StartsWith((p' + sep)[j..], sep) {
        assert (p' + sep)[j..] == (p + sep)[j + 1..];
      }
      SplitOnPrefix(p', sep, rest);
      assert s[1..] == p' + sep + rest;
      assert [s[0]] + p' == p;
    }
  }

  /** A separator of one character, or of two different characters, cannot
      straddle the end of a piece that does not contain it. */
  lemma FirstOccurrenceShortSep(p: string, sep: string)
    requires 1 <= |sep| <= 2 && (|sep| == 2 ==> sep[0] != sep[1])
    requires !Contains(p, sep)
    ensures FirstOccurrenceAfter(p, sep)
  {
    forall j | 0 <= j < |p| ensures !StartsWith((p + sep)[j..], sep) {
      var t := (p + sep)[j..];
      if j + |sep| <= |p| {
        assert t[..|sep|] == p[j..j + |sep|];
        assert !OccursAt(p, sep, j);
      } else {
        assert |sep| == 2 && j == |p| - 1;
        assert t[0] == p[j] && t[1] == sep[0];
      }
    }
  }

  /** Joining pieces that do not contain a short separator and splitting on
      it gives the pieces back. */
  lemma {:induction false} SplitOnJoin(parts: seq<string>, sep: string)
    requires |parts| >= 1
    requires 1 <= |sep| <= 2 && (|sep| == 2 ==> sep[0] != sep[1])
    requires forall k | 0 <= k < |parts| :: !Contains(parts[k], sep)
    ensures SplitOn(Join(parts, sep), sep) == parts
    decreases |parts|
  {
    if |parts| == 1 {
      NoSeparatorOnePiece(parts[0], sep);
    } else {
      FirstOccurrenceShortSep(parts[0], sep);
      SplitOnPrefix(parts[0], sep, Join(parts[1..], sep));
      SplitOnJoin(parts[1..], sep);
    }
  }

  /** A string that does not contain the separator splits into itself. */
  lemma {:induction false} NoSeparatorOnePiece(s: string, sep: string)
    requires |sep| > 0
    requires !Contains(s, sep)
    ensures SplitOn(s, sep) == [s]
    decreases |s|
  {
    if |s| >= |sep| {
      assert s[..|sep|] != sep by {
        assert s[0..0 + |sep|] == s[..|sep|];
        assert !OccursAt(s, sep, 0);
      }
      assert !Contains(s[1..], sep) by {
        forall i ensures !OccursAt(s[1..], sep, i) {
          if 0 <= i <= |s[1..]| - |sep| {
            assert s[1..][i..i + |sep|] == s[i + 1..i + 1 + |sep|];
            assert !OccursAt(s, sep, i + 1);
          }
        }
      }
      NoSeparatorOnePiece(s[1..], sep);
      assert [s[0]] + s[1..] == s;
    }
  }

  /** Length of the leading run of non-whitespace characters. */
  function TokenLength(s: string): (n: nat)
    ensures n <= |s|
    ensures NoSpace(s[..n])
    ensures n < |s| ==> IsSpace(s[n])
  {
    if |s| == 0 || IsSpace(s[0]) then 0 else 1 + TokenLength(s[1..])
  }

  /** Python's s.split() with no argument: the maximal runs of
      non-whitespace characters, in order. */
  function Words(s: string): (r: seq<string>)
    ensures forall k | 0 <= k < |r| :: |r[k]| > 0 && NoSpace(r[k])
    decreases |s|
  {
    if |s| == 0 then []
    else if IsSpace(s[0]) then Words(s[1..])
    else
      var n := TokenLength(s);
      [s[..n]] + Words(s[n..])
  }

  /** A string with a non-whitespace character has at least one word. */
  lemma {:induction false} WordsOfNonBlank(s: string)
    requires !Blank(s)
    ensures |Words(s)| > 0
    decreases |s|
  {
    if IsSpace(s[0]) {
      var i :| 0 <= i < |s| && !IsSpace(s[i]);
      assert s[1..][i - 1] == s[i];
      WordsOfNonBlank(s[1..]);
    }
  }

  /** Python's s.count(c) for a one-character substring. */
  function Count(s: string, c: char): (n: nat)
    ensures n <= |s|
    ensures n > 0 <==> c in s
  {
    if |s| == 0 then 0 else (if s[0] == c then 1 else 0) + Count(s[1..], c)
  }

  /** Counting over a concatenation adds the counts of the parts. */
  lemma {:induction false} CountAppend(a: string, b: string, c: char)
    ensures Count(a + b, c) == Count(a, c) + Count(b, c)
    decreases |a|
  {
    if |a| > 0 {
      assert (a + b)[1..] == a[1..] + b;
      CountAppend(a[1..], b, c);
    } else {
      assert a + b == b;
    }
  }

  /** ' '.join(words) */
  function JoinWords(words: seq<string>): string
    requires |words| >= 1
  {
    Join(words, " ")
  }

  /** Splitting a space-joined list of whitespace-free, non-empty words on
      whitespace returns the words. */
  lemma {:induction false} WordsJoinWords(words: seq<string>)
    requires |words| >= 1
    requires forall k | 0 <= k < |words| :: |words[k]| > 0 && NoSpace(words[k])
    ensures Words(JoinWords(words)) == words
    decreases |words|
  {
    var w := words[0];
    TokenOfWord(w, if |words| == 1 then "" else " " + JoinWords(words[1..]));
    if |words| == 1 {
      assert JoinWords(words) == w + "";
      assert w[|w|..] == "";
    } else {
      var tail := JoinWords(words[1..]);
      var s := w + " " + tail;
      assert s == w + (" " + tail);
      assert s[|w|..] == " " + tail;
      assert (" " + tail)[1..] == tail;
      WordsJoinWords(words[1..]);
    }
  }

  /** The first word of w + rest is w when w has no whitespace and rest is
      empty or starts with whitespace. */
  lemma {:induction false} TokenOfWord(w: string, rest: string)
    requires |w| > 0 && NoSpace(w)
    requires rest == [] || IsSpace(rest[0])
    ensures TokenLength(w + rest) == |w|
    ensures Words(w + rest) == [w] + Words(rest)
    decreases |w|
  {
    var s := w + rest;
    if |w| > 1 {
      TokenOfWord(w[1..], rest);
      assert s[1..] == w[1..] + rest;
    } else {
      assert s[1..] == rest;
    }
    assert s[..|w|] == w;
    assert s[|w|..] == rest;
  }

  /** A space-joined list of words is stripped and not blank. */
  lemma {:induction false} JoinWordsStripped(words: seq<string>)
    requires |words| >= 1
    requires forall k | 0 <= k < |words| :: |words[k]| > 0 && NoSpace(words[k])
    ensures Stripped(JoinWords(words)) && !Blank(JoinWords(words))
    ensures JoinWords(words)[0] == words[0][0]
    ensures JoinWords(words)[|JoinWords(words)| - 1] == words[|words| - 1][|words[|words| - 1]| - 1]
    decreases |words|
  {
    if |words| > 1 {
      JoinWordsStripped(words[1..]);
    }
  }

  /** Every character of a piece split off from s is a character of s. */
  lemma {:induction false} SplitOnChars(s: string, sep: string)
    requires |sep| > 0
    ensures forall k, c | 0 <= k < |SplitOn(s, sep)| && c in SplitOn(s, sep)[k] :: c in s
    decreases |s|
  {
    if |s| < |sep| {
    } else if s[..|sep|] == sep {
      SplitOnChars(s[|sep|..], sep);
      assert forall c | c in s[|sep|..] :: c in s;
    } else {
      SplitOnChars(s[1..], sep);
      var rest := SplitOn(s[1..], sep);
      var r := SplitOn(s, sep);
      assert forall c | c in s[1..] :: c in s;
      forall k, c | 0 <= k < |r| && c in r[k] ensures c in s {
        if k == 0 {
          assert r[0] == [s[0]] + rest[0];
        } else {
          assert r[k] == rest[k];
        }
      }
    }
  }

  /** Splitting on a one-character separator leaves no piece holding it. */
  lemma {:induction false} SplitOnCharFree(s: string, c: char)
    ensures forall k | 0 <= k < |SplitOn(s, [c])| :: c !in SplitOn(s, [c])[k]
    decreases |s|
  {
    if |s| < 1 {
    } else if s[..1] == [c] {
      SplitOnCharFree(s[1..], c);
    } else {
      assert s[0] != c by { assert s[..1] == [s[0]]; }
      SplitOnCharFree(s[1..], c);
    }
  }

  /** For a one-character needle, containment is membership. */
  lemma ContainsChar(s: string, c: char)
    ensures Contains(s, [c]) <==> c in s
  {
    if c in s {
      var i :| 0 <= i < |s| && s[i] == c;
      assert s[i..i + 1] == [c];
      assert OccursAt(s, [c], i);
    }
    if Contains(s, [c]) {
      var i :| 0 <= i <= |s| - 1 && OccursAt(s, [c], i);
      assert s[i] == s[i..i + 1][0];
    }
  }

  /** A prefix of a string that does not contain a needle does not contain it either. */
  lemma PrefixNotContains(s: string, n: nat, needle: string)
    requires n <= |s| && !Contains(s, needle)
    ensures !Contains(s[..n], needle)
  {
    forall i | 0 <= i <= n - |needle| ensures !OccursAt(s[..n], needle, i) {
      assert s[..n][i..i + |needle|] == s[i..i + |needle|];
      assert !OccursAt(s, needle, i);
    }
  }

  /** Every character of a stripped string is a character of the original. */
  lemma StripChars(s: string)
    ensures forall c | c in Strip(s) :: c in s
  {
    var l := StripLeft(s);
    var r := StripRight(l);
    StripLeftFacts(s);
    StripRightFacts(l);
    forall c | c in r ensures c in s {
      var i :| 0 <= i < |r| && r[i] == c;
      assert l[i] == c;
      assert s[|s| - |l| + i] == c;
      assert s[|s| - |l| + i] in s;
    }
  }

  /** Every character of a word of s is a character of s. */
  lemma {:induction false} WordsChars(s: string)
    ensures forall k, c | 0 <= k < |Words(s)| && c in Words(s)[k] :: c in s
    decreases |s|
  {
    if |s| == 0 {
    } else if IsSpace(s[0]) {
      WordsChars(s[1..]);
      assert forall c | c in s[1..] :: c in s;
    } else {
      var n := TokenLength(s);
      WordsChars(s[n..]);
      assert forall c | c in s[..n] :: c in s;
      assert forall c | c in s[n..] :: c in s;
    }
  }

  /** A space-joined list holds only spaces and characters of its words. */
  lemma {:induction false} JoinWordsChars(words: seq<string>, c: char)
    requires |words| >= 1
    requires c != ' ' && forall k | 0 <= k < |words| :: c !in words[k]
    ensures c !in JoinWords(words)
    decreases |words|
  {
    if |words| > 1 {
      JoinWordsChars(words[1..], c);
    }
  }
}
