/** The string and regexp operations the normalizer is built from, over an abstract alphabet. */
module Text {

  /** Character data of the Unicode tables: case mapping, letters and numbers, white space. */
  datatype Alphabet = Alphabet(lower: char -> char, alnum: char -> bool, space: char -> bool)

  /** What `\s` matches in the source's regular expressions. */
  predicate RegexSpace(c: char) {
    c == ' ' || c == '\t' || c == '\n' || c == '\U{000C}' || c == '\r'
  }

  ghost predicate Lawful(a: Alphabet) {
    && (forall c :: a.alnum(c) ==> !a.space(c))
    && (forall c :: RegexSpace(c) ==> a.space(c))
    && (forall c :: a.lower(a.lower(c)) == a.lower(c))
    && a.lower(' ') == ' '
  }

  function ToLower(a: Alphabet, s: string): string {
    seq(|s|, i requires 0 <= i < |s| => a.lower(s[i]))
  }

  function SkipRun(s: string, p: char -> bool): (r: string)
    ensures |r| <= |s|
  {
    if s != "" && p(s[0]) then SkipRun(s[1..], p) else s
  }

  function SkipRunBack(s: string, p: char -> bool): (r: string)
    ensures |r| <= |s|
  {
    if s != "" && p(s[|s| - 1]) then SkipRunBack(s[..|s| - 1], p) else s
  }

  function TrimSpace(a: Alphabet, s: string): string { SkipRunBack(SkipRun(s, a.space), a.space) }

  /** `[p]+` replaced by one space: each maximal run of matching characters becomes a single ' '. */
  function ReplaceRuns(s: string, p: char -> bool): string
    decreases |s|
  {
    if s == "" then ""
    else if p(s[0]) then " " + ReplaceRuns(SkipRun(s[1..], p), p)
    else [s[0]] + ReplaceRuns(s[1..], p)
  }

  function Flush(word: string): seq<string> { if word == "" then [] else [word] }

  /** One pass over the text, cutting at separators; `word` is the token being read. */
  function SplitFrom(word: string, s: string, sep: char -> bool): seq<string>
    decreases |s|
  {
    if s == "" then Flush(word)
    else if sep(s[0]) then Flush(word) + SplitFrom("", s[1..], sep)
    else SplitFrom(word + [s[0]], s[1..], sep)
  }

  /** The maximal runs of non-separators, in order. */
  function Split(s: string, sep: char -> bool): seq<string> { SplitFrom("", s, sep) }

  function Join(words: seq<string>): string {
    if words == [] then ""
    else if |words| == 1 then words[0]
    else words[0] + " " + Join(words[1..])
  }

  // ----- rewriting separators does not change the split

  lemma {:induction false} SkipLeading(s: string, p: char -> bool, sep: char -> bool)
    requires forall c :: p(c) ==> sep(c)
    ensures SplitFrom("", SkipRun(s, p), sep) == SplitFrom("", s, sep)
  {
    if s != "" && p(s[0]) {
      SkipLeading(s[1..], p, sep);
    }
  }

  lemma {:induction false} SkipTrailing(word: string, s: string, p: char -> bool, sep: char -> bool)
    requires forall c :: p(c) ==> sep(c)
    ensures SplitFrom(word, SkipRunBack(s, p), sep) == SplitFrom(word, s, sep)
  {
    if s != "" && p(s[|s| - 1]) {
      SkipTrailing(word, s[..|s| - 1], p, sep);
      DropLast(word, s, sep);
    }
  }

  lemma {:induction false} DropLast(word: string, s: string, sep: char -> bool)
    requires s != "" && sep(s[|s| - 1])
    ensures SplitFrom(word, s[..|s| - 1], sep) == SplitFrom(word, s, sep)
    decreases |s|
  {
    if |s| == 1 {
      assert s[1..] == "" && s[..0] == "";
    } else {
      assert s[..|s| - 1][1..] == s[1..][..|s| - 2];
      if sep(s[0]) {
        DropLast("", s[1..], sep);
      } else {
        DropLast(word + [s[0]], s[1..], sep);
      }
    }
  }

  lemma {:induction false} ReplaceKeepsSplit(word: string, s: string, p: char -> bool, sep: char -> bool)
    requires forall c :: p(c) ==> sep(c)
    requires sep(' ')
    ensures SplitFrom(word, ReplaceRuns(s, p), sep) == SplitFrom(word, s, sep)
    decreases |s|
  {
    if s != "" {
      if p(s[0]) {
        var rest := SkipRun(s[1..], p);
        ReplaceKeepsSplit("", rest, p, sep);
        SkipLeading(s[1..], p, sep);
        assert ReplaceRuns(s, p) == [' '] + ReplaceRuns(rest, p);
        assert ReplaceRuns(s, p)[1..] == ReplaceRuns(rest, p);
      } else {
        assert ReplaceRuns(s, p)[1..] == ReplaceRuns(s[1..], p);
        if sep(s[0]) {
          ReplaceKeepsSplit("", s[1..], p, sep);
        } else {
          ReplaceKeepsSplit(word + [s[0]], s[1..], p, sep);
        }
      }
    }
  }

  lemma {:induction false} SkippedChars(s: string, p: char -> bool)
    ensures forall c :: c in SkipRun(s, p) ==> c in s
  {
    if s != "" && p(s[0]) { SkippedChars(s[1..], p); }
  }

  lemma {:induction false} ReplacedChars(s: string, p: char -> bool)
    ensures forall c :: c in ReplaceRuns(s, p) ==> c == ' ' || (c in s && !p(c))
    decreases |s|
  {
    if s != "" {
      if p(s[0]) {
        SkippedChars(s[1..], p);
        ReplacedChars(SkipRun(s[1..], p), p);
      } else {
        ReplacedChars(s[1..], p);
      }
    }
  }

  lemma {:induction false} SplitAgree(word: string, s: string, p: char -> bool, q: char -> bool)
    requires forall c :: c in s ==> p(c) == q(c)
    ensures SplitFrom(word, s, p) == SplitFrom(word, s, q)
    decreases |s|
  {
    if s != "" {
      assert s[0] in s;
      if p(s[0]) {
        SplitAgree("", s[1..], p, q);
      } else {
        SplitAgree(word + [s[0]], s[1..], p, q);
      }
    }
  }

  // ----- splitting undoes joining

  ghost predicate Token(word: string, sep: char -> bool) {
    word != "" && forall c :: c in word ==> !sep(c)
  }

  ghost predicate Tokens(words: seq<string>, sep: char -> bool) {
    forall word :: word in words ==> Token(word, sep)
  }

  lemma {:induction false} SplitTokens(word: string, s: string, sep: char -> bool)
    requires forall c :: c in word ==> !sep(c)
    ensures Tokens(SplitFrom(word, s, sep), sep)
    ensures forall t, c :: t in SplitFrom(word, s, sep) && c in t ==> c in word || c in s
    decreases |s|
  {
    if s != "" {
      if sep(s[0]) {
        SplitTokens("", s[1..], sep);
      } else {
        SplitTokens(word + [s[0]], s[1..], sep);
      }
    }
  }

  lemma {:induction false} ReadWord(word: string, w: string, rest: string, sep: char -> bool)
    requires forall c :: c in w ==> !sep(c)
    ensures SplitFrom(word, w + rest, sep) == SplitFrom(word + w, rest, sep)
    decreases |w|
  {
    if w == "" {
      assert w + rest == rest && word + w == word;
    } else {
      assert w[0] in w;
      assert (w + rest)[1..] == w[1..] + rest;
      assert word + w == word + [w[0]] + w[1..];
      ReadWord(word + [w[0]], w[1..], rest, sep);
    }
  }

  /** Joining tokens with single spaces and splitting again gives the tokens back. */
  lemma {:induction false} SplitJoin(words: seq<string>, sep: char -> bool)
    requires Tokens(words, sep) && sep(' ')
    ensures Split(Join(words), sep) == words
  {
    if words != [] {
      assert words[0] in words;
      if |words| == 1 {
        ReadWord("", words[0], "", sep);
        assert words[0] + "" == words[0] == "" + words[0];
        assert words == [words[0]];
      } else {
        SplitJoin(words[1..], sep);
        var rest := " " + Join(words[1..]);
        assert Join(words) == words[0] + rest;
        ReadWord("", words[0], rest, sep);
        assert "" + words[0] == words[0];
        assert rest[1..] == Join(words[1..]);
      }
    }
  }

  lemma {:induction false} JoinedChars(words: seq<string>, c: char)
    ensures c in Join(words) ==> c == ' ' || exists word :: word in words && c in word
  {
    if |words| > 1 {
      JoinedChars(words[1..], c);
      assert words[0] in words;
    } else if words != [] {
      assert words[0] in words;
    }
  }

  // ----- laws that leave each pass no choice

  lemma {:induction false} SplitAt(word: string, a: string, c: char, b: string, sep: char -> bool)
    requires sep(c)
    ensures SplitFrom(word, a + [c] + b, sep) == SplitFrom(word, a, sep) + SplitFrom("", b, sep)
    decreases |a|
  {
    var s := a + [c] + b;
    if a == "" {
      assert s == [c] + b && s[1..] == b;
    } else {
      assert s[1..] == a[1..] + [c] + b;
      if sep(a[0]) {
        SplitAt("", a[1..], c, b, sep);
      } else {
        SplitAt(word + [a[0]], a[1..], c, b, sep);
      }
    }
  }

  /** A text is cut at every separator, and what has none is one word, or none if it is empty. */
  lemma {:induction false} SplitLaws(a: string, c: char, b: string, sep: char -> bool)
    ensures sep(c) ==> Split(a + [c] + b, sep) == Split(a, sep) + Split(b, sep)
    ensures (forall x :: x in a ==> !sep(x)) ==> Split(a, sep) == if a == "" then [] else [a]
  {
    if sep(c) { SplitAt("", a, c, b, sep); }
    if forall x :: x in a ==> !sep(x) {
      ReadWord("", a, "", sep);
      assert a + "" == a && "" + a == a;
    }
  }

  /** Joined words are separated by exactly one space, and nothing else is added. */
  lemma {:induction false} JoinLaws(a: seq<string>, b: seq<string>, word: string)
    ensures Join([]) == "" && Join([word]) == word
    ensures a != [] && b != [] ==> Join(a + b) == Join(a) + " " + Join(b)
  {
    if a != [] && b != [] {
      assert (a + b)[0] == a[0] && (a + b)[1..] == a[1..] + b;
      if |a| == 1 {
        assert a[1..] + b == b;
      } else {
        JoinLaws(a[1..], b, word);
        assert Join(a) == a[0] + " " + Join(a[1..]);
        assert a[0] + " " + (Join(a[1..]) + " " + Join(b)) == (a[0] + " " + Join(a[1..])) + " " + Join(b);
      }
    }
  }

  /** Trimming leaves the part from the first to the last character that is no white space. */
  lemma {:induction false} TrimExact(a: Alphabet, s: string) returns (lo: int, hi: int)
    ensures 0 <= lo <= hi <= |s| && TrimSpace(a, s) == s[lo..hi]
    ensures forall i :: 0 <= i < lo || hi <= i < |s| ==> a.space(s[i])
    ensures lo < hi ==> !a.space(s[lo]) && !a.space(s[hi - 1])
  {
    lo := SkipExact(s, a.space);
    var t := s[lo..];
    var n := SkipBackExact(t, a.space);
    hi := lo + n;
    assert TrimSpace(a, s) == t[..n] == s[lo..hi];
    assert forall i :: lo <= i < |s| ==> s[i] == t[i - lo];
    if lo < hi { assert t[0] == s[lo]; }
  }

  lemma {:induction false} SkipExact(s: string, p: char -> bool) returns (lo: int)
    ensures 0 <= lo <= |s| && SkipRun(s, p) == s[lo..]
    ensures forall i :: 0 <= i < lo ==> p(s[i])
    ensures lo < |s| ==> !p(s[lo])
  {
    if s != "" && p(s[0]) {
      var lo' := SkipExact(s[1..], p);
      lo := lo' + 1;
      assert s[1..][lo'..] == s[lo..];
    } else {
      lo := 0;
    }
  }

  lemma {:induction false} SkipBackExact(s: string, p: char -> bool) returns (n: int)
    ensures 0 <= n <= |s| && SkipRunBack(s, p) == s[..n]
    ensures forall i :: n <= i < |s| ==> p(s[i])
    ensures n > 0 ==> !p(s[n - 1])
  {
    if s != "" && p(s[|s| - 1]) {
      n := SkipBackExact(s[..|s| - 1], p);
      assert s[..|s| - 1][..n] == s[..n];
    } else {
      n := |s|;
      assert s[..n] == s;
    }
  }
}
