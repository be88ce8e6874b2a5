/** Query normalization: the source's multi-pass pipeline and the one-pass tokenizer it amounts to. */
module Normalizer {
  import opened Prelude
  import opened Text

  const MIN_RUNES: int := 2

  function NotAlnum(a: Alphabet): char -> bool { c => !a.alnum(c) }

  /** `[^\p{L}\p{N}\s]` */
  function NotAlnumSpace(a: Alphabet): char -> bool { c => !a.alnum(c) && !RegexSpace(c) }

  const REGEX_SPACE: char -> bool := c => RegexSpace(c)

  /** The rewriting passes, in the source's order. */
  function Rewrite(a: Alphabet, raw: string): string {
    ReplaceRuns(ReplaceRuns(TrimSpace(a, ToLower(a, raw)), NotAlnumSpace(a)), REGEX_SPACE)
  }

  function Keep(words: seq<string>, stops: set<string>): seq<string> {
    if words == [] then []
    else (if words[0] in stops then [] else [words[0]]) + Keep(words[1..], stops)
  }

  function Accept(q: string): Option<string> {
    if |q| < MIN_RUNES then None else Some(q)
  }

  /** The maximal letter-or-digit runs of the lowered text. */
  function Words(a: Alphabet, raw: string): seq<string> {
    Split(ToLower(a, raw), NotAlnum(a))
  }

  /** The meaning: lowered letter-or-digit runs, less the stop words, joined by one space; None is the error. */
  function Normalized(a: Alphabet, stops: set<string>, raw: string): Option<string> {
    Accept(Join(Keep(Words(a, raw), stops)))
  }

  lemma {:induction false} TrimKeepsSplit(a: Alphabet, s: string)
    requires Lawful(a)
    ensures Split(TrimSpace(a, s), NotAlnum(a)) == Split(s, NotAlnum(a))
  {
    SkipTrailing("", SkipRun(s, a.space), a.space, NotAlnum(a));
    SkipLeading(s, a.space, NotAlnum(a));
  }

  /** Four rewriting passes and a split at white space read exactly the letter-or-digit runs. */
  lemma {:induction false} PipelineIsTokenizer(a: Alphabet, raw: string)
    requires Lawful(a)
    ensures Split(Rewrite(a, raw), a.space) == Words(a, raw)
  {
    var low := ToLower(a, raw);
    var trimmed := TrimSpace(a, low);
    var marked := ReplaceRuns(trimmed, NotAlnumSpace(a));
    var q := ReplaceRuns(marked, REGEX_SPACE);
    ReplacedChars(trimmed, NotAlnumSpace(a));
    ReplacedChars(marked, REGEX_SPACE);
    forall c | c in q ensures a.space(c) == NotAlnum(a)(c) {
      assert RegexSpace(' ');
    }
    SplitAgree("", q, a.space, NotAlnum(a));
    assert NotAlnum(a)(' ') by { assert RegexSpace(' '); }
    ReplaceKeepsSplit("", marked, REGEX_SPACE, NotAlnum(a));
    ReplaceKeepsSplit("", trimmed, NotAlnumSpace(a), NotAlnum(a));
    TrimKeepsSplit(a, low);
  }

  // ----- idempotence and stop lists

  lemma {:induction false} KeepMembers(words: seq<string>, stops: set<string>, word: string)
    ensures word in Keep(words, stops) <==> word in words && word !in stops
  {
    if words != [] { KeepMembers(words[1..], stops, word); }
  }

  lemma {:induction false} KeepTwice(words: seq<string>, s: set<string>, t: set<string>)
    ensures Keep(Keep(words, s), t) == Keep(words, s + t)
  {
    if words != [] {
      KeepTwice(words[1..], s, t);
      if words[0] !in s {
        assert Keep(words, s)[1..] == Keep(words[1..], s);
      } else {
        assert Keep(words, s) == Keep(words[1..], s);
      }
    }
  }

  lemma {:induction false} WordsAreTokens(a: Alphabet, stops: set<string>, raw: string)
    requires Lawful(a)
    ensures var words := Keep(Words(a, raw), stops);
      && Tokens(words, NotAlnum(a))
      && (forall word, c :: word in words && c in word ==> a.lower(c) == c)
  {
    var low := ToLower(a, raw);
    SplitTokens("", low, NotAlnum(a));
    forall word | word in Keep(Words(a, raw), stops) ensures word in Words(a, raw) {
      KeepMembers(Words(a, raw), stops, word);
    }
  }

  /** The joined words of a text read back as themselves. */
  lemma {:induction false} RereadWords(a: Alphabet, stops: set<string>, raw: string)
    requires Lawful(a)
    ensures var words := Keep(Words(a, raw), stops); Words(a, Join(words)) == words
  {
    var words := Keep(Words(a, raw), stops);
    var y := Join(words);
    WordsAreTokens(a, stops, raw);
    forall i | 0 <= i < |y| ensures a.lower(y[i]) == y[i] {
      JoinedChars(words, y[i]);
    }
    assert ToLower(a, y) == y;
    assert NotAlnum(a)(' ') by { assert RegexSpace(' '); }
    SplitJoin(words, NotAlnum(a));
  }

  /** A normalized query is its own normalization. */
  lemma {:induction false} Idempotent(a: Alphabet, stops: set<string>, raw: string)
    requires Lawful(a)
    ensures var y := Normalized(a, stops, raw); y.Some? ==> Normalized(a, stops, y.value) == y
  {
    hide Words, Join;
    RereadWords(a, stops, raw);
    KeepTwice(Words(a, raw), stops, stops);
    assert stops + stops == stops;
  }

  lemma {:induction false} KeepFirst(words: seq<string>, stops: set<string>)
    requires words != []
    ensures Keep(words, stops)
         == if words[0] in stops then Keep(words[1..], stops) else [words[0]] + Keep(words[1..], stops)
  {
  }

  lemma {:induction false} KeepShortens(words: seq<string>, s: set<string>, t: set<string>)
    requires s <= t
    ensures |Join(Keep(words, t))| <= |Join(Keep(words, s))|
    ensures Keep(words, s) == [] ==> Keep(words, t) == []
  {
    if words != [] {
      KeepShortens(words[1..], s, t);
      KeepFirst(words, s);
      KeepFirst(words, t);
      if words[0] !in s {
        JoinFirst(words[0], Keep(words[1..], s));
        if words[0] !in t {
          JoinFirst(words[0], Keep(words[1..], t));
        }
      }
    }
  }

  lemma {:induction false} JoinFirst(word: string, words: seq<string>)
    ensures |Join([word] + words)| == |word| + if words == [] then 0 else 1 + |Join(words)|
  {
    assert ([word] + words)[1..] == words;
  }

  /**
   Stop lists compose: filtering by S, then normalizing the result under T, is normalizing under
   both, errors included; and what already fails under S fails under more stop words.
   */
  lemma {:induction false} StopListsCompose(a: Alphabet, s: set<string>, t: set<string>, raw: string)
    requires Lawful(a)
    ensures match Normalized(a, s, raw)
      case Some(y) => Normalized(a, s + t, raw) == Normalized(a, t, y)
      case None => Normalized(a, s + t, raw) == None
  {
    hide Words, Join;
    RereadWords(a, s, raw);
    KeepTwice(Words(a, raw), s, t);
    KeepShortens(Words(a, raw), s, s + t);
  }

  /** Normalized queries consist of letters, digits and spaces, so they contain no key separator. */
  lemma {:induction false} NormalizedChars(a: Alphabet, stops: set<string>, raw: string)
    requires Lawful(a) && !a.alnum('|')
    ensures var y := Normalized(a, stops, raw); y.Some? ==> '|' !in y.value && |y.value| >= MIN_RUNES
  {
    var words := Keep(Words(a, raw), stops);
    WordsAreTokens(a, stops, raw);
    JoinedChars(words, '|');
    assert NotAlnum(a)('|');
    assert forall word :: word in words ==> Token(word, NotAlnum(a));
  }

  /** Stop words are left out wherever they stand; every other word stays, in its place and as often as it occurs. */
  lemma {:induction false} KeepLaws(a: seq<string>, b: seq<string>, word: string, stops: set<string>)
    ensures Keep(a + b, stops) == Keep(a, stops) + Keep(b, stops)
    ensures Keep([], stops) == [] && Keep([word], stops) == if word in stops then [] else [word]
  {
    if a == [] {
      assert a + b == b;
    } else {
      assert (a + b)[0] == a[0] && (a + b)[1..] == a[1..] + b;
      KeepLaws(a[1..], b, word, stops);
    }
  }

  /** The words of a text are those of its lowered characters, which are letters and digits. */
  lemma {:induction false} WordsLaws(a: Alphabet, left: string, c: char, right: string)
    ensures !a.alnum(a.lower(c)) ==> Words(a, left + [c] + right) == Words(a, left) + Words(a, right)
    ensures (forall x :: x in left ==> a.alnum(a.lower(x)))
      ==> Words(a, left) == if left == "" then [] else [seq(|left|, i requires 0 <= i < |left| => a.lower(left[i]))]
  {
    assert ToLower(a, left + [c] + right) == ToLower(a, left) + [a.lower(c)] + ToLower(a, right);
    SplitLaws(ToLower(a, left), a.lower(c), ToLower(a, right), NotAlnum(a));
  }

  /** A query is accepted exactly if two runes are left, and then it is what is left. */
  lemma {:induction false} NormalizedExact(a: Alphabet, stops: set<string>, raw: string)
    ensures Normalized(a, stops, raw)
         == var q := Join(Keep(Words(a, raw), stops)); if |q| >= 2 then Some(q) else None
  {
  }

  lemma {:induction false} KeepNothing(stops: set<string>)
    ensures Keep([], stops) == []
  {
  }

  lemma {:induction false} NothingToSplit(sep: char -> bool, stops: set<string>)
    ensures Accept(Join(Keep(Split("", sep), stops))) == None
  {
  }

  // ----- the service

  function StopWord(a: Alphabet, word: string): string { TrimSpace(a, ToLower(a, word)) }

  /** `stop` is the part of `word` from `lo` on, lowered; what is left of it on both sides is white space. */
  ghost predicate CleansAt(a: Alphabet, word: string, stop: string, lo: int) {
    && stop != "" && 0 <= lo && lo + |stop| <= |word|
    && (forall i :: 0 <= i < |stop| ==> stop[i] == a.lower(word[lo + i]))
    && (forall i :: 0 <= i < lo || lo + |stop| <= i < |word| ==> a.space(a.lower(word[i])))
    && !a.space(stop[0]) && !a.space(stop[|stop| - 1])
  }

  /** `stop` is `word`, lowered and trimmed. */
  ghost predicate Cleans(a: Alphabet, word: string, stop: string) { exists lo :: CleansAt(a, word, stop, lo) }

  lemma {:induction false} StopWordCleans(a: Alphabet, word: string)
    requires StopWord(a, word) != ""
    ensures Cleans(a, word, StopWord(a, word))
  {
    hide TrimSpace;
    var low, stop := ToLower(a, word), StopWord(a, word);
    var lo, hi := TrimExact(a, low);
    assert forall i :: 0 <= i < |low| ==> low[i] == a.lower(word[i]);
    assert |stop| == hi - lo && forall i :: 0 <= i < |stop| ==> stop[i] == low[lo + i];
    assert CleansAt(a, word, stop, lo);
  }

  lemma {:induction false} CleansOnce(a: Alphabet, word: string, stop: string, lo: int)
    requires CleansAt(a, word, stop, lo)
    ensures StopWord(a, word) == stop
  {
    hide TrimSpace;
    var low := ToLower(a, word);
    var l, h := TrimExact(a, low);
    var last := lo + |stop| - 1;
    assert !a.space(low[lo]) && !a.space(low[last]);
    assert l <= lo && last < h;
    assert forall i :: 0 <= i < lo || last < i < |low| ==> a.space(low[i]);
    assert l == lo && h == last + 1;
    assert stop == low[l..h];
  }

  lemma {:induction false} StopWordExact(a: Alphabet, word: string, stop: string)
    ensures Cleans(a, word, stop) <==> stop != "" && StopWord(a, word) == stop
  {
    hide StopWord, CleansAt;
    if stop != "" && StopWord(a, word) == stop {
      StopWordCleans(a, word);
    }
    if lo :| CleansAt(a, word, stop, lo) {
      CleansOnce(a, word, stop, lo);
      CleansSome(a, word, stop, lo);
    }
  }

  lemma {:induction false} CleansSome(a: Alphabet, word: string, stop: string, lo: int)
    requires CleansAt(a, word, stop, lo)
    ensures stop != ""
  {
  }

  /** Under a replaced stop list a query's words are exactly those that are no listed word, lowered and trimmed. */
  lemma {:induction false} StopWordsGone(
    a: Alphabet, listed: seq<string>, stops: set<string>, raw: string, word: string)
    requires Lawful(a)
    requires forall stop :: stop in stops <==> exists i :: 0 <= i < |listed| && Cleans(a, listed[i], stop)
    ensures word in Split(Join(Keep(Words(a, raw), stops)), NotAlnum(a))
            <==> word in Words(a, raw) && forall i :: 0 <= i < |listed| ==> !Cleans(a, listed[i], word)
  {
    hide Cleans, Words, Join, Keep, Split;
    WordsAreTokens(a, stops, raw);
    SplitOfJoin(a, Keep(Words(a, raw), stops));
    KeepMembers(Words(a, raw), stops, word);
  }

  lemma {:induction false} SplitOfJoin(a: Alphabet, words: seq<string>)
    requires Lawful(a) && Tokens(words, NotAlnum(a))
    ensures Split(Join(words), NotAlnum(a)) == words
  {
    assert NotAlnum(a)(' ') by { assert RegexSpace(' '); }
    SplitJoin(words, NotAlnum(a));
  }

  class Service {
    const alphabet: Alphabet
    var stopWords: set<string>

    ghost predicate Valid() { Lawful(alphabet) }

    constructor (alphabet: Alphabet, words: seq<string>)
      requires Lawful(alphabet)
      ensures Valid() && this.alphabet == alphabet
      ensures forall stop :: stop in stopWords <==> exists i :: 0 <= i < |words| && Cleans(alphabet, words[i], stop)
    {
      this.alphabet := alphabet;
      new;
      ReplaceStopWords(words);
    }

    method Normalize(raw: string) returns (r: Option<string>)
      requires Valid()
      ensures r == Normalized(alphabet, stopWords, raw)
      ensures var q := Join(Keep(Words(alphabet, raw), stopWords)); r == if |q| >= 2 then Some(q) else None
    {
      hide Words, Keep, Join, ReplaceRuns, TrimSpace, SplitFrom;
      var q := ToLower(alphabet, raw);
      q := TrimSpace(alphabet, q);
      q := ReplaceRuns(q, NotAlnumSpace(alphabet));
      q := ReplaceRuns(q, REGEX_SPACE);
      PipelineIsTokenizer(alphabet, raw);
      if q == "" {
        NothingToSplit(alphabet.space, stopWords);
        return None;
      }
      var parts := Split(q, alphabet.space);
      var filtered := [];
      for i := 0 to |parts|
        invariant filtered + Keep(parts[i..], stopWords) == Keep(parts, stopWords)
      {
        assert parts[i..][1..] == parts[i + 1..];
        KeepFirst(parts[i..], stopWords);
        if parts[i] !in stopWords {
          filtered := filtered + [parts[i]];
        }
      }
      KeepNothing(stopWords);
      assert filtered == Keep(parts, stopWords);
      q := Join(filtered);
      if |q| < MIN_RUNES {
        return None;
      }
      return Some(q);
    }

    method ReplaceStopWords(words: seq<string>)
      modifies this
      ensures forall stop :: stop in stopWords <==> exists i :: 0 <= i < |words| && Cleans(alphabet, words[i], stop)
    {
      var stops := {};
      for n := 0 to |words|
        invariant forall stop :: stop in stops
                    <==> stop != "" && exists i :: 0 <= i < n && StopWord(alphabet, words[i]) == stop
      {
        var word := StopWord(alphabet, words[n]);
        if word == "" {
          continue;
        }
        stops := stops + {word};
      }
      stopWords := stops;
      hide StopWord, Cleans;
      forall i, stop | 0 <= i < |words|
        ensures Cleans(alphabet, words[i], stop) <==> stop != "" && StopWord(alphabet, words[i]) == stop
      {
        StopWordExact(alphabet, words[i], stop);
      }
    }
  }
}
