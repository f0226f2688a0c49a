/** Splitting a token stream into sentences (codes/test6.cpp).

    A token carries its text and whether it is end-of-sentence punctuation.
    A sentence ends after an end-punctuation token that is followed by a
    token that is not end punctuation; a run of punctuation therefore stays
    with the sentence it closes. The iterator pair of `FindSentenceEnd` is an
    index range into the token sequence. The copy and move counting of the
    test token type is instrumentation and is not modelled. */
module Sentences {
  import opened Sequences

  datatype Token = Token(data: string, isEndPunctuation: bool)

  /** A sentence break lies between `left` and `right`. */
  predicate IsBoundary(left: Token, right: Token) {
    left.isEndPunctuation && !right.isEndPunctuation
  }

  /** No two adjacent tokens of `s` form a sentence break. */
  predicate NoInnerBoundary(s: seq<Token>) {
    forall j :: 0 < j < |s| ==> !IsBoundary(s[j - 1], s[j])
  }

  /** `FindSentenceEnd(begin, end)`: `adjacent_find` looks for the first
      end-punctuation token in `[begin, end)` followed by a non-punctuation
      token; the result is the position after it, or `end` when there is none. */
  function FindSentenceEnd(tokens: seq<Token>, begin: nat, end: nat): (r: nat)
    requires begin <= end <= |tokens|
    ensures begin <= r <= end
    ensures begin < end ==> begin < r
    ensures r < end ==> IsBoundary(tokens[r - 1], tokens[r])
    ensures forall j :: begin < j < r ==> !IsBoundary(tokens[j - 1], tokens[j])
    decreases end - begin
  {
    if begin + 1 >= end then end
    else if IsBoundary(tokens[begin], tokens[begin + 1]) then begin + 1
    else FindSentenceEnd(tokens, begin + 1, end)
  }

  /** `SplitIntoSentences`: repeatedly cuts the sentence that starts at the
      current position up to its `FindSentenceEnd`. */
  function SplitIntoSentences(tokens: seq<Token>): (sentences: seq<seq<Token>>)
    ensures sentences == [] <==> tokens == []
    ensures |sentences| <= |tokens|
    ensures forall k :: 0 <= k < |sentences| ==> |sentences[k]| > 0
    decreases |tokens|
  {
    if tokens == [] then []
    else
      var e := FindSentenceEnd(tokens, 0, |tokens|);
      [tokens[..e]] + SplitIntoSentences(tokens[e..])
  }

  /** Sentence `b` directly follows sentence `a` across a break. */
  predicate BreakBetween(a: seq<Token>, b: seq<Token>) {
    |a| > 0 && |b| > 0 && IsBoundary(Last(a), b[0])
  }

  /** What a split into sentences must be: the sentences are non-empty, joined
      they give back the tokens in order, none contains a break, and each
      sentence after the first starts right after a break. */
  ghost predicate ValidSplit(tokens: seq<Token>, sentences: seq<seq<Token>>) {
    && Flatten(sentences) == tokens
    && (forall k :: 0 <= k < |sentences| ==> |sentences[k]| > 0 && NoInnerBoundary(sentences[k]))
    && (forall k :: 0 <= k < |sentences| - 1 ==> BreakBetween(sentences[k], sentences[k + 1]))
  }

  /** A valid split is its first sentence followed by a valid split of the
      remaining tokens. */
  lemma ValidSplitCons(first: seq<Token>, rest: seq<Token>, sentences: seq<seq<Token>>)
    requires |first| > 0 && NoInnerBoundary(first)
    requires ValidSplit(rest, sentences)
    requires sentences != [] ==> BreakBetween(first, sentences[0])
    ensures ValidSplit(first + rest, [first] + sentences)
  {
    var all := [first] + sentences;
    assert all[1..] == sentences;
    assert forall k :: 0 < k < |all| ==> all[k] == sentences[k - 1];
  }

  /** The converse of `ValidSplitCons`. */
  lemma ValidSplitTail(tokens: seq<Token>, sentences: seq<seq<Token>>)
    requires ValidSplit(tokens, sentences) && sentences != []
    ensures |sentences[0]| > 0 && NoInnerBoundary(sentences[0])
    ensures tokens == sentences[0] + Flatten(sentences[1..])
    ensures ValidSplit(Flatten(sentences[1..]), sentences[1..])
    ensures |sentences| > 1 ==> BreakBetween(sentences[0], sentences[1])
  {
    var tail := sentences[1..];
    assert forall k :: 0 <= k < |tail| ==> tail[k] == sentences[k + 1];
  }

  /** `SplitIntoSentences` produces a valid split, and only the empty stream
      has no sentence. */
  lemma {:induction false} SplitIsValid(tokens: seq<Token>)
    ensures ValidSplit(tokens, SplitIntoSentences(tokens))
    ensures tokens == [] <==> SplitIntoSentences(tokens) == []
    decreases |tokens|
  {
    if tokens != [] {
      var e := FindSentenceEnd(tokens, 0, |tokens|);
      var first, rest := tokens[..e], tokens[e..];
      SplitIsValid(rest);
      var tail := SplitIntoSentences(rest);
      if tail != [] {
        ValidSplitTail(rest, tail);
        assert tail[0][0] == rest[0] == tokens[e];
      }
      ValidSplitCons(first, rest, tail);
      assert first + rest == tokens;
    }
  }

  /** Consequences of a valid split: every sentence but the last ends in end
      punctuation, and no sentence after the first starts with it, so a run
      of end punctuation is never torn apart. */
  lemma ValidSplitEnds(tokens: seq<Token>, sentences: seq<seq<Token>>)
    requires ValidSplit(tokens, sentences)
    ensures forall k :: 0 <= k < |sentences| - 1 ==> Last(sentences[k]).isEndPunctuation
    ensures forall k :: 0 < k < |sentences| ==> !sentences[k][0].isEndPunctuation
  {
    forall k | 0 <= k < |sentences| - 1
      ensures Last(sentences[k]).isEndPunctuation
    {
      assert BreakBetween(sentences[k], sentences[k + 1]);
    }
    forall k | 0 < k < |sentences|
      ensures !sentences[k][0].isEndPunctuation
    {
      var j := k - 1;
      assert BreakBetween(sentences[j], sentences[j + 1]);
    }
  }

  /** The split is the only valid one: any sequence of sentences with the
      properties of `ValidSplit` is the one `SplitIntoSentences` returns. */
  lemma {:induction false} ValidSplitIsUnique(tokens: seq<Token>, sentences: seq<seq<Token>>)
    requires ValidSplit(tokens, sentences)
    ensures sentences == SplitIntoSentences(tokens)
    decreases |tokens|
  {
    if sentences != [] {
      ValidSplitTail(tokens, sentences);
      var first := sentences[0];
      var n := |first|;
      var rest := Flatten(sentences[1..]);
      assert tokens[..n] == first && tokens[n..] == rest;
      var e := FindSentenceEnd(tokens, 0, |tokens|);
      assert forall j :: 0 < j < n ==> !IsBoundary(tokens[j - 1], tokens[j]);
      if n < |tokens| {
        assert |sentences| > 1;
        ValidSplitTail(rest, sentences[1..]);
        assert tokens[n] == sentences[1][0];
      }
      assert e == n;
      ValidSplitIsUnique(rest, sentences[1..]);
    }
  }

  /** A non-empty stream with end punctuation at most on its last token is
      a single sentence: no token before the last can open a break. */
  lemma NoPunctuationIsOneSentence(tokens: seq<Token>)
    requires tokens != []
    requires forall k :: 0 <= k < |tokens| - 1 ==> !tokens[k].isEndPunctuation
    ensures SplitIntoSentences(tokens) == [tokens]
  {
    var e := FindSentenceEnd(tokens, 0, |tokens|);
    if e < |tokens| {
      assert false;
    }
    assert tokens[..e] == tokens && tokens[e..] == [];
  }

  /** The source's first test: `Split into sentences !` without any end
      punctuation is one sentence. */
  lemma PlainStreamIsOneSentence()
    ensures var tokens := [Token("Split", false), Token("into", false), Token("sentences", false), Token("!", false)];
            SplitIntoSentences(tokens) == [tokens]
  {
    var tokens := [Token("Split", false), Token("into", false), Token("sentences", false), Token("!", false)];
    NoPunctuationIsOneSentence(tokens);
  }

  /** The source's second test: a final `!` that ends the sentence keeps the
      stream one sentence. */
  lemma TrailingMarkIsOneSentence()
    ensures var tokens := [Token("Split", false), Token("into", false), Token("sentences", false), Token("!", true)];
            SplitIntoSentences(tokens) == [tokens]
  {
    var tokens := [Token("Split", false), Token("into", false), Token("sentences", false), Token("!", true)];
    NoPunctuationIsOneSentence(tokens);
  }

  /** The tokens of the source's test with a double `!`. */
  function DoubleMarkTokens(): seq<Token> {
    [Token("Split", false), Token("into", false), Token("sentences", false),
     Token("!", true), Token("!", true), Token("Without", false),
     Token("copies", false), Token(".", true)]
  }

  /** The first break comes after the second `!`. */
  lemma DoubleMarkFirstEnd()
    ensures FindSentenceEnd(DoubleMarkTokens(), 0, 8) == 5
  {
    var tokens := DoubleMarkTokens();
    assert FindSentenceEnd(tokens, 3, 8) == 4 + 1;
    assert FindSentenceEnd(tokens, 2, 8) == 5;
  }

  /** The tokens from `Without` on form one sentence. */
  lemma DoubleMarkSecondSentence()
    ensures SplitIntoSentences(DoubleMarkTokens()[5..]) == [DoubleMarkTokens()[5..]]
  {
    var rest := DoubleMarkTokens()[5..];
    assert rest == [Token("Without", false), Token("copies", false), Token(".", true)];
    assert FindSentenceEnd(rest, 0, 3) == 3;
    assert rest[..3] == rest && rest[3..] == [];
  }

  /** The source's test with a double `!`: the two marks stay together and
      the break comes before `Without`. */
  lemma DoubleMarkStaysTogether()
    ensures SplitIntoSentences(DoubleMarkTokens()) == [DoubleMarkTokens()[..5], DoubleMarkTokens()[5..]]
  {
    DoubleMarkFirstEnd();
    DoubleMarkSecondSentence();
  }
}
