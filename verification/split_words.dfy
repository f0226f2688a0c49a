/** Splitting a text into words at the space character (codes/test2.cpp).

    Two implementations are modelled: `SplitIntoWords`, which copies every
    word into a fresh string, and `SplitIntoWordsView`, which slices views of
    the input. Only `' '` separates words; every other character, tabs
    included, belongs to a word. Both are proved to compute `Words`, the
    reference definition below. */
module SplitWords {
  import opened Sequences

  /** `s` with every space removed. */
  function RemoveSpaces(s: string): string {
    if s == [] then [] else (if s[0] == ' ' then [] else [s[0]]) + RemoveSpaces(s[1..])
  }

  predicate NoSpaces(s: string) {
    forall i :: 0 <= i < |s| ==> s[i] != ' '
  }

  /** `s` without its leading spaces. */
  function DropSpaces(s: string): (t: string)
    ensures |t| <= |s|
    ensures t == [] || t[0] != ' '
  {
    if s != [] && s[0] == ' ' then DropSpaces(s[1..]) else s
  }

  /** `find_first_not_of(" ", from)` clamped to the size by `min(…, size())`:
      the first non-space position at or after `from`, or `|s|`. */
  function SkipSpaces(s: string, from: nat): (k: nat)
    requires from <= |s|
    ensures from <= k <= |s|
    ensures forall j :: from <= j < k ==> s[j] == ' '
    ensures k < |s| ==> s[k] != ' '
    decreases |s| - from
  {
    if from < |s| && s[from] == ' ' then SkipSpaces(s, from + 1) else from
  }

  /** `find(' ')`, with the not-found result `npos` already clamped to the
      size, as the following `substr` and `find_first_not_of` treat it. */
  function FindSpace(s: string): (k: nat)
    ensures k <= |s|
    ensures forall j :: 0 <= j < k ==> s[j] != ' '
    ensures k < |s| ==> s[k] == ' '
  {
    if s == [] || s[0] == ' ' then 0 else 1 + FindSpace(s[1..])
  }

  /** The words of `s`: the maximal runs of non-space characters, in order. */
  function Words(s: string): seq<string>
    decreases |s|
  {
    var t := DropSpaces(s);
    if t == [] then []
    else
      var k := FindSpace(t);
      [t[..k]] + Words(t[k..])
  }

  // ---------------------------------------------------------------------------
  // Properties of the word sequence
  // ---------------------------------------------------------------------------

  /** The texts with no words are exactly the empty text and the texts made
      only of spaces. */
  lemma {:induction false} NoWordsIffBlank(s: string)
    ensures Words(s) == [] <==> forall i :: 0 <= i < |s| ==> s[i] == ' '
    decreases |s|
  {
    if s != [] && s[0] == ' ' {
      NoWordsIffBlank(s[1..]);
      assert forall i :: 1 <= i < |s| ==> s[i] == s[1..][i - 1];
    }
  }

  /** No word is empty and no word contains a space, whatever the spacing of
      the input. */
  lemma {:induction false} WordsAreNonEmptyWithoutSpaces(s: string)
    ensures forall w :: w in Words(s) ==> |w| > 0 && NoSpaces(w)
    decreases |s|
  {
    var t := DropSpaces(s);
    if t != [] {
      var k := FindSpace(t);
      WordsAreNonEmptyWithoutSpaces(t[k..]);
    }
  }

  lemma {:induction false} RemoveSpacesAppend(a: string, b: string)
    ensures RemoveSpaces(a + b) == RemoveSpaces(a) + RemoveSpaces(b)
    decreases |a|
  {
    if a == [] {
      assert a + b == b;
    } else {
      assert (a + b)[0] == a[0] && (a + b)[1..] == a[1..] + b;
      RemoveSpacesAppend(a[1..], b);
    }
  }

  lemma {:induction false} RemoveSpacesOfWord(w: string)
    requires NoSpaces(w)
    ensures RemoveSpaces(w) == w
    decreases |w|
  {
    if w != [] {
      RemoveSpacesOfWord(w[1..]);
    }
  }

  lemma {:induction false} RemoveSpacesOfDropped(s: string)
    ensures RemoveSpaces(DropSpaces(s)) == RemoveSpaces(s)
    decreases |s|
  {
    if s != [] && s[0] == ' ' {
      RemoveSpacesOfDropped(s[1..]);
    }
  }

  /** Joining the words gives back the input with every space removed: the
      split loses exactly the spaces. */
  lemma {:induction false} FlattenWords(s: string)
    ensures Flatten(Words(s)) == RemoveSpaces(s)
    decreases |s|
  {
    var t := DropSpaces(s);
    RemoveSpacesOfDropped(s);
    if t != [] {
      var k := FindSpace(t);
      FlattenWords(t[k..]);
      assert t == t[..k] + t[k..];
      RemoveSpacesAppend(t[..k], t[k..]);
      RemoveSpacesOfWord(t[..k]);
      assert Words(s)[1..] == Words(t[k..]);
    }
  }

  // ---------------------------------------------------------------------------
  // Unfolding facts used by the two implementations
  // ---------------------------------------------------------------------------

  /** A leading space contributes nothing. */
  lemma SpaceFirst(s: string)
    requires s != [] && s[0] == ' '
    ensures Words(s) == Words(s[1..])
  {
  }

  /** A space-free, non-empty prefix followed by a space or by the end of the
      text is the first word. */
  lemma WordThenRest(w: string, rest: string)
    requires w != [] && NoSpaces(w)
    requires rest == [] || rest[0] == ' '
    ensures Words(w + rest) == [w] + Words(rest)
  {
    var t := w + rest;
    assert DropSpaces(t) == t;
    var k := FindSpace(t);
    assert forall j :: 0 <= j < |w| ==> t[j] != ' ';
    assert rest != [] ==> t[|w|] == ' ';
    assert k == |w|;
    assert t[..k] == w && t[k..] == rest;
  }

  /** Dropping the spaces from position `from` on is slicing at `SkipSpaces`. */
  lemma {:induction false} SkipSpacesIsDrop(s: string, from: nat)
    requires from <= |s|
    ensures s[SkipSpaces(s, from)..] == DropSpaces(s[from..])
    decreases |s| - from
  {
    if from < |s| && s[from] == ' ' {
      SkipSpacesIsDrop(s, from + 1);
      assert s[from..][1..] == s[from + 1..];
    }
  }

  // ---------------------------------------------------------------------------
  // The two implementations
  // ---------------------------------------------------------------------------

  /** A space after the pending word completes it, if there is one, and
      contributes nothing itself. */
  lemma WordsAtSpace(word: string, rest: string)
    requires NoSpaces(word)
    requires rest != [] && rest[0] == ' '
    ensures Words(word + rest) == (if word == [] then [] else [word]) + Words(rest[1..])
  {
    SpaceFirst(rest);
    if word == [] {
      assert word + rest == rest;
    } else {
      WordThenRest(word, rest);
    }
  }

  /** The copying loop's step at a space: the pending word, if any, joins
      the result and a new, empty word begins. */
  lemma SpaceStep(words: seq<string>, word: string, text: string, i: nat, words': seq<string>, word': string)
    requires NoSpaces(word) && i < |text| && text[i] == ' '
    requires words + Words(word + text[i..]) == Words(text)
    requires words' == (if word == [] then words else words + [word]) && word' == []
    ensures words' + Words(word' + text[i + 1..]) == Words(text)
  {
    var rest := text[i..];
    assert word' + text[i + 1..] == rest[1..];
    WordsAtSpace(word, rest);
  }

  /** The copying loop's step at any other character: it extends the
      pending word. */
  lemma CharStep(words: seq<string>, word: string, text: string, i: nat)
    requires NoSpaces(word) && i < |text| && text[i] != ' '
    requires words + Words(word + text[i..]) == Words(text)
    ensures NoSpaces(word + [text[i]])
    ensures words + Words((word + [text[i]]) + text[i + 1..]) == Words(text)
  {
    assert word + text[i..] == (word + [text[i]]) + text[i + 1..];
  }

  /** The copying loop's step at the end of the text. */
  lemma EndStep(word: string)
    requires NoSpaces(word)
    ensures Words(word) == (if word == [] then [] else [word])
  {
    if word != [] {
      WordThenRest(word, []);
      assert word + [] == word;
    }
  }

  /** `SplitIntoWords`: one pass over the characters, collecting the current
      word and emitting it at each space and at the end. */
  method SplitIntoWords(text: string) returns (words: seq<string>)
    ensures words == Words(text)
  {
    words := [];
    var word: string := [];
    var i := 0;
    assert word + text[i..] == text;
    while i < |text|
      invariant 0 <= i <= |text|
      invariant NoSpaces(word)
      invariant words + Words(word + text[i..]) == Words(text)
    {
      var c := text[i];
      if c == ' ' {
        ghost var (words0, word0) := (words, word);
        if word != [] {
          words := words + [word];
        }
        word := [];
        SpaceStep(words0, word0, text, i, words, word);
      } else {
        CharStep(words, word, text, i);
        word := word + [c];
      }
      i := i + 1;
    }
    assert word + text[i..] == word;
    EndStep(word);
    if word != [] {
      words := words + [word];
    }
  }

  /** `SplitIntoWordsView`: strips the leading spaces, then repeatedly slices
      off the text up to the next space and skips the spaces after it. At the
      loop head the remaining text never starts with a space. */
  method SplitIntoWordsView(str: string) returns (result: seq<string>)
    ensures result == Words(str)
  {
    result := [];
    var rest := str[SkipSpaces(str, 0)..];
    SkipSpacesIsDrop(str, 0);
    assert str[0..] == str;
    while rest != []
      invariant rest == [] || rest[0] != ' '
      invariant result + Words(rest) == Words(str)
      decreases |rest|
    {
      var space := FindSpace(rest);
      result := result + [rest[..space]];
      SkipSpacesIsDrop(rest, space);
      rest := rest[SkipSpaces(rest, space)..];
    }
  }
}
