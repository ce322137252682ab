// Conversions between a word and its letters' positions in the game's
// alphabet (wordle/helper.py).
module WordleHelper {
  import opened Wrappers

  /** The characters of `word` that occur in `letters`, in order; the others are skipped. */
  function KnownChars(word: string, letters: seq<char>): (r: string)
    ensures |r| <= |word|
    ensures forall k :: 0 <= k < |r| ==> r[k] in letters
  {
    if word == [] then []
    else (if word[0] in letters then [word[0]] else []) + KnownChars(word[1..], letters)
  }

  /** Each character of the word, in order, becomes the index of its first
    * occurrence in the alphabet; a character outside the alphabet is dropped. */
  function WordToLetterIndices(word: string, letters: seq<char>): (r: seq<int>)
    ensures forall k :: 0 <= k < |r| ==> 0 <= r[k] < |letters|
    ensures forall k :: 0 <= k < |r| ==> forall p :: 0 <= p < r[k] ==> letters[p] != letters[r[k]]
  {
    if word == [] then []
    else
      var rest := WordToLetterIndices(word[1..], letters);
      match IndexOf(letters, word[0])
      case None => rest
      case Some(i) => [i as int] + rest
  }

  /** The indices spell out, letter by letter, the known characters of the word. */
  lemma {:induction false} IndicesSpellKnownChars(word: string, letters: seq<char>)
    ensures |WordToLetterIndices(word, letters)| == |KnownChars(word, letters)|
    ensures forall k :: 0 <= k < |KnownChars(word, letters)| ==>
      letters[WordToLetterIndices(word, letters)[k]] == KnownChars(word, letters)[k]
  {
    if word != [] {
      IndicesSpellKnownChars(word[1..], letters);
      var rest := WordToLetterIndices(word[1..], letters);
      var kc := KnownChars(word[1..], letters);
      match IndexOf(letters, word[0])
      case None =>
        assert KnownChars(word, letters) == kc;
      case Some(i) =>
        assert KnownChars(word, letters) == [word[0]] + kc;
        assert WordToLetterIndices(word, letters) == [i as int] + rest;
    }
  }

  /** Concatenates the alphabet letters at the given indices (Python indexing, so -1 is the last letter). */
  function LetterIndicesToWord(indices: seq<int>, letters: seq<char>): (w: string)
    requires forall k :: 0 <= k < |indices| ==> -|letters| <= indices[k] < |letters|
    ensures |w| == |indices|
    ensures forall k :: 0 <= k < |w| ==> w[k] == letters[PyIndex(indices[k], |letters|)]
  {
    if indices == [] then []
    else [letters[PyIndex(indices[0], |letters|)]] + LetterIndicesToWord(indices[1..], letters)
  }

  /** Exactly the characters outside the alphabet are lost by the conversion. */
  lemma {:induction false} LengthKeptIffAllKnown(word: string, letters: seq<char>)
    ensures |WordToLetterIndices(word, letters)| == |word| <==> forall k :: 0 <= k < |word| ==> word[k] in letters
  {
    IndicesSpellKnownChars(word, letters);
    if word != [] {
      LengthKeptIffAllKnown(word[1..], letters);
      IndicesSpellKnownChars(word[1..], letters);
      assert forall k :: 1 <= k < |word| ==> word[k] == word[1..][k - 1];
    }
  }

  /** Round trip word -> indices -> word: the word comes back with its unknown characters dropped. */
  lemma {:induction false} WordRoundTrip(word: string, letters: seq<char>)
    ensures LetterIndicesToWord(WordToLetterIndices(word, letters), letters) == KnownChars(word, letters)
  {
    var r := WordToLetterIndices(word, letters);
    var w := LetterIndicesToWord(r, letters);
    var kc := KnownChars(word, letters);
    IndicesSpellKnownChars(word, letters);
    forall k | 0 <= k < |w| ensures w[k] == kc[k] {
      assert PyIndex(r[k], |letters|) == r[k];
    }
  }

  /** A word made only of alphabet letters survives the round trip unchanged. */
  lemma {:induction false} KnownCharsOfKnownWord(word: string, letters: seq<char>)
    requires forall k :: 0 <= k < |word| ==> word[k] in letters
    ensures KnownChars(word, letters) == word
  {
    if word != [] {
      assert forall k :: 0 <= k < |word| - 1 ==> word[1..][k] == word[k + 1];
      KnownCharsOfKnownWord(word[1..], letters);
    }
  }

  lemma WordRoundTripOfKnownWord(word: string, letters: seq<char>)
    requires forall k :: 0 <= k < |word| ==> word[k] in letters
    ensures LetterIndicesToWord(WordToLetterIndices(word, letters), letters) == word
  {
    WordRoundTrip(word, letters);
    KnownCharsOfKnownWord(word, letters);
  }

  /** Round trip indices -> word -> indices, for an alphabet without repeated letters. */
  lemma {:induction false} IndicesRoundTrip(indices: seq<int>, letters: seq<char>)
    requires forall p, q :: 0 <= p < q < |letters| ==> letters[p] != letters[q]
    requires forall k :: 0 <= k < |indices| ==> 0 <= indices[k] < |letters|
    ensures WordToLetterIndices(LetterIndicesToWord(indices, letters), letters) == indices
  {
    if indices != [] {
      var w := LetterIndicesToWord(indices, letters);
      assert w[1..] == LetterIndicesToWord(indices[1..], letters);
      IndicesRoundTrip(indices[1..], letters);
      var i := IndexOf(letters, w[0]);
      assert w[0] == letters[indices[0]];
      assert i.Some? && i.value == indices[0];
    }
  }
}
