// The candidate filter of the regex-based Wordle agent (wordle/my_agent.py):
// it keeps the words that fit the known pattern, avoid the grey letters and
// the letters ruled out per position, and contain the yellow letters.
// The game's words are upper-cased and those holding an apostrophe, a space,
// a slash, a hyphen or a full stop are dropped (wordle/wordle.py:34-37), so
// the letters are plain upper-case characters and every regular
// expression the agent builds is one of three simple tests, modelled as
// predicates: a positional prefix match, a character-class search, and a
// search for two occurrences of one letter.
module CandidateFilter {

  /** `re.match(pattern, w)` for a pattern of letters and '.': the pattern
    * matches a prefix of `w`, '.' standing for any character. */
  predicate MatchesPattern(pattern: string, w: string)
  {
    |w| >= |pattern| && forall k :: 0 <= k < |pattern| ==> pattern[k] == '.' || pattern[k] == w[k]
  }

  /** `re.search("[chars]", w)`: some character of `w` is one of `chars`. */
  predicate SearchClass(chars: string, w: string)
  {
    exists k :: 0 <= k < |w| && w[k] in chars
  }

  function CountChar(w: string, c: char): nat
  {
    if w == [] then 0 else (if w[0] == c then 1 else 0) + CountChar(w[1..], c)
  }

  /** The occurrences of `c` are counted by positions holding it. */
  lemma {:induction false} CountCharTwoIff(w: string, c: char)
    ensures CountChar(w, c) >= 2 <==> exists p, q :: 0 <= p < q < |w| && w[p] == c && w[q] == c
    ensures CountChar(w, c) >= 1 <==> c in w
  {
    if w != [] {
      CountCharTwoIff(w[1..], c);
      if CountChar(w, c) >= 2 {
        if w[0] == c {
          var q :| 0 <= q < |w[1..]| && w[1..][q] == c;
          assert w[0] == c && w[q + 1] == c;
        } else {
          var p, q :| 0 <= p < q < |w[1..]| && w[1..][p] == c && w[1..][q] == c;
          assert w[p + 1] == c && w[q + 1] == c;
        }
      }
      if exists p, q :: 0 <= p < q < |w| && w[p] == c && w[q] == c {
        var p, q :| 0 <= p < q < |w| && w[p] == c && w[q] == c;
        if p == 0 {
          assert w[1..][q - 1] == c;
        } else {
          assert w[1..][p - 1] == c && w[1..][q - 1] == c;
        }
      }
      if c in w && w[0] != c {
        var k :| 0 <= k < |w| && w[k] == c;
        assert w[1..][k - 1] == c;
      }
    }
  }

  /** `re.search(".*(c.*c).*", w)`: `w` holds `c` at least twice. */
  predicate SearchTwice(c: char, w: string)
  {
    CountChar(w, c) >= 2
  }

  /** The filter's inputs: the pattern and the agent's grey, per-position and yellow letters. */
  datatype Criteria = Criteria(pattern: string, greys: string, indi: seq<string>, yellows: string, wordLength: nat)

  predicate WellFormed(c: Criteria)
  {
    c.wordLength <= |c.pattern| && c.wordLength <= |c.indi|
  }

  /** Position e of `w` holds a letter ruled out there (`re.search("[w[e]]", indi[e])`). */
  predicate BannedAt(c: Criteria, w: string, e: nat)
    requires e < |w| && e < |c.indi|
  {
    SearchClass([w[e]], c.indi[e])
  }

  predicate PositionBanned(c: Criteria, w: string)
    requires WellFormed(c) && |w| >= c.wordLength
  {
    exists e :: 0 <= e < c.wordLength && BannedAt(c, w, e)
  }

  /** Yellow i is found in `w`: once, or twice when the next yellow is the same letter. */
  predicate YellowHit(yellows: string, i: nat, w: string)
    requires i < |yellows|
  {
    if i < |yellows| - 1 && yellows[i] == yellows[i + 1] then SearchTwice(yellows[i], w)
    else SearchClass([yellows[i]], w)
  }

  /** The yellow checks among the first `i` that `w` passes (the agent's `addCheck`). */
  function YellowHits(yellows: string, w: string, i: nat): nat
    requires i <= |yellows|
  {
    if i == 0 then 0 else YellowHits(yellows, w, i - 1) + (if YellowHit(yellows, i - 1, w) then 1 else 0)
  }

  /** iterMethod's test of one word: pattern, then greys, then the per-position
    * letters, then the yellow count. */
  predicate Keep(c: Criteria, w: string)
    requires WellFormed(c)
  {
    MatchesPattern(c.pattern, w)
    && !SearchClass(c.greys, w)
    && !PositionBanned(c, w)
    && (c.yellows == "" || YellowHits(c.yellows, w, |c.yellows|) == |c.yellows|)
  }

  /** The words among the first `n` of `words` that pass, in order. */
  function Kept(c: Criteria, words: seq<string>, n: nat): seq<string>
    requires WellFormed(c) && n <= |words|
  {
    if n == 0 then [] else Kept(c, words, n - 1) + (if Keep(c, words[n - 1]) then [words[n - 1]] else [])
  }

  /** The heuristic entries at the positions of the kept words. */
  function KeptHeuristic(c: Criteria, words: seq<string>, h: seq<real>, n: nat): seq<real>
    requires WellFormed(c) && n <= |words| && n <= |h|
  {
    if n == 0 then [] else KeptHeuristic(c, words, h, n - 1) + (if Keep(c, words[n - 1]) then [h[n - 1]] else [])
  }

  /** The positions, among the first `n`, of the words that pass. */
  function KeptPositions(c: Criteria, words: seq<string>, n: nat): seq<nat>
    requires WellFormed(c) && n <= |words|
  {
    if n == 0 then [] else KeptPositions(c, words, n - 1) + (if Keep(c, words[n - 1]) then [n - 1] else [])
  }

  /** The result is an order-preserving selection from the input: positions
    * strictly ascending, exactly the passing ones, the heuristic entries
    * staying aligned with their words. */
  lemma {:induction false} KeptIsSelection(c: Criteria, words: seq<string>, h: seq<real>, n: nat)
    requires WellFormed(c) && n <= |words| && n <= |h|
    ensures |KeptPositions(c, words, n)| == |Kept(c, words, n)| == |KeptHeuristic(c, words, h, n)|
    ensures forall p, q :: 0 <= p < q < |KeptPositions(c, words, n)| ==> KeptPositions(c, words, n)[p] < KeptPositions(c, words, n)[q]
    ensures forall k :: 0 <= k < |KeptPositions(c, words, n)| ==>
      KeptPositions(c, words, n)[k] < n
      && Kept(c, words, n)[k] == words[KeptPositions(c, words, n)[k]]
      && KeptHeuristic(c, words, h, n)[k] == h[KeptPositions(c, words, n)[k]]
    ensures forall j :: 0 <= j < n ==> (j in KeptPositions(c, words, n) <==> Keep(c, words[j]))
  {
    if n > 0 {
      KeptIsSelection(c, words, h, n - 1);
    }
  }

  /** Every kept word fits the pattern, has no grey letter and no letter ruled out at its position. */
  lemma {:induction false} KeptWordsPass(c: Criteria, words: seq<string>, n: nat)
    requires WellFormed(c) && n <= |words|
    ensures forall w :: w in Kept(c, words, n) ==>
      MatchesPattern(c.pattern, w)
      && (forall j :: 0 <= j < |w| ==> w[j] !in c.greys)
      && (forall e :: 0 <= e < c.wordLength ==> w[e] !in c.indi[e])
  {
    if n > 0 {
      KeptWordsPass(c, words, n - 1);
      var w := words[n - 1];
      if Keep(c, w) {
        forall e | 0 <= e < c.wordLength ensures w[e] !in c.indi[e] {
          assert !BannedAt(c, w, e);
        }
      }
    }
  }

  /** With no yellow letters, every word that fits the pattern, avoids the
    * greys and the per-position letters is kept. */
  lemma {:induction false} NoYellowsKeepsPassing(c: Criteria, words: seq<string>, n: nat, j: nat)
    requires WellFormed(c) && n <= |words| && j < n
    requires c.yellows == ""
    requires MatchesPattern(c.pattern, words[j])
    requires forall i :: 0 <= i < |words[j]| ==> words[j][i] !in c.greys
    requires forall e :: 0 <= e < c.wordLength ==> words[j][e] !in c.indi[e]
    ensures words[j] in Kept(c, words, n)
  {
    if j < n - 1 {
      NoYellowsKeepsPassing(c, words, n - 1, j);
    }
  }

  lemma {:induction false} YellowHitsAll(yellows: string, w: string, i: nat)
    requires i <= |yellows|
    ensures YellowHits(yellows, w, i) <= i
    ensures YellowHits(yellows, w, i) == i <==> forall k :: 0 <= k < i ==> YellowHit(yellows, k, w)
  {
    if i > 0 {
      YellowHitsAll(yellows, w, i - 1);
    }
  }

  lemma YellowFound(c: Criteria, w: string, i: nat)
    requires WellFormed(c) && i < |c.yellows| && YellowHit(c.yellows, i, w)
    ensures c.yellows[i] in w
    ensures i < |c.yellows| - 1 && c.yellows[i] == c.yellows[i + 1] ==>
      exists p, q :: 0 <= p < q < |w| && w[p] == c.yellows[i] && w[q] == c.yellows[i]
  {
    CountCharTwoIff(w, c.yellows[i]);
  }

  /** A word kept against yellow letters contains every one of them, and
    * twice a letter repeated consecutively among the yellows. */
  lemma KeptHasYellows(c: Criteria, w: string, i: nat)
    requires WellFormed(c) && c.yellows != "" && Keep(c, w) && i < |c.yellows|
    ensures c.yellows[i] in w
    ensures i < |c.yellows| - 1 && c.yellows[i] == c.yellows[i + 1] ==>
      exists p, q :: 0 <= p < q < |w| && w[p] == c.yellows[i] && w[q] == c.yellows[i]
  {
    YellowHitsAll(c.yellows, w, |c.yellows|);
    YellowFound(c, w, i);
  }

  /** Some letter occurs twice. */
  predicate HasRepeat(w: string)
  {
    exists p, q :: 0 <= p < q < |w| && w[p] == w[q]
  }

  /** iterMethod's per-position loop: stops at the first position whose letter is ruled out there. */
  method PositionCheck(c: Criteria, w: string) returns (addCheck: int)
    requires WellFormed(c) && |w| >= c.wordLength
    ensures addCheck == 0 || addCheck == 1
    ensures addCheck == 1 <==> PositionBanned(c, w)
  {
    addCheck := 0;
    for e := 0 to c.wordLength
      invariant forall e' :: 0 <= e' < e ==> !BannedAt(c, w, e')
    {
      if SearchClass([w[e]], c.indi[e]) {
        assert BannedAt(c, w, e);
        return 1;
      }
    }
  }

  /** iterMethod's yellow loop: counts the yellow checks the word passes. (The
    * source's `i += 1` after a doubled yellow does not skip the next one.) */
  method CountYellowHits(yellows: string, w: string) returns (addCheck: nat)
    ensures addCheck == YellowHits(yellows, w, |yellows|)
    ensures addCheck <= |yellows|
  {
    addCheck := 0;
    for i := 0 to |yellows|
      invariant addCheck == YellowHits(yellows, w, i)
    {
      var twice := i < |yellows| - 1 && yellows[i] == yellows[i + 1];
      if twice {
        if SearchTwice(yellows[i], w) {
          addCheck := addCheck + 1;
        }
      } else if SearchClass([yellows[i]], w) {
        addCheck := addCheck + 1;
      }
    }
    YellowHitsAll(yellows, w, |yellows|);
  }

  /** The agent's fixed table of average English letter frequencies, a to z. */
  function Frequencies(): seq<real>
  {
    [8.92, 1.39, 3.44, 4.15, 13.97, 1.24, 1.71, 2.96, 7.43, 0.34, 0.49, 4.89, 2.85,
     7.52, 6.72, 2.24, 0.51, 6.32, 6.62, 6.77, 4.09, 1.31, 0.84, 0.16, 0.67, 0.56]
  }

  class WordleAgent {
    const dictionary: seq<string>
    const letters: seq<char>
    const wordLength: nat
    const numGuesses: int
    const mode: string
    var yellows: string
    var greys: string
    var patt: string
    var indi: seq<string>
    var possibilities: seq<string>
    var heuristic: seq<real>
    var freq: seq<real>

    /** The class-level defaults: empty strings and lists (IterMethod needs InitCheatCodes first). */
    constructor(dictionary: seq<string>, letters: seq<char>, wordLength: nat, numGuesses: int, mode: string)
      ensures this.dictionary == dictionary && this.letters == letters && this.wordLength == wordLength
      ensures this.numGuesses == numGuesses && this.mode == mode
      ensures yellows == "" && greys == "" && patt == "" && indi == [] && possibilities == [] && heuristic == [] && freq == []
    {
      this.dictionary := dictionary;
      this.letters := letters;
      this.wordLength := wordLength;
      this.numGuesses := numGuesses;
      this.mode := mode;
      yellows, greys, patt := "", "", "";
      indi, possibilities, heuristic, freq := [], [], [], [];
    }

    function CurrentCriteria(pattern: string): Criteria
      reads this
    {
      Criteria(pattern, greys, indi, yellows, wordLength)
    }

    /** Resets the per-game knowledge. `greys` starts as "." so that its
      * character class is never empty; no dictionary word holds a dot. */
    method InitCheatCodes()
      modifies this
      ensures yellows == "" && greys == "." && patt == "....." && indi == ["", "", "", "", ""]
      ensures possibilities == [] && heuristic == [] && freq == Frequencies()
    {
      yellows := "";
      greys := ".";
      patt := ".....";
      indi := ["", "", "", "", ""];
      possibilities := [];
      heuristic := [];
      freq := Frequencies();
    }

    /** `repeating(word)`: 1 when some letter is found twice, by testing each
      * letter but the last for a second occurrence. */
    method Repeating(word: string) returns (r: int)
      ensures r == 0 || r == 1
      ensures r == 1 <==> HasRepeat(word)
    {
      var j := 0;
      while j < |word| - 1
        invariant 0 <= j <= |word|
        invariant forall j' :: 0 <= j' < j ==> !SearchTwice(word[j'], word)
      {
        if SearchTwice(word[j], word) {
          CountCharTwoIff(word, word[j]);
          return 1;
        }
        j := j + 1;
      }
      if HasRepeat(word) {
        var p, q :| 0 <= p < q < |word| && word[p] == word[q];
        CountCharTwoIff(word, word[p]);
        assert SearchTwice(word[p], word);
        assert false;
      }
      return 0;
    }

    /** `iterMethod(words, pattern, possible_solutions)`: appends the passing
      * words to `possible_solutions`; when filtering a list other than the
      * dictionary, `heuristic` is cut down to the kept words' entries. The
      * grey letters must not be empty: the class default "" would make the
      * grey test the pattern `[]`, which `re` refuses to compile, so the
      * method is only usable once InitCheatCodes has set `greys` to ".". */
    method IterMethod(words: seq<string>, pattern: string, possibleSolutions: seq<string>) returns (result: seq<string>)
      requires greys != ""
      requires WellFormed(CurrentCriteria(pattern))
      requires words != dictionary ==> |words| <= |heuristic|
      modifies this
      ensures result == possibleSolutions + Kept(old(CurrentCriteria(pattern)), words, |words|)
      ensures words != dictionary ==> heuristic == KeptHeuristic(old(CurrentCriteria(pattern)), words, old(heuristic), |words|)
      ensures words == dictionary ==> heuristic == old(heuristic)
      ensures yellows == old(yellows) && greys == old(greys) && patt == old(patt) && indi == old(indi)
      ensures possibilities == old(possibilities) && freq == old(freq)
    {
      var c := CurrentCriteria(pattern);
      var nextGuessIndex := 0;
      var tempH: seq<real> := [];
      result := possibleSolutions;
      while nextGuessIndex < |words|
        invariant nextGuessIndex <= |words|
        invariant unchanged(this)
        invariant result == possibleSolutions + Kept(c, words, nextGuessIndex)
        invariant words != dictionary ==> tempH == KeptHeuristic(c, words, heuristic, nextGuessIndex)
      {
        var addIt := 0;
        var nextGuess := words[nextGuessIndex];
        if MatchesPattern(pattern, nextGuess) {
          if !SearchClass(greys, nextGuess) {
            var addCheck := PositionCheck(c, nextGuess);
            if addCheck == 0 {
              if yellows == "" {
                addIt := 1;
              } else {
                var hits := CountYellowHits(yellows, nextGuess);
                if hits == |yellows| {
                  addIt := 1;
                }
              }
            }
          }
        }
        assert addIt == 1 <==> Keep(c, nextGuess);
        if addIt == 1 {
          result := result + [nextGuess];
          if words != dictionary {
            tempH := tempH + [heuristic[nextGuessIndex]];
          }
        }
        nextGuessIndex := nextGuessIndex + 1;
      }
      if words != dictionary {
        heuristic := tempH;
      }
    }
  }
}
