/** The dictionary test of game.js (isValidWord): a word counts in either reading direction. */
module Words {

  /** word.split('').reverse().join('') */
  function Reverse(s: string): (r: string)
    ensures |r| == |s|
  {
    if s == [] then [] else Reverse(s[1..]) + [s[0]]
  }

  /** isValidWord, game.js:190-192: the word or its reversal is a key of the dictionary. */
  function IsValidWord(words: set<string>, w: string): (r: bool)
    ensures w in words ==> r
  {
    w in words || Reverse(w) in words
  }

  lemma {:induction false} ReverseAppend(s: string, t: string)
    ensures Reverse(s + t) == Reverse(t) + Reverse(s)
  {
    if s == [] {
      assert s + t == t;
    } else {
      assert (s + t)[1..] == s[1..] + t;
      ReverseAppend(s[1..], t);
    }
  }

  /** Reading a word backwards twice gives the word back. */
  lemma {:induction false} ReverseInvolutive(s: string)
    ensures Reverse(Reverse(s)) == s
  {
    if s != [] {
      ReverseAppend(Reverse(s[1..]), [s[0]]);
      ReverseInvolutive(s[1..]);
      assert [s[0]] + s[1..] == s;
    }
  }

  /** The i-th letter of the reversal is the i-th letter from the end. */
  lemma {:induction false} ReverseAt(s: string)
    ensures forall i :: 0 <= i < |s| ==> Reverse(s)[i] == s[|s| - 1 - i]
  {
    if s != [] {
      ReverseAt(s[1..]);
    }
  }

  /** A string and its reversal are accepted or rejected together. */
  lemma ValidWordSymmetric(words: set<string>, w: string)
    ensures IsValidWord(words, w) == IsValidWord(words, Reverse(w))
  {
    ReverseInvolutive(w);
  }
}
