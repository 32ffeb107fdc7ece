/** The required letter adjacencies, read off the word list: every two
    consecutive letters of a word must sit in touching cells. The source
    stores a pair as the string "X-Y"; here it is the pair (X, Y). */
module Connections {

  /** Some word has a directly followed by b. */
  ghost predicate Follows(words: seq<string>, a: char, b: char) {
    exists w, i :: w in words && 0 <= i < |w| - 1 && w[i] == a && w[i + 1] == b
  }

  /** Among the first i letter pairs of w, a is directly followed by b. */
  ghost predicate PairIn(w: string, i: int, a: char, b: char) {
    exists j :: 0 <= j < i && j < |w| - 1 && w[j] == a && w[j + 1] == b
  }

  ghost predicate Symmetric(connections: set<(char, char)>) {
    forall a, b :: (a, b) in connections ==> (b, a) in connections
  }

  /** `BuildRequiredConnectionsFromWords`: (a, b) is a connection exactly
      when a and b are consecutive in some word, in either order. */
  method BuildRequiredConnectionsFromWords(words: seq<string>) returns (connections: set<(char, char)>)
    ensures forall a, b :: (a, b) in connections <==> Follows(words, a, b) || Follows(words, b, a)
    ensures Symmetric(connections)
  {
    connections := {};
    for n := 0 to |words|
      invariant forall a, b :: (a, b) in connections <==> Follows(words[..n], a, b) || Follows(words[..n], b, a)
    {
      var word := words[n];
      var i := 0;
      while i < |word| - 1
        invariant 0 <= i <= if |word| == 0 then 0 else |word| - 1
        invariant forall a, b :: (a, b) in connections <==>
          Follows(words[..n], a, b) || Follows(words[..n], b, a) || PairIn(word, i, a, b) || PairIn(word, i, b, a)
      {
        connections := connections + {(word[i], word[i + 1])};
        connections := connections + {(word[i + 1], word[i])};
        forall a, b
          ensures PairIn(word, i + 1, a, b) <==> PairIn(word, i, a, b) || (word[i] == a && word[i + 1] == b)
        {
          PairInStep(word, i, a, b);
        }
        i := i + 1;
      }
      forall a, b
        ensures Follows(words[..n + 1], a, b) <==> Follows(words[..n], a, b) || PairIn(word, i, a, b)
      {
        FollowsNext(words, n, i, a, b);
      }
    }
    assert words[..|words|] == words;
  }

  lemma PairInStep(w: string, i: int, a: char, b: char)
    requires 0 <= i < |w| - 1
    ensures PairIn(w, i + 1, a, b) <==> PairIn(w, i, a, b) || (w[i] == a && w[i + 1] == b)
  {
    if PairIn(w, i + 1, a, b) && !(w[i] == a && w[i + 1] == b) {
      var j :| 0 <= j < i + 1 && j < |w| - 1 && w[j] == a && w[j + 1] == b;
      assert j < i;
    }
  }

  /** Adding word n to the words handled so far adds its letter pairs. */
  lemma FollowsNext(words: seq<string>, n: int, i: int, a: char, b: char)
    requires 0 <= n < |words| && i == if |words[n]| == 0 then 0 else |words[n]| - 1
    ensures Follows(words[..n + 1], a, b) <==> Follows(words[..n], a, b) || PairIn(words[n], i, a, b)
  {
    var word := words[n];
    assert words[..n + 1] == words[..n] + [word];
    if Follows(words[..n + 1], a, b) {
      var w, j :| w in words[..n + 1] && 0 <= j < |w| - 1 && w[j] == a && w[j + 1] == b;
      if w != word {
        assert w in words[..n];
      }
    }
    if PairIn(word, i, a, b) {
      var j :| 0 <= j < i && j < |word| - 1 && word[j] == a && word[j + 1] == b;
      assert word in words[..n + 1];
    }
    if Follows(words[..n], a, b) {
      var w, j :| w in words[..n] && 0 <= j < |w| - 1 && w[j] == a && w[j + 1] == b;
      assert w in words[..n + 1];
    }
  }
}
