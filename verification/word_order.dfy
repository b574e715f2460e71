/** The word ordering that opens every generation pass: the words are grouped
    by length, each group is shuffled with Fisher–Yates, and the groups are
    concatenated from the longest length to the shortest.

    The random source is a stream `rng` read from position `cursor` on; the
    source's `Math.floor(Math.random() * (i + 1))` is `rng(cursor) % (i + 1)`,
    which ranges over exactly the swap indices 0..i. */
module WordOrder {

  /** Exchanges `g[i]` and `g[j]`; a Fisher–Yates step only ever swaps with a
      position at or below the current one. */
  function Swap(g: seq<string>, i: nat, j: nat): (r: seq<string>)
    requires j <= i < |g|
    ensures |r| == |g| && r[i] == g[j] && r[j] == g[i]
    ensures forall t :: 0 <= t < |g| && t != i && t != j ==> r[t] == g[t]
    ensures multiset(r) == multiset(g)
  {
    g[i := g[j]][j := g[i]]
  }

  /** Fisher–Yates from index `i` down to 1: step `i` swaps `g[i]` with a
      position drawn from 0..i and moves the stream one draw on. */
  function FisherYates(g: seq<string>, i: nat, rng: nat -> nat, cursor: nat): (r: seq<string>)
    requires i < |g|
    ensures |r| == |g|
    ensures multiset(r) == multiset(g)
    ensures forall t :: i < t < |g| ==> r[t] == g[t]
    decreases i
  {
    if i == 0 then g
    else FisherYates(Swap(g, i, rng(cursor) % (i + 1)), i - 1, rng, cursor + 1)
  }

  /** The words of length `len`, in input order. */
  function Group(words: seq<string>, len: nat): (g: seq<string>)
    ensures forall w :: multiset(g)[w] == if |w| == len then multiset(words)[w] else 0
  {
    if words == [] then []
    else
      assert words == [words[0]] + words[1..];
      (if |words[0]| == len then [words[0]] else []) + Group(words[1..], len)
  }

  /** How many draws shuffling a group of `n` words consumes. */
  function SwapCount(n: nat): nat {
    if n == 0 then 0 else n - 1
  }

  /** The stream position at which the group of length `len` starts drawing:
      groups are shuffled in ascending length order, the order in which a
      JavaScript object enumerates integer keys. */
  function Offset(words: seq<string>, len: nat, cursor: nat): nat {
    if len == 0 then cursor else Offset(words, len - 1, cursor) + SwapCount(|Group(words, len - 1)|)
  }

  /** The group of length `len` after its shuffle. */
  function Shuffled(words: seq<string>, len: nat, rng: nat -> nat, cursor: nat): (r: seq<string>)
    ensures multiset(r) == multiset(Group(words, len))
  {
    var g := Group(words, len);
    if |g| == 0 then [] else FisherYates(g, |g| - 1, rng, Offset(words, len, cursor))
  }

  predicate NonIncreasingLengths(r: seq<string>) {
    forall i, j :: 0 <= i < j < |r| ==> |r[i]| >= |r[j]|
  }

  /** Prepending a block of words of length `len` to a list of shorter,
      length-ordered words keeps the lengths non-increasing and bounded by `len`. */
  lemma PrependLongerBlock(s: seq<string>, rest: seq<string>, len: nat)
    requires forall i :: 0 <= i < |s| ==> |s[i]| == len
    requires forall i :: 0 <= i < |rest| ==> |rest[i]| < len
    requires NonIncreasingLengths(rest)
    ensures forall i :: 0 <= i < |s + rest| ==> |(s + rest)[i]| <= len
    ensures NonIncreasingLengths(s + rest)
  {
    var r := s + rest;
    forall i | 0 <= i < |r| ensures |r[i]| <= len {
      if i >= |s| {
        assert r[i] == rest[i - |s|];
      }
    }
    forall i, j | 0 <= i < j < |r| ensures |r[i]| >= |r[j]| {
      if j >= |s| {
        assert r[j] == rest[j - |s|];
        if i >= |s| {
          assert r[i] == rest[i - |s|];
        }
      }
    }
  }

  lemma ShuffledLengths(words: seq<string>, len: nat, rng: nat -> nat, cursor: nat)
    ensures var s := Shuffled(words, len, rng, cursor);
      forall i :: 0 <= i < |s| ==> |s[i]| == len
  {
    var s := Shuffled(words, len, rng, cursor);
    forall i | 0 <= i < |s| ensures |s[i]| == len {
      assert s[i] in multiset(s);
    }
  }

  /** The shuffled groups of lengths `len`, `len - 1`, ..., 0, concatenated. */
  function Arrange(words: seq<string>, len: nat, rng: nat -> nat, cursor: nat): (r: seq<string>)
    ensures forall i :: 0 <= i < |r| ==> |r[i]| <= len
    ensures NonIncreasingLengths(r)
    ensures forall w :: multiset(r)[w] == if |w| <= len then multiset(words)[w] else 0
  {
    var s := Shuffled(words, len, rng, cursor);
    ShuffledLengths(words, len, rng, cursor);
    if len == 0 then s
    else
      var rest := Arrange(words, len - 1, rng, cursor);
      PrependLongerBlock(s, rest, len);
      assert multiset(s + rest) == multiset(s) + multiset(rest);
      s + rest
  }

  function MaxLen(words: seq<string>): (m: nat)
    ensures forall i :: 0 <= i < |words| ==> |words[i]| <= m
    ensures words != [] ==> exists i :: 0 <= i < |words| && |words[i]| == m
  {
    if words == [] then 0
    else
      var m := MaxLen(words[1..]);
      if |words[0]| >= m then |words[0]| else m
  }

  /** The source's `shuffleByWordLength`. */
  function ShuffleByWordLength(words: seq<string>, rng: nat -> nat, cursor: nat): (r: seq<string>)
    ensures multiset(r) == multiset(words)
    ensures NonIncreasingLengths(r)
  {
    var r := Arrange(words, MaxLen(words), rng, cursor);
    assert forall w :: multiset(r)[w] == multiset(words)[w] by {
      forall w ensures multiset(r)[w] == multiset(words)[w] {
        if w in words {
          var i :| 0 <= i < |words| && words[i] == w;
        }
      }
    }
    r
  }

  /** The stream position after `ShuffleByWordLength` has made its draws. */
  function ShuffleDrawsEnd(words: seq<string>, cursor: nat): nat {
    Offset(words, MaxLen(words) + 1, cursor)
  }

  lemma InOrdering(words: seq<string>, r: seq<string>, i: int)
    requires multiset(r) == multiset(words) && NonIncreasingLengths(r)
    requires 0 <= i < |words|
    ensures |r| > 0 && |words[i]| <= |r[0]|
  {
    assert words[i] in multiset(r);
    var t :| 0 <= t < |r| && r[t] == words[i];
  }

  /** The ordering starts with a longest word. */
  lemma FirstIsLongest(words: seq<string>, rng: nat -> nat, cursor: nat)
    requires words != []
    ensures var r := ShuffleByWordLength(words, rng, cursor);
      |r| == |words| && forall i :: 0 <= i < |words| ==> |words[i]| <= |r[0]|
  {
    var r := ShuffleByWordLength(words, rng, cursor);
    assert |r| == |multiset(r)| == |multiset(words)| == |words|;
    forall i | 0 <= i < |words| ensures |words[i]| <= |r[0]| {
      InOrdering(words, r, i);
    }
  }
}
