/** The vocabulary: a map from subword to token id, and the reverse table
    from id to subword that is filled from it at start-up. */
module Vocabulary {

  datatype Option<T> = None | Some(value: T)

  /** Every id indexes the reverse table, which has one slot per entry. */
  predicate IdsInRange(vocab: map<string, int>) {
    forall k :: k in vocab ==> 0 <= vocab[k] < |vocab|
  }

  /** No two subwords share an id. */
  predicate IdsDistinct(vocab: map<string, int>) {
    forall k, k' :: k in vocab && k' in vocab && k != k' ==> vocab[k] != vocab[k']
  }

  /** The ids are exactly 0 .. |vocab| - 1, each once. */
  predicate IsPermutation(vocab: map<string, int>) {
    IdsInRange(vocab) && IdsDistinct(vocab)
  }

  /** The fill of the reverse table: a table of |vocab| empty slots (the
      nulls of a fresh string array), then, for every entry in whatever order
      the dictionary yields them, the key is written to the slot its id
      names. */
  method LoadVocabulary(vocab: map<string, int>) returns (tokens: array<Option<string>>)
    requires IdsInRange(vocab)
    ensures tokens.Length == |vocab|
    ensures forall j :: 0 <= j < tokens.Length && tokens[j].Some? ==>
      tokens[j].value in vocab && vocab[tokens[j].value] == j
    ensures forall k :: k in vocab ==> tokens[vocab[k]].Some?
    ensures IdsDistinct(vocab) ==> forall k :: k in vocab ==> tokens[vocab[k]] == Some(k)
    ensures IsPermutation(vocab) ==> forall j :: 0 <= j < tokens.Length ==> tokens[j].Some?
  {
    tokens := new Option<string>[|vocab|](_ => None);
    var rest := vocab.Keys;
    while rest != {}
      invariant rest <= vocab.Keys
      invariant forall j :: 0 <= j < tokens.Length && tokens[j].Some? ==>
        tokens[j].value in vocab && vocab[tokens[j].value] == j
      invariant forall k :: k in vocab && k !in rest ==> tokens[vocab[k]].Some?
      decreases rest
    {
      var k :| k in rest;
      tokens[vocab[k]] := Some(k);
      rest := rest - {k};
    }
    if IsPermutation(vocab) {
      forall j | 0 <= j < tokens.Length ensures tokens[j].Some? {
        PermutationFillsEverySlot(vocab, j);
      }
    }
  }

  /** The ids of the entries, as a set. */
  function Ids(vocab: map<string, int>): set<int> {
    set k | k in vocab :: vocab[k]
  }

  /** Distinct ids: as many ids as entries. */
  lemma {:induction false} DistinctIdsCount(vocab: map<string, int>)
    requires IdsDistinct(vocab)
    ensures |Ids(vocab)| == |vocab|
    decreases |vocab|
  {
    if vocab != map[] {
      var k :| k in vocab;
      var smaller := vocab - {k};
      assert |smaller| == |vocab| - 1 by { assert smaller.Keys == vocab.Keys - {k}; }
      DistinctIdsCount(smaller);
      forall x ensures x in Ids(vocab) <==> x in Ids(smaller) + {vocab[k]} {
        if x in Ids(vocab) && x != vocab[k] {
          var k' :| k' in vocab && vocab[k'] == x;
          assert k' in smaller;
        }
      }
      assert Ids(vocab) == Ids(smaller) + {vocab[k]};
      assert vocab[k] !in Ids(smaller);
    }
  }

  /** The ids a reverse table of `n` slots can hold: 0 .. n - 1. */
  function Slots(n: nat): (r: set<int>)
    ensures forall j :: j in r <==> 0 <= j < n
    ensures |r| == n
  {
    if n == 0 then {} else Slots(n - 1) + {n - 1}
  }

  /** A subset as large as its superset is all of it. */
  lemma SubsetOfEqualSize(a: set<int>, b: set<int>)
    requires a <= b && |a| == |b|
    ensures a == b
  {
    assert b == a + (b - a);
    assert a !! (b - a);
    assert |b - a| == 0;
  }

  /** Pigeonhole: when the ids are a permutation, every slot of the reverse
      table has an owner. */
  lemma PermutationFillsEverySlot(vocab: map<string, int>, j: int)
    requires IsPermutation(vocab)
    requires 0 <= j < |vocab|
    ensures exists k :: k in vocab && vocab[k] == j
  {
    DistinctIdsCount(vocab);
    SubsetOfEqualSize(Ids(vocab), Slots(|vocab|));
    assert j in Ids(vocab);
  }

  /** A gap in the ids leaves a slot of the reverse table with no owner. */
  lemma GapLeavesEmptySlot(vocab: map<string, int>, j: int)
    requires IdsInRange(vocab)
    requires 0 <= j < |vocab| && j !in Ids(vocab)
    ensures !IsPermutation(vocab)
  {
    if IsPermutation(vocab) {
      PermutationFillsEverySlot(vocab, j);
    }
  }

  /** The strings of a reverse table none of whose slots is empty. */
  function Filled(slots: seq<Option<string>>): (r: seq<string>)
    requires forall j :: 0 <= j < |slots| ==> slots[j].Some?
    ensures |r| == |slots|
    ensures forall j :: 0 <= j < |slots| ==> slots[j] == Some(r[j])
  {
    seq(|slots|, j requires 0 <= j < |slots| => slots[j].value)
  }
}
