/** What was counted: words with sizes, and the naive sums over all words with a given prefix. */
module Tally {

  datatype Item<T> = Item(word: seq<T>, size: int)

  function Count<T(==)>(log: seq<Item<T>>, prefix: seq<T>): nat
  {
    if log == [] then 0 else Count(log[..|log| - 1], prefix) + if prefix <= log[|log| - 1].word then 1 else 0
  }

  function Sum<T(==)>(log: seq<Item<T>>, prefix: seq<T>): int
  {
    if log == [] then 0
    else Sum(log[..|log| - 1], prefix) + if prefix <= log[|log| - 1].word then log[|log| - 1].size else 0
  }

  ghost predicate Inserted<T>(log: seq<Item<T>>, word: seq<T>)
  {
    exists i :: 0 <= i < |log| && log[i].word == word
  }

  lemma OneMore<T>(log: seq<Item<T>>, item: Item<T>, prefix: seq<T>)
    ensures Count(log + [item], prefix) == Count(log, prefix) + if prefix <= item.word then 1 else 0
    ensures Sum(log + [item], prefix) == Sum(log, prefix) + if prefix <= item.word then item.size else 0
  {
    assert (log + [item])[..|log|] == log;
  }

  lemma InsertedOneMore<T>(log: seq<Item<T>>, item: Item<T>, word: seq<T>)
    ensures Inserted(log + [item], word) <==> Inserted(log, word) || item.word == word
  {
    if Inserted(log, word) {
      var i :| 0 <= i < |log| && log[i].word == word;
      assert (log + [item])[i].word == word;
    }
    if item.word == word {
      assert (log + [item])[|log|].word == word;
    }
  }

  /** Prefixes that the same words extend have the same sums. */
  lemma {:induction false} SameSums<T>(log: seq<Item<T>>, p: seq<T>, q: seq<T>)
    requires forall i :: 0 <= i < |log| ==> (p <= log[i].word <==> q <= log[i].word)
    ensures Count(log, p) == Count(log, q) && Sum(log, p) == Sum(log, q)
  {
    if log != [] {
      SameSums(log[..|log| - 1], p, q);
    }
  }

  lemma {:induction false} NoSums<T>(log: seq<Item<T>>, p: seq<T>)
    requires forall i :: 0 <= i < |log| ==> !(p <= log[i].word)
    ensures Count(log, p) == 0 && Sum(log, p) == 0
  {
    if log != [] {
      NoSums(log[..|log| - 1], p);
    }
  }
}
