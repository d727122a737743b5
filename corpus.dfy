/**
 * The word list the builder draws candidates from, with a memo of the words
 * each pattern has matched.
 */
module Corpora {
  import opened Seqs
  import Utils
  import opened Patterns

  class Corpus {
    const words: seq<string>
    /** The words matching each pattern looked up so far. */
    var cache: map<Pattern, seq<string>>

    /** Every memo entry is the list of words its pattern matches, in word-list order. */
    ghost predicate Valid()
      reads this
    {
      forall p :: p in cache ==> cache[p] == Filtered(words, Matcher(p))
    }

    /** A corpus over `words` with an empty memo. */
    constructor (words: seq<string>)
      ensures Valid() && this.words == words && cache == map[]
    {
      this.words := words;
      cache := map[];
    }

    /**
     * The words matching `p`, in word-list order, from the memo when `p` was
     * looked up before and computed and memoised otherwise.
     */
    method Filter(p: Pattern) returns (matches: seq<string>)
      requires Valid()
      modifies this
      ensures Valid()
      ensures matches == Filtered(words, Matcher(p))
      ensures cache == old(cache)[p := matches]
      ensures p in old(cache) ==> cache == old(cache)
    {
      if p in cache {
        return cache[p];
      }
      matches := Utils.Filter(words, Matcher(p));
      cache := cache[p := matches];
    }
  }
}
