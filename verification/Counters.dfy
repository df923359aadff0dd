/** Python counters: maps from keys to numbers, in which an absent key counts as zero. */
module Counters {

  function Get<K>(counts: map<K, nat>, key: K): nat {
    if key in counts then counts[key] else 0
  }

  function Bump<K>(counts: map<K, nat>, key: K): map<K, nat> {
    counts[key := Get(counts, key) + 1]
  }

  ghost function Total<K(!new)>(counts: map<K, nat>): nat {
    if counts == map[] then 0
    else
      var key :| key in counts;
      counts[key] + Total(counts - {key})
  }

  lemma {:induction false} TotalSplits<K(!new)>(counts: map<K, nat>, key: K)
    requires key in counts
    ensures Total(counts) == counts[key] + Total(counts - {key})
  {
    var first :| first in counts && Total(counts) == counts[first] + Total(counts - {first});
    if first != key {
      TotalSplits(counts - {first}, key);
      TotalSplits(counts - {key}, first);
      assert counts - {first} - {key} == counts - {key} - {first};
    }
  }

  lemma TotalOfBump<K(!new)>(counts: map<K, nat>, key: K)
    ensures Total(Bump(counts, key)) == Total(counts) + 1
  {
    var bumped := Bump(counts, key);
    TotalSplits(bumped, key);
    if key in counts {
      TotalSplits(counts, key);
      assert bumped - {key} == counts - {key};
    } else {
      assert bumped - {key} == counts;
    }
  }
}
