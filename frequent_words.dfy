/**
 Problem 1B: the most frequent k-mers of a text. A frequency table of every
 k-mer is built in one scan, then its keys are scanned for the largest count.
 */
module FrequentWords {
  import opened Kmers

  /**
   `p` is a most frequent k-mer of `text`: it has length `k`, it occurs, and
   no k-mer occurs more often.
   */
  ghost predicate IsMostFrequent(text: string, k: nat, p: string)
  {
    && |p| == k
    && Count(text, p) >= 1
    && forall q :: |q| == k ==> Count(text, q) <= Count(text, p)
  }

  /**
   Reading the answer off a true table of all k-mer start positions of `text`
   whose counts are all positive: the most frequent k-mers are exactly the keys
   whose count is the table's maximum `maxVal`.
   */
  lemma MostFrequentFromTable(patterns: map<string, nat>, text: string, k: nat, maxVal: nat, p: string)
    requires TableOf(patterns, text, k, 0, if k <= |text| then |text| - k + 1 else 0)
    requires forall q :: q in patterns ==> 1 <= patterns[q] <= maxVal
    requires maxVal > 0 ==> exists q :: q in patterns && patterns[q] == maxVal
    ensures IsMostFrequent(text, k, p) <==> p in patterns && patterns[p] == maxVal
  {
    var n := if k <= |text| then |text| - k + 1 else 0;
    assert forall q :: |q| == k ==> Occurrences(text, q, 0, n) == Count(text, q);
    if p in patterns && patterns[p] == maxVal {
      forall q | |q| == k
        ensures Count(text, q) <= Count(text, p)
      {
        if q !in patterns {
          AbsentMeansZero(patterns, text, k, 0, n, q);
        }
      }
    }
    if IsMostFrequent(text, k, p) {
      if p !in patterns {
        AbsentMeansZero(patterns, text, k, 0, n, p);
      }
      var top :| top in patterns && patterns[top] == maxVal;
    }
  }

  /**
   Problem 1B. Fixes against the source: the table scan reaches the last start
   position and slices from `i` (the source stops one short and slices
   `text[i:window_size]`), the keys are iterated (the source names
   `patterns.keys` without calling it) and a larger count becomes the new
   maximum (the source resets `max_val` to 0). The order of the keys, and so of
   the result, is not modelled.
   */
  method FrequentPatterns(text: string, windowSize: nat) returns (maxPatterns: seq<string>)
    ensures NoDuplicates(maxPatterns)
    ensures forall p :: p in maxPatterns <==> IsMostFrequent(text, windowSize, p)
  {
    var k := windowSize;
    var n := if k <= |text| then |text| - k + 1 else 0;
    var patterns := TallyKmers(text, k, n);

    var maxVal: nat := 0;
    maxPatterns := [];
    var keys := patterns.Keys;
    while keys != {}
      invariant keys <= patterns.Keys
      invariant forall p :: p in patterns && p !in keys ==> patterns[p] <= maxVal
      invariant maxVal > 0 ==> exists p :: p in patterns && p !in keys && patterns[p] == maxVal
      invariant forall p :: p in maxPatterns <==> p in patterns && p !in keys && patterns[p] == maxVal
      invariant NoDuplicates(maxPatterns)
      decreases |keys|
    {
      var pattern :| pattern in keys;
      if patterns[pattern] == maxVal {
        maxPatterns := maxPatterns + [pattern];
      } else if patterns[pattern] > maxVal {
        maxPatterns := [pattern];
        maxVal := patterns[pattern];
      }
      keys := keys - {pattern};
    }

    KmerTableCounts(text, k, 0, n);
    forall p
      ensures p in maxPatterns <==> IsMostFrequent(text, k, p)
    {
      MostFrequentFromTable(patterns, text, k, maxVal, p);
    }
  }
}
