/**
 Shared vocabulary of the chapter-1 exercises: where a pattern occurs in a
 text, how many times it occurs between two start positions, and what it
 means for a frequency table to hold the true counts of a range of k-mer
 start positions.
 */
module Kmers {

  /**
   `pattern` occurs in `text` starting at position `i`: it fits there and
   agrees with `text` character by character (the same as
   `text[i..i + |pattern|] == pattern`, see `MatchesKmerAt`).
   */
  predicate MatchesAt(text: string, pattern: string, i: int)
  {
    && 0 <= i && i + |pattern| <= |text|
    && forall m :: 0 <= m < |pattern| ==> text[i + m] == pattern[m]
  }

  /** Number of start positions `i` with `lo <= i < hi` at which `pattern` occurs in `text`. */
  function Occurrences(text: string, pattern: string, lo: int, hi: int): nat
    decreases hi - lo
  {
    if hi <= lo then 0
    else Occurrences(text, pattern, lo, hi - 1) + (if MatchesAt(text, pattern, hi - 1) then 1 else 0)
  }

  /** Occurrences of `pattern` in `text`, overlapping ones counted separately. */
  function Count(text: string, pattern: string): nat
  {
    Occurrences(text, pattern, 0, |text| - |pattern| + 1)
  }

  /** The k-mer of `text` that starts at position `i`. */
  function KmerAt(text: string, i: int, k: nat): (p: string)
    requires 0 <= i && i + k <= |text|
    ensures |p| == k && MatchesAt(text, p, i)
  {
    text[i..i + k]
  }

  /** A k-mer occurs at position `i` exactly when it is the k-mer that starts there. */
  lemma MatchesKmerAt(text: string, p: string, i: int, k: nat)
    requires 0 <= i && i + k <= |text| && |p| == k
    ensures MatchesAt(text, p, i) <==> p == KmerAt(text, i, k)
  {
    if MatchesAt(text, p, i) {
      assert forall m :: 0 <= m < k ==> p[m] == KmerAt(text, i, k)[m];
    }
  }

  /** No element of `s` appears twice. */
  predicate NoDuplicates<T(==)>(s: seq<T>)
  {
    forall a, b :: 0 <= a < b < |s| ==> s[a] != s[b]
  }

  /**
   `freq` holds the true number of occurrences, at start positions in
   `[lo, hi)` of `text`, of every k-mer it has a key for, and has a key for
   every k-mer starting in that range. Keys whose count dropped to zero may
   remain.
   */
  ghost predicate TableOf(freq: map<string, nat>, text: string, k: nat, lo: int, hi: int)
  {
    && 0 <= lo <= hi
    && (forall p :: p in freq ==> |p| == k && freq[p] == Occurrences(text, p, lo, hi))
    && (lo < hi ==> hi - 1 + k <= |text|)
    && (forall i :: lo <= i < hi ==> HasKmerAt(freq, text, k, i))
  }

  /** `freq` has a key for the k-mer of `text` that starts at `i`. */
  predicate HasKmerAt(freq: map<string, nat>, text: string, k: nat, i: int)
  {
    0 <= i && i + k <= |text| && KmerAt(text, i, k) in freq
  }

  /** `freq` after one more occurrence of `p`: insert it with count 1, or add 1 to its count. */
  function Tally(freq: map<string, nat>, p: string): map<string, nat>
  {
    freq[p := (if p in freq then freq[p] else 0) + 1]
  }

  /** `freq` after one occurrence of `p` less: its count, which must be positive, goes down by 1. */
  function Untally(freq: map<string, nat>, p: string): map<string, nat>
    requires p in freq && freq[p] >= 1
  {
    freq[p := freq[p] - 1]
  }

  /** The frequency table obtained by tallying the k-mers that start at `lo`, ..., `hi - 1`, in that order. */
  function KmerTable(text: string, k: nat, lo: int, hi: int): map<string, nat>
    requires 0 <= lo && (lo < hi ==> hi - 1 + k <= |text|)
    decreases hi - lo
  {
    if hi <= lo then map[] else Tally(KmerTable(text, k, lo, hi - 1), KmerAt(text, hi - 1, k))
  }

  /**
   The counting loop shared by problems 1B and 1E: tally the k-mers starting
   at 0, ..., n - 1 in a fresh dictionary, inserting a k-mer seen for the first
   time with count 1 and adding 1 to the count of one seen before. The result
   is the true table of those start positions (`KmerTableCounts`).
   */
  method TallyKmers(text: string, k: nat, n: nat) returns (freq: map<string, nat>)
    requires n > 0 ==> n - 1 + k <= |text|
    ensures freq == KmerTable(text, k, 0, n)
  {
    freq := map[];
    var i := 0;
    while i < n
      invariant 0 <= i <= n
      invariant freq == KmerTable(text, k, 0, i)
    {
      var pattern := text[i..i + k];
      assert pattern == KmerAt(text, i, k);
      if pattern !in freq {
        freq := freq[pattern := 1];
      } else {
        freq := freq[pattern := freq[pattern] + 1];
      }
      i := i + 1;
    }
  }

  /**
   The key scan shared by problem 1E's finders: every key of `freq` whose
   count reaches `t`, each once, in no particular order.
   */
  method KeysReaching(freq: map<string, nat>, t: nat) returns (keys: seq<string>)
    ensures NoDuplicates(keys)
    ensures forall p :: p in keys <==> p in freq && freq[p] >= t
  {
    keys := [];
    var todo := freq.Keys;
    while todo != {}
      invariant todo <= freq.Keys
      invariant NoDuplicates(keys)
      invariant forall p :: p in keys <==> p in freq && p !in todo && freq[p] >= t
      decreases |todo|
    {
      var pattern :| pattern in todo;
      if freq[pattern] >= t {
        keys := keys + [pattern];
      }
      todo := todo - {pattern};
    }
  }

  /** Moving the lower end of the range up by one drops the occurrence at `lo`, if any. */
  lemma {:induction false} OccurrencesFront(text: string, pattern: string, lo: int, hi: int)
    requires lo < hi
    ensures Occurrences(text, pattern, lo, hi)
         == (if MatchesAt(text, pattern, lo) then 1 else 0) + Occurrences(text, pattern, lo + 1, hi)
    decreases hi - lo
  {
    if lo + 1 < hi {
      OccurrencesFront(text, pattern, lo, hi - 1);
    }
  }

  /** The count over `[lo, hi)` is positive exactly when some position in the range matches. */
  lemma {:induction false} OccurrencesPositive(text: string, pattern: string, lo: int, hi: int)
    ensures Occurrences(text, pattern, lo, hi) > 0
        <==> exists i :: lo <= i < hi && MatchesAt(text, pattern, i)
    decreases hi - lo
  {
    if lo < hi {
      OccurrencesPositive(text, pattern, lo, hi - 1);
      if MatchesAt(text, pattern, hi - 1) {
        assert lo <= hi - 1 < hi;
      }
    }
  }

  /** The count over `[lo, hi)` is the size of the set of matching positions in that range. */
  lemma {:induction false} OccurrencesArePositions(text: string, pattern: string, lo: int, hi: int)
    ensures Occurrences(text, pattern, lo, hi)
         == |set i | lo <= i < hi && MatchesAt(text, pattern, i)|
    decreases hi - lo
  {
    var positions := set i | lo <= i < hi && MatchesAt(text, pattern, i);
    if hi <= lo {
      assert positions == {};
    } else {
      var fewer := set i | lo <= i < hi - 1 && MatchesAt(text, pattern, i);
      OccurrencesArePositions(text, pattern, lo, hi - 1);
      if MatchesAt(text, pattern, hi - 1) {
        assert |positions| == |fewer| + 1 by {
          assert positions == fewer + {hi - 1};
        }
      } else {
        assert |positions| == |fewer| by {
          assert positions == fewer;
        }
      }
    }
  }

  /**
   Shifting the range `[lo, hi)` to `[lo + 1, hi + 1)` loses the occurrence at
   `lo`, if any, and gains the one at `hi`, if any.
   */
  lemma OccurrencesShift(text: string, pattern: string, lo: int, hi: int)
    requires lo < hi
    ensures Occurrences(text, pattern, lo + 1, hi + 1) + (if MatchesAt(text, pattern, lo) then 1 else 0)
         == Occurrences(text, pattern, lo, hi) + (if MatchesAt(text, pattern, hi) then 1 else 0)
  {
    OccurrencesFront(text, pattern, lo, hi + 1);
  }

  /** At most one occurrence per start position. */
  lemma {:induction false} OccurrencesBound(text: string, pattern: string, lo: int, hi: int)
    requires lo <= hi
    ensures Occurrences(text, pattern, lo, hi) <= hi - lo
    decreases hi - lo
  {
    if lo < hi {
      OccurrencesBound(text, pattern, lo, hi - 1);
    }
  }

  /**
   Counting the occurrences inside a slice `text[s..e]` is counting those of
   `text` at the shifted positions, as long as the range stays inside the slice.
   */
  lemma {:induction false} OccurrencesInSlice(text: string, pattern: string, s: int, e: int, lo: int, hi: int)
    requires 0 <= s <= e <= |text|
    requires 0 <= lo && hi + |pattern| - 1 <= e - s
    ensures Occurrences(text[s..e], pattern, lo, hi) == Occurrences(text, pattern, s + lo, s + hi)
    decreases hi - lo
  {
    if lo < hi {
      OccurrencesInSlice(text, pattern, s, e, lo, hi - 1);
      var i := hi - 1;
      var inSlice, inText := text[s..e][i..i + |pattern|], text[s + i..s + i + |pattern|];
      forall m | 0 <= m < |pattern|
        ensures inSlice[m] == inText[m]
      {
        assert inSlice[m] == text[s + i + m];
      }
      assert inSlice == inText;
    }
  }

  /** A range holding a given set of matching start positions counts at least that many occurrences. */
  lemma OccurrencesAtLeast(text: string, pattern: string, lo: int, hi: int, positions: set<int>)
    requires forall i :: i in positions ==> lo <= i < hi && MatchesAt(text, pattern, i)
    ensures Occurrences(text, pattern, lo, hi) >= |positions|
  {
    OccurrencesArePositions(text, pattern, lo, hi);
    var all := set i | lo <= i < hi && MatchesAt(text, pattern, i);
    assert positions <= all;
    assert all == (all - positions) + positions;
    assert (all - positions) * positions == {};
  }

  /** `Count` in terms of the number `n` of start positions that fit (stated apart so that callers holding `n` need not unfold `Count`). */
  lemma CountUpTo(text: string, pattern: string, n: int)
    requires n == |text| - |pattern| + 1
    ensures Count(text, pattern) == Occurrences(text, pattern, 0, n)
  {
  }

  /** Equal ranges have equal counts (stated apart so that no proof has to unfold both sides). */
  lemma OccurrencesCongruent(text: string, pattern: string, lo: int, hi: int, lo': int, hi': int)
    requires lo == lo' && hi == hi'
    ensures Occurrences(text, pattern, lo, hi) == Occurrences(text, pattern, lo', hi')
  {
  }

  /** Counting in the slice `text[s..e]` counts the occurrences of `text` that start in `[s, e - |pattern| + 1)`. */
  lemma CountInSlice(text: string, pattern: string, s: int, e: int)
    requires 0 <= s && s + |pattern| <= e <= |text|
    ensures Count(text[s..e], pattern) == Occurrences(text, pattern, s, e - |pattern| + 1)
  {
    var n := e - s - |pattern| + 1;
    CountUpTo(text[s..e], pattern, n);
    OccurrencesInSlice(text, pattern, s, e, 0, n);
    OccurrencesCongruent(text, pattern, s + 0, s + n, s, e - |pattern| + 1);
  }

  /**
   `Count` is the number of start positions 0 .. |text| - |pattern| at which
   `pattern` occurs, and so never more than the number of such positions.
   */
  lemma CountIsNumberOfMatchPositions(text: string, pattern: string)
    ensures Count(text, pattern)
         == |set i | 0 <= i <= |text| - |pattern| && MatchesAt(text, pattern, i)|
    ensures Count(text, pattern) <= if |pattern| <= |text| then |text| - |pattern| + 1 else 0
  {
    OccurrencesArePositions(text, pattern, 0, |text| - |pattern| + 1);
    var a := set i | 0 <= i < |text| - |pattern| + 1 && MatchesAt(text, pattern, i);
    var b := set i | 0 <= i <= |text| - |pattern| && MatchesAt(text, pattern, i);
    assert a == b;
    if |pattern| <= |text| {
      OccurrencesBound(text, pattern, 0, |text| - |pattern| + 1);
    }
  }

  /** A pattern is counted at least once exactly when it occurs somewhere. */
  lemma CountPositive(text: string, pattern: string)
    ensures Count(text, pattern) > 0 <==> exists i :: MatchesAt(text, pattern, i)
  {
    OccurrencesPositive(text, pattern, 0, |text| - |pattern| + 1);
  }

  /** A k-mer without a key in a true table has no occurrence in the table's range. */
  lemma AbsentMeansZero(freq: map<string, nat>, text: string, k: nat, lo: int, hi: int, p: string)
    requires TableOf(freq, text, k, lo, hi)
    requires |p| == k && p !in freq
    ensures Occurrences(text, p, lo, hi) == 0
  {
    OccurrencesPositive(text, p, lo, hi);
    forall i | lo <= i < hi
      ensures !MatchesAt(text, p, i)
    {
      assert HasKmerAt(freq, text, k, i);
      MatchesKmerAt(text, p, i, k);
    }
  }

  /**
   Counting the k-mer that starts at `hi` (inserting it with count 1 when it
   has no key yet) turns a true table of `[lo, hi)` into one of `[lo, hi')`,
   where `hi' == hi + 1`.
   */
  lemma TableExtend(freq: map<string, nat>, text: string, k: nat, lo: int, hi: int, hi': int, p: string)
    requires TableOf(freq, text, k, lo, hi)
    requires 0 <= hi && hi' == hi + 1 && hi + k <= |text| && p == KmerAt(text, hi, k)
    ensures TableOf(Tally(freq, p), text, k, lo, hi')
  {
    var freq' := Tally(freq, p);
    if p !in freq {
      AbsentMeansZero(freq, text, k, lo, hi, p);
    }
    forall q | q in freq'
      ensures |q| == k && freq'[q] == Occurrences(text, q, lo, hi')
    {
      MatchesKmerAt(text, q, hi, k);
    }
    forall i | lo <= i < hi'
      ensures HasKmerAt(freq', text, k, i)
    {
      if i < hi {
        assert HasKmerAt(freq, text, k, i);
      }
    }
  }

  /**
   Tallying the k-mers of a range of start positions yields a true table of
   that range, and every key it creates has a positive count.
   */
  lemma {:induction false} KmerTableCounts(text: string, k: nat, lo: int, hi: int)
    requires 0 <= lo <= hi && (lo < hi ==> hi - 1 + k <= |text|)
    ensures TableOf(KmerTable(text, k, lo, hi), text, k, lo, hi)
    ensures forall p :: p in KmerTable(text, k, lo, hi) ==> KmerTable(text, k, lo, hi)[p] >= 1
    decreases hi - lo
  {
    if lo < hi {
      KmerTableCounts(text, k, lo, hi - 1);
      var before := KmerTable(text, k, lo, hi - 1);
      assert KmerTable(text, k, lo, hi) == Tally(before, KmerAt(text, hi - 1, k));
      TableExtend(before, text, k, lo, hi - 1, hi, KmerAt(text, hi - 1, k));
    }
  }

  /** The overlapping case: "AA" occurs three times in "AAAA". */
  lemma CountOverlapping()
    ensures Count("AAAA", "AA") == 3
  {
    assert MatchesAt("AAAA", "AA", 0) && MatchesAt("AAAA", "AA", 1) && MatchesAt("AAAA", "AA", 2);
  }

  /**
   The ATAT example, the sample of problem 1D: "ATAT" occurs three times in
   "GATATATGCATATACTT", at positions 1, 3 and 9.
   */
  lemma CountSample(text: string, pattern: string)
    requires text == "GATATATGCATATACTT" && pattern == "ATAT"
    ensures Count(text, pattern) == 3
  {
    assert text[0 + 0] != pattern[0];
    assert Occurrences(text, pattern, 0, 1) == 0;
    assert MatchesAt(text, pattern, 1);
    assert Occurrences(text, pattern, 0, 2) == 1;
    assert text[2 + 0] != pattern[0];
    assert Occurrences(text, pattern, 0, 3) == 1;
    assert MatchesAt(text, pattern, 3);
    assert Occurrences(text, pattern, 0, 4) == 2;
    assert text[4 + 0] != pattern[0];
    assert Occurrences(text, pattern, 0, 5) == 2;
    assert text[5 + 2] != pattern[2];
    assert Occurrences(text, pattern, 0, 6) == 2;
    assert text[6 + 0] != pattern[0];
    assert Occurrences(text, pattern, 0, 7) == 2;
    assert text[7 + 0] != pattern[0];
    assert Occurrences(text, pattern, 0, 8) == 2;
    assert text[8 + 0] != pattern[0];
    assert Occurrences(text, pattern, 0, 9) == 2;
    assert MatchesAt(text, pattern, 9);
    assert Occurrences(text, pattern, 0, 10) == 3;
    assert text[10 + 0] != pattern[0];
    assert Occurrences(text, pattern, 0, 11) == 3;
    assert text[11 + 3] != pattern[3];
    assert Occurrences(text, pattern, 0, 12) == 3;
    assert text[12 + 0] != pattern[0];
    assert Occurrences(text, pattern, 0, 13) == 3;
    assert text[13 + 1] != pattern[1];
    assert Occurrences(text, pattern, 0, 14) == 3;
  }
}
