/**
 Problem 1E: clump finding. A k-mer forms a (windowLength, numTimes)-clump in a
 genome when some window of `windowLength` consecutive characters contains at
 least `numTimes` occurrences of it. Two finders: one recounts every window,
 the other keeps a frequency table up to date while the window slides.
 */
module Clumps {
  import opened Kmers
  import Matching

  /** Occurrences of `p` in the window of `windowLength` characters that starts at `s`. */
  function InWindow(genome: string, windowLength: nat, s: int, p: string): nat
    requires 0 <= s && s + windowLength <= |genome|
  {
    Count(genome[s..s + windowLength], p)
  }

  /**
   `p` is a k-mer that occurs at least `t` times in one of the windows
   starting at 0, ..., n - 1.
   */
  ghost predicate ClumpIn(genome: string, windowLength: nat, k: nat, t: nat, p: string, n: int)
  {
    && |p| == k
    && exists s :: 0 <= s < n && s + windowLength <= |genome| && InWindow(genome, windowLength, s, p) >= t
  }

  /** `p` forms a clump somewhere in the genome: some window holds `t` or more of its occurrences. */
  ghost predicate IsClump(genome: string, windowLength: nat, k: nat, t: nat, p: string)
  {
    ClumpIn(genome, windowLength, k, t, p, |genome| - windowLength + 1)
  }

  /** Counting in the window starting at `s` is counting its k-mer start positions in the genome. */
  lemma InWindowInGenome(genome: string, windowLength: nat, k: nat, s: int, e: int, p: string)
    requires 1 <= k <= windowLength && 0 <= s && s + windowLength <= |genome| && |p| == k
    requires e == s + windowLength - k + 1
    ensures InWindow(genome, windowLength, s, p) == Occurrences(genome, p, s, e)
  {
    assert e == s + windowLength - |p| + 1;
    CountInSlice(genome, p, s, s + windowLength);
  }

  /**
   Sliding the window from `j - 1` to `j` loses the k-mer at `j - 1` and gains
   the k-mer at `j + windowLength - k`; every other count stays the same. In
   particular no count rises by more than one.
   */
  lemma SlideCount(genome: string, windowLength: nat, k: nat, j: int, p: string)
    requires 1 <= k <= windowLength && 1 <= j && j + windowLength <= |genome| && |p| == k
    ensures InWindow(genome, windowLength, j, p) + (if p == KmerAt(genome, j - 1, k) then 1 else 0)
         == InWindow(genome, windowLength, j - 1, p)
            + (if p == KmerAt(genome, j + windowLength - k, k) then 1 else 0)
  {
    var first, last := j - 1, j + windowLength - k;
    InWindowInGenome(genome, windowLength, k, j, last + 1, p);
    InWindowInGenome(genome, windowLength, k, first, last, p);
    OccurrencesShift(genome, p, first, last);
    assert MatchesAt(genome, p, first) <==> p == KmerAt(genome, first, k);
    assert MatchesAt(genome, p, last) <==> p == KmerAt(genome, last, k);
  }

  /**
   Why testing `== t` on the entering k-mer alone finds every clump: a k-mer
   qualifies in one of the windows 0 .. j exactly when it already qualified in
   one of the windows 0 .. j - 1, or it is the k-mer entering window j and its
   count there is exactly `t`.
   */
  lemma ThresholdCrossing(genome: string, windowLength: nat, k: nat, t: nat, j: int, p: string)
    requires 1 <= k <= windowLength && 1 <= j && j + windowLength <= |genome|
    ensures ClumpIn(genome, windowLength, k, t, p, j + 1)
        <==> || ClumpIn(genome, windowLength, k, t, p, j)
             || (p == KmerAt(genome, j + windowLength - k, k) && InWindow(genome, windowLength, j, p) == t)
  {
    var entering := KmerAt(genome, j + windowLength - k, k);
    if p == entering && InWindow(genome, windowLength, j, p) == t {
      assert 0 <= j < j + 1 && j + windowLength <= |genome|;
    }
    if ClumpIn(genome, windowLength, k, t, p, j + 1) && !ClumpIn(genome, windowLength, k, t, p, j) {
      var s :| 0 <= s < j + 1 && s + windowLength <= |genome| && InWindow(genome, windowLength, s, p) >= t;
      assert s == j;
      assert InWindow(genome, windowLength, j - 1, p) < t by {
        assert 0 <= j - 1 < j;
      }
      SlideCount(genome, windowLength, k, j, p);
    }
  }

  /** One more window considered: the clumps of windows 0 .. s are those of 0 .. s - 1 plus those of window s. */
  lemma ClumpInNext(genome: string, windowLength: nat, k: nat, t: nat, s: int, p: string)
    requires 0 <= s && s + windowLength <= |genome|
    ensures ClumpIn(genome, windowLength, k, t, p, s + 1)
        <==> ClumpIn(genome, windowLength, k, t, p, s) || (|p| == k && InWindow(genome, windowLength, s, p) >= t)
  {
    if |p| == k && InWindow(genome, windowLength, s, p) >= t {
      assert 0 <= s < s + 1;
    }
  }

  /**
   The clumps of the first window are read off a true table of its k-mer
   start positions: the keys whose count reaches `t`.
   */
  lemma FirstWindowClumps(genome: string, windowLength: nat, k: nat, t: nat, freq: map<string, nat>, p: string)
    requires 1 <= k <= windowLength <= |genome| && t >= 1
    requires TableOf(freq, genome, k, 0, windowLength - k + 1)
    ensures ClumpIn(genome, windowLength, k, t, p, 1) <==> p in freq && freq[p] >= t
  {
    ClumpInNext(genome, windowLength, k, t, 0, p);
    if |p| == k {
      InWindowInGenome(genome, windowLength, k, 0, windowLength - k + 1, p);
      if p !in freq {
        AbsentMeansZero(freq, genome, k, 0, windowLength - k + 1, p);
      }
    }
  }

  /**
   A table of one window, keyed by every k-mer found in it, with each count
   computed by `Count`, answers which k-mers reach `t` in that window.
   */
  lemma WindowTableClumps(window: string, k: nat, t: nat, clumps: map<string, nat>, p: string)
    requires k >= 1 && t >= 1
    requires forall q :: q in clumps ==> |q| == k && clumps[q] == Count(window, q)
    requires forall i :: 0 <= i <= |window| - k ==> KmerAt(window, i, k) in clumps
    ensures p in clumps && clumps[p] >= t <==> |p| == k && Count(window, p) >= t
  {
    if |p| == k && Count(window, p) >= t {
      CountPositive(window, p);
      var i :| MatchesAt(window, p, i);
      assert KmerAt(window, i, k) == p;
    }
  }

  /**
   The true table of `[lo, hi)` tells how many times the k-mer at `lo` occurs
   (at least once), and lowering that count by one gives the true table of
   `[lo', hi)`, where `lo' == lo + 1`. This is why the decrement of the leaving
   k-mer never finds a missing key or drives a count below zero.
   */
  lemma TableDrop(freq: map<string, nat>, text: string, k: nat, lo: int, lo': int, hi: int, leaving: string)
    requires TableOf(freq, text, k, lo, hi) && lo < hi && lo' == lo + 1 && leaving == KmerAt(text, lo, k)
    ensures leaving in freq && freq[leaving] >= 1
    ensures TableOf(Untally(freq, leaving), text, k, lo', hi)
  {
    assert HasKmerAt(freq, text, k, lo);
    OccurrencesFront(text, leaving, lo, hi);
    var dropped := Untally(freq, leaving);
    forall q | q in dropped
      ensures |q| == k && dropped[q] == Occurrences(text, q, lo', hi)
    {
      OccurrencesFront(text, q, lo, hi);
      MatchesKmerAt(text, q, lo, k);
    }
    forall i | lo' <= i < hi
      ensures HasKmerAt(dropped, text, k, i)
    {
      assert HasKmerAt(freq, text, k, i);
    }
  }

  /**
   One slide of the counting table from the window whose k-mers start in
   `[lo, hi)` to the one whose k-mers start in `[lo + 1, hi + 1)`: the k-mer
   at `lo` leaves (its count is decremented) and the k-mer at `hi` enters (it
   is inserted with count 1 when absent, incremented otherwise). The decrement
   is guarded only so that this function is total: `SlideTable` shows the
   guard always holds on a true table.
   */
  ghost function Slid(freq: map<string, nat>, genome: string, k: nat, lo: int, hi: int): map<string, nat>
    requires 0 <= lo && 0 <= hi && hi + k <= |genome| && lo + k <= |genome|
  {
    var leaving, entering := KmerAt(genome, lo, k), KmerAt(genome, hi, k);
    var dropped := if leaving in freq && freq[leaving] >= 1 then Untally(freq, leaving) else freq;
    Tally(dropped, entering)
  }

  /**
   The table half of a slide: the leaving k-mer (at `lo`) has a key with a
   positive count, so the decrement is safe, and the slide turns the true
   table of `[lo, hi)` into that of `[lo + 1, hi + 1)`.
   */
  lemma SlideTable(freq: map<string, nat>, genome: string, k: nat, lo: int, hi: int)
    requires 0 <= lo < hi && hi + k <= |genome|
    requires TableOf(freq, genome, k, lo, hi)
    ensures KmerAt(genome, lo, k) in freq && freq[KmerAt(genome, lo, k)] >= 1
    ensures TableOf(Slid(freq, genome, k, lo, hi), genome, k, lo + 1, hi + 1)
  {
    var leaving := KmerAt(genome, lo, k);
    TableDrop(freq, genome, k, lo, lo + 1, hi, leaving);
    TableExtend(Untally(freq, leaving), genome, k, lo + 1, hi, hi + 1, KmerAt(genome, hi, k));
  }

  /**
   The table the sliding finder holds while the window starting at `s` is
   current: the k-mers of window 0 tallied, then one `Slid` step per move of
   the window, the k-mer leaving at `j - 1` and the one entering at
   `j - 1 + windowLength - k + 1` for the move to window `j`.
   */
  ghost function WindowTable(genome: string, windowLength: nat, k: nat, s: int): map<string, nat>
    requires 1 <= k <= windowLength && 0 <= s && s + windowLength <= |genome|
    decreases s
  {
    if s == 0 then KmerTable(genome, k, 0, windowLength - k + 1)
    else Slid(WindowTable(genome, windowLength, k, s - 1), genome, k, s - 1, s - 1 + windowLength - k + 1)
  }

  /**
   The sliding finder's table invariant at window `s`: the table holds the true
   number of occurrences in that window of every k-mer it has a key for, and a
   key for every k-mer found there (keys whose count fell to zero may remain,
   as in the source's dictionary).
   */
  ghost predicate WindowTableTrue(genome: string, windowLength: nat, k: nat, s: int)
    requires 1 <= k <= windowLength && 0 <= s && s + windowLength <= |genome|
  {
    TableOf(WindowTable(genome, windowLength, k, s), genome, k, s, s + windowLength - k + 1)
  }

  /** The table invariant holds at every window: after the first-window scan and after every slide. */
  lemma WindowTableIsTrue(genome: string, windowLength: nat, k: nat, s: int)
    requires 1 <= k <= windowLength && 0 <= s && s + windowLength <= |genome|
    ensures WindowTableTrue(genome, windowLength, k, s)
  {
    WindowTableFirst(genome, windowLength, k);
    var i := 0;
    while i < s
      invariant 0 <= i <= s
      invariant WindowTableTrue(genome, windowLength, k, i)
    {
      WindowTableSlide(genome, windowLength, k, i + 1);
      i := i + 1;
    }
  }

  /** The first-window scan builds the true table of window 0. */
  lemma WindowTableFirst(genome: string, windowLength: nat, k: nat)
    requires 1 <= k <= windowLength <= |genome|
    ensures WindowTableTrue(genome, windowLength, k, 0)
  {
    KmerTableCounts(genome, k, 0, windowLength - k + 1);
  }

  /** One slide keeps the table true: from the window at `s - 1` to the one at `s`. */
  lemma WindowTableSlide(genome: string, windowLength: nat, k: nat, s: int)
    requires 1 <= k <= windowLength && 1 <= s && s + windowLength <= |genome|
    requires WindowTableTrue(genome, windowLength, k, s - 1)
    ensures WindowTableTrue(genome, windowLength, k, s)
  {
    SlideTable(WindowTable(genome, windowLength, k, s - 1), genome, k, s - 1, s - 1 + windowLength - k + 1);
  }

  /**
   The decrement of a slide never fails: when the window moves from `s` to
   `s + 1`, the k-mer leaving at `s` has a key in the table with a count of at
   least one, so it is never missing and never driven below zero.
   */
  lemma LeavingIsCounted(genome: string, windowLength: nat, k: nat, s: int)
    requires 1 <= k <= windowLength && 0 <= s && s + windowLength <= |genome|
    ensures KmerAt(genome, s, k) in WindowTable(genome, windowLength, k, s)
    ensures WindowTable(genome, windowLength, k, s)[KmerAt(genome, s, k)] >= 1
  {
    WindowTableIsTrue(genome, windowLength, k, s);
    TableDrop(WindowTable(genome, windowLength, k, s), genome, k, s, s + 1, s + windowLength - k + 1, KmerAt(genome, s, k));
  }

  /**
   The dictionary updates of one slide, written as the finder writes them
   (decrement the leaving k-mer, then increment the entering one or insert it
   with count 1), produce the next window's table, and the decrement finds
   its key with a positive count.
   */
  lemma SlideUpdate(genome: string, windowLength: nat, k: nat, j: int,
                    freq: map<string, nat>, leaving: string, entering: string)
    requires 1 <= k <= windowLength && 1 <= j && j + windowLength <= |genome|
    requires freq == WindowTable(genome, windowLength, k, j - 1)
    requires leaving == KmerAt(genome, j - 1, k) && entering == KmerAt(genome, j - 1 + windowLength - k + 1, k)
    ensures leaving in freq && freq[leaving] >= 1
    ensures var dropped := freq[leaving := freq[leaving] - 1];
            WindowTable(genome, windowLength, k, j)
            == if entering in dropped then dropped[entering := dropped[entering] + 1] else dropped[entering := 1]
  {
    LeavingIsCounted(genome, windowLength, k, j - 1);
  }

  /**
   The k-mers the sliding finder has recorded once the window starting at `s`
   is current: those of window 0 whose count reaches `t`, then, at each slide
   to a window `j`, the entering k-mer when its new count is exactly `t`.
   */
  ghost function Recorded(genome: string, windowLength: nat, k: nat, t: nat, s: int): set<string>
    requires 1 <= k <= windowLength && 0 <= s && s + windowLength <= |genome|
    decreases s
  {
    var freq := WindowTable(genome, windowLength, k, s);
    if s == 0 then
      set p | p in freq && freq[p] >= t
    else
      var entering := KmerAt(genome, s - 1 + windowLength - k + 1, k);
      Recorded(genome, windowLength, k, t, s - 1) + if freq[entering] == t then {entering} else {}
  }

  /**
   The central property of the sliding finder: once the window starting at
   `s` is current, it has recorded exactly the k-mers that form a clump in
   one of the windows 0 .. s. The first window is read off its table; at each
   later slide only the entering k-mer's count can rise, and by one, so a
   k-mer first reaching `t` in window `s` is the entering one with count `t`.
   */
  lemma {:induction false} RecordedAreClumps(genome: string, windowLength: nat, k: nat, t: nat, s: int)
    requires 1 <= k <= windowLength && 0 <= s && s + windowLength <= |genome| && t >= 1
    ensures forall p :: p in Recorded(genome, windowLength, k, t, s) <==> ClumpIn(genome, windowLength, k, t, p, s + 1)
    decreases s
  {
    var freq := WindowTable(genome, windowLength, k, s);
    WindowTableIsTrue(genome, windowLength, k, s);
    if s == 0 {
      forall p
        ensures p in Recorded(genome, windowLength, k, t, 0) <==> ClumpIn(genome, windowLength, k, t, p, 1)
      {
        FirstWindowClumps(genome, windowLength, k, t, freq, p);
      }
    } else {
      RecordedAreClumps(genome, windowLength, k, t, s - 1);
      var hi := s - 1 + windowLength - k + 1;
      var entering := KmerAt(genome, hi, k);
      InWindowInGenome(genome, windowLength, k, s, hi + 1, entering);
      assert freq[entering] == InWindow(genome, windowLength, s, entering);
      forall p
        ensures p in Recorded(genome, windowLength, k, t, s) <==> ClumpIn(genome, windowLength, k, t, p, s + 1)
      {
        ThresholdCrossing(genome, windowLength, k, t, s, p);
      }
    }
  }

  /**
   When no window fits in the genome, or no k-mer fits in a window, nothing
   forms a clump.
   */
  lemma NoWindowNoClump(genome: string, windowLength: nat, k: nat, t: nat)
    requires t >= 1 && (windowLength > |genome| || k > windowLength)
    ensures forall p :: !IsClump(genome, windowLength, k, t, p)
  {
  }

  /**
   Line 133's `list(dict.fromkeys(...))`: keep the first copy of every
   element, drop the later ones.
   */
  method Dedup<T(==)>(xs: seq<T>) returns (ys: seq<T>)
    ensures NoDuplicates(ys)
    ensures forall x :: x in ys <==> x in xs
  {
    ys := [];
    for i := 0 to |xs|
      invariant NoDuplicates(ys)
      invariant forall x :: x in ys <==> x in xs[..i]
    {
      assert xs[..i + 1] == xs[..i] + [xs[i]];
      if xs[i] !in ys {
        ys := ys + [xs[i]];
      }
    }
    assert xs[..|xs|] == xs;
  }

  /**
   The reference finder: recount every window. Fixes against the source: the
   window loop reaches the last window start |genome| - windowLength, the
   pattern loop takes only the windowLength - k + 1 full-length k-mers of the
   window, and the table's keys are iterated. As in the source, a k-mer is
   (re)counted unless it already has a key and is already in the result, and a
   k-mer is appended once for every window it qualifies in, so the result may
   repeat a k-mer. A window longer than the genome, or a k longer than the
   window, leaves its loops empty and the result empty. The `!` of the type
   check at line 90 is read as `not`.
   */
  method FindClumpsSlowly(genome: string, windowLength: nat, k: nat, numTimes: nat) returns (kmers: seq<string>)
    requires k >= 1 && numTimes >= 1
    ensures forall p :: p in kmers <==> IsClump(genome, windowLength, k, numTimes, p)
  {
    kmers := [];
    var i := 0;
    while i <= |genome| - windowLength
      invariant 0 <= i <= if windowLength <= |genome| then |genome| - windowLength + 1 else 0
      invariant forall p :: p in kmers <==> ClumpIn(genome, windowLength, k, numTimes, p, i)
    {
      var window := genome[i..i + windowLength];
      var clumps: map<string, nat> := map[];
      var j := 0;
      while j <= |window| - k
        invariant 0 <= j <= if k <= |window| then |window| - k + 1 else 0
        invariant forall q :: q in clumps ==> |q| == k && clumps[q] == Count(window, q)
        invariant forall j' :: 0 <= j' < j ==> KmerAt(window, j', k) in clumps
      {
        var pattern := window[j..j + k];
        assert pattern == KmerAt(window, j, k);
        if pattern !in clumps || pattern !in kmers {
          var c := Matching.PatternCount(window, pattern);
          clumps := clumps[pattern := c];
        }
        j := j + 1;
      }

      var qualifying := KeysReaching(clumps, numTimes);
      kmers := kmers + qualifying;

      forall p
        ensures p in kmers <==> ClumpIn(genome, windowLength, k, numTimes, p, i + 1)
      {
        WindowTableClumps(window, k, numTimes, clumps, p);
        ClumpInNext(genome, windowLength, k, numTimes, i, p);
      }
      i := i + 1;
    }
  }

  /**
   The sliding finder. Fixes against the source: the first-window scan takes
   all windowLength - k + 1 k-mers (the source stops one short), its keys are
   iterated and a qualifying k-mer is appended as one string (the source
   appends its characters), the slide runs over window starts
   1 .. |genome| - windowLength, and an entering k-mer without a key is
   inserted with count 1 (the source raises KeyError). Duplicates collected
   along the way are removed at the end. The `!` of the type check at line
   113 is read as `not`.

   When no window fits in the genome or no k-mer fits in a window, the
   answer is empty, and the source differs in two cases. If windowLength >
   |genome| and k <= windowLength, the first window of line 117 is the whole,
   shorter genome: the source tallies its slices, short ones included, and
   returns those reaching numTimes, while the slide has no window start.
   If k > windowLength and |genome| > windowLength, the first scan tallies
   nothing and the first slide decrements a k-mer without a key, raising
   KeyError at line 128. In the remaining cases the source returns the empty
   list too.
   */
  method FindClumpsQuickly(genome: string, windowLength: nat, k: nat, numTimes: nat) returns (kmers: seq<string>)
    requires k >= 1 && numTimes >= 1
    ensures NoDuplicates(kmers)
    ensures forall p :: p in kmers <==> IsClump(genome, windowLength, k, numTimes, p)
  {
    if windowLength > |genome| || k > windowLength {
      NoWindowNoClump(genome, windowLength, k, numTimes);
      return [];
    }
    // The first window is genome[0..windowLength]; its k-mers start at 0 .. windowLength - k.
    var patternFreq := TallyKmers(genome, k, windowLength - k + 1);
    var found := KeysReaching(patternFreq, numTimes);

    var j := 1;
    while j <= |genome| - windowLength
      invariant 1 <= j <= |genome| - windowLength + 1
      invariant patternFreq == WindowTable(genome, windowLength, k, j - 1)
      invariant forall p :: p in found <==> p in Recorded(genome, windowLength, k, numTimes, j - 1)
    {
      var leaving := genome[j - 1..j + k - 1];
      var newLastPattern := genome[windowLength + j - k..windowLength + j];
      assert leaving == KmerAt(genome, j - 1, k);
      assert newLastPattern == KmerAt(genome, j - 1 + windowLength - k + 1, k);
      SlideUpdate(genome, windowLength, k, j, patternFreq, leaving, newLastPattern);
      patternFreq := patternFreq[leaving := patternFreq[leaving] - 1];
      if newLastPattern in patternFreq {
        patternFreq := patternFreq[newLastPattern := patternFreq[newLastPattern] + 1];
      } else {
        patternFreq := patternFreq[newLastPattern := 1];
      }
      assert patternFreq == WindowTable(genome, windowLength, k, j);
      if patternFreq[newLastPattern] == numTimes {
        found := found + [newLastPattern];
      }
      j := j + 1;
    }
    RecordedAreClumps(genome, windowLength, k, numTimes, j - 1);
    kmers := Dedup(found);
  }

  /**
   The textbook's clump example: in this 75-character genome, CGACA occurs
   four times in the 50-character window at 0 (at 6, 22, 38 and 43) and GAAGA
   four times in the window at 12 (at 16, 31, 52 and 57), so both form
   (50, 4)-clumps of 5-mers and both finders return them.
   */
  lemma TextbookClumps(genome: string)
    requires genome == "CGGACTCGACAGATGTGAAGA" + "ACGACAATGTGAAGACT" + "CGACACGACAGAGTGAAGA" + "GAAGAGGAAACATTGTAA"
    ensures IsClump(genome, 50, 5, 4, "CGACA")
    ensures IsClump(genome, 50, 5, 4, "GAAGA")
  {
    TextbookCgaca(genome);
    WindowHoldsFour(genome, 0, "CGACA", 6, 22, 38, 43);
    TextbookGaaga(genome);
    WindowHoldsFour(genome, 12, "GAAGA", 16, 31, 52, 57);
  }

  /** The occurrences of CGACA in the textbook's genome, written in four pieces. */
  lemma TextbookCgaca(genome: string)
    requires genome == "CGGACTCGACAGATGTGAAGA" + "ACGACAATGTGAAGACT" + "CGACACGACAGAGTGAAGA" + "GAAGAGGAAACATTGTAA"
    ensures MatchesAt(genome, "CGACA", 6) && MatchesAt(genome, "CGACA", 22)
    ensures MatchesAt(genome, "CGACA", 38) && MatchesAt(genome, "CGACA", 43)
  {
    assert MatchesAt(genome, "CGACA", 6);
    assert MatchesAt(genome, "CGACA", 22);
    assert MatchesAt(genome, "CGACA", 38);
  }

  /** The occurrences of GAAGA in the textbook's genome. */
  lemma TextbookGaaga(genome: string)
    requires genome == "CGGACTCGACAGATGTGAAGA" + "ACGACAATGTGAAGACT" + "CGACACGACAGAGTGAAGA" + "GAAGAGGAAACATTGTAA"
    ensures MatchesAt(genome, "GAAGA", 16) && MatchesAt(genome, "GAAGA", 31)
    ensures MatchesAt(genome, "GAAGA", 52) && MatchesAt(genome, "GAAGA", 57)
  {
    assert MatchesAt(genome, "GAAGA", 16);
    assert MatchesAt(genome, "GAAGA", 31);
    assert MatchesAt(genome, "GAAGA", 52);
  }

  /** Four distinct occurrences of a 5-mer inside the 50-character window at `s` make it a clump. */
  lemma WindowHoldsFour(genome: string, s: int, p: string, a: int, b: int, c: int, d: int)
    requires 0 <= s && s + 50 <= |genome| && |p| == 5
    requires s <= a < b < c < d < s + 46
    requires MatchesAt(genome, p, a) && MatchesAt(genome, p, b) && MatchesAt(genome, p, c) && MatchesAt(genome, p, d)
    ensures IsClump(genome, 50, 5, 4, p)
  {
    InWindowInGenome(genome, 50, 5, s, s + 46, p);
    OccurrencesAtLeast(genome, p, s, s + 46, {a, b, c, d});
    assert 0 <= s < |genome| - 50 + 1 && InWindow(genome, 50, s, p) >= 4;
  }

  /**
   Both finders answer problem 1E: on the same inputs they return the same
   set of k-mers, the sliding one without repeats.
   */
  method SameClumps(genome: string, windowLength: nat, k: nat, numTimes: nat) returns (slow: seq<string>, quick: seq<string>)
    requires k >= 1 && numTimes >= 1
    ensures forall p :: p in quick <==> p in slow
    ensures NoDuplicates(quick)
  {
    slow := FindClumpsSlowly(genome, windowLength, k, numTimes);
    quick := FindClumpsQuickly(genome, windowLength, k, numTimes);
  }
}
