/**
 Problems 1A and 1D: counting the occurrences of a pattern in a text and
 listing the positions where it starts. Both scan every start position
 0 .. |text| - |pattern| and compare the slice of length |pattern| found there.
 */
module Matching {
  import opened Kmers

  /**
   Problem 1A. The source's loop stops one position early and compares
   `text[i:WINDOW_SIZE]` instead of the slice starting at `i`; this models the
   scan its doc comment describes: every start position, slice `i .. i + |pattern|`.
   */
  method PatternCount(text: string, pattern: string) returns (count: nat)
    ensures count == Count(text, pattern)
    ensures count == |set i | 0 <= i <= |text| - |pattern| && MatchesAt(text, pattern, i)|
    ensures count <= if |pattern| <= |text| then |text| - |pattern| + 1 else 0
  {
    count := 0;
    var windowSize := |pattern|;
    var i := 0;
    while i <= |text| - windowSize
      invariant 0 <= i <= if windowSize <= |text| then |text| - windowSize + 1 else 0
      invariant count == Occurrences(text, pattern, 0, i)
    {
      if text[i..i + windowSize] == pattern {
        count := count + 1;
      }
      i := i + 1;
    }
    assert Occurrences(text, pattern, 0, i) == Count(text, pattern);
    CountIsNumberOfMatchPositions(text, pattern);
  }

  /**
   Problem 1D. The source loops over `range(WINDOW_SIZE)` and compares
   `genome[i:WINDOW_SIZE]`; this models the scan of every start position of
   the genome with the slice starting there. The indices come out in
   increasing order, one per occurrence.
   */
  method AllPatterns(genome: string, pattern: string) returns (indices: seq<nat>)
    ensures forall a, b :: 0 <= a < b < |indices| ==> indices[a] < indices[b]
    ensures forall i: int :: i in indices <==> MatchesAt(genome, pattern, i)
    ensures |indices| == Count(genome, pattern)
  {
    indices := [];
    var windowSize := |pattern|;
    var i := 0;
    while i <= |genome| - windowSize
      invariant 0 <= i <= if windowSize <= |genome| then |genome| - windowSize + 1 else 0
      invariant forall a, b :: 0 <= a < b < |indices| ==> indices[a] < indices[b]
      invariant forall a :: 0 <= a < |indices| ==> indices[a] < i
      invariant forall j: int :: j in indices <==> j < i && MatchesAt(genome, pattern, j)
      invariant |indices| == Occurrences(genome, pattern, 0, i)
    {
      if genome[i..i + windowSize] == pattern {
        indices := indices + [i];
      }
      i := i + 1;
    }
    assert Occurrences(genome, pattern, 0, i) == Count(genome, pattern);
  }
}
