# Chapter 1 of *Bioinformatics Algorithms*, modelled in Dafny

This project models the code challenges of chapter 1 of Compeau and
Pevzner's *Bioinformatics Algorithms*, as implemented in
`bioinformatics-algorithms.py`. The challenges are:

- 1A: count the occurrences of a pattern, overlapping ones included;
- 1B: find the most frequent k-mers of a text;
- 1C: compute the reverse complement of a DNA string;
- 1D: list the start positions of a pattern;
- 1E: find the k-mers forming (L, t)-clumps in a genome, once by recounting
  every window and once by sliding a frequency table along the genome.

Every function of the source works by step-by-step updates: counters,
dictionaries changed in place and lists grown with `+=`. Each becomes a
Dafny method with loops and loop invariants. Dictionaries become
`map<string, nat>` values that the method reassigns. Lists become
`seq`. Iterating over a dictionary's keys becomes picking keys from a
shrinking set. Each method is proved against specification functions:

- `Kmers.Count`, counting occurrences;
- `Kmers.KmerTable` and `Kmers.TableOf`, a true frequency table;
- `ReverseComplement.ReverseComplementOf`;
- `Clumps.IsClump`;
- `Clumps.WindowTable` and `Clumps.Recorded`, the state of the sliding
  finder after each slide.

Lemmas prove what the source promises about these functions.

Modules:

- `Kmers` (kmers.dfy): matching, counting and frequency tables shared by
  the challenges.
- `Matching` (matching.dfy): 1A and 1D.
- `FrequentWords` (frequent_words.dfy): 1B.
- `ReverseComplement` (reverse_complement.dfy): 1C.
- `Clumps` (clumps.dfy): 1E, both finders, and the proof that they agree.

The source does not do what its doc comments describe. The model follows
the doc comments, and each deviation is noted in the doc comment of the
method concerned:

- slices `text[i:W]` become `text[i..i + W]` (lines 19, 32, 80);
- every loop runs over exactly the full-length start positions: the loops
  of lines 18, 31, 93 and 118 stop one start short, line 79 runs over the
  pattern's length instead of the text's start positions, line 96 runs past
  the last full k-mer into shorter slices, and line 127 runs past the last
  window start whenever windowLength > k + 2;
- `.keys` is iterated as a call (lines 38, 98, 100, 124);
- a larger count becomes the new maximum, where line 43 resets `max_val` to 0;
- the reverse walk of line 57 runs over i = 1 .. n, where the source's range is empty;
- line 126 appends the k-mer as one element, not its characters;
- line 130 inserts an absent entering k-mer with count 1, where the source raises KeyError;
- the `!` of lines 90 and 113, not valid Python, is read as `not`.

The ATAT example, the sample of problem 1D, is the pattern ATAT in
GATATATGCATATACTT, with three occurrences at 1, 3 and 9
(`Kmers.CountSample`). The shorter
pattern ATA occurs four times in the same text, at 1, 3, 9 and 11.

## Model

| member | source | states |
|---|---|---|
| Matching.PatternCount | bioinformatics-algorithms.py:9-21 | the result is the number of start positions 0 .. \|text\| - \|pattern\| where the pattern occurs, overlapping matches counted separately; it is at most \|text\| - \|pattern\| + 1 |
| Kmers.CountIsNumberOfMatchPositions | bioinformatics-algorithms.py:9-21 | `Count` equals the size of the set of matching start positions and never exceeds the number of start positions |
| Kmers.CountPositive | bioinformatics-algorithms.py:9-21 | a pattern is counted at least once exactly when it occurs somewhere in the text |
| Kmers.CountOverlapping | bioinformatics-algorithms.py:9-21 | overlapping occurrences count separately: "AA" occurs 3 times in "AAAA" |
| Kmers.CountSample | bioinformatics-algorithms.py:9-21 | the ATAT example (the sample of problem 1D): "ATAT" occurs 3 times in "GATATATGCATATACTT" |
| Kmers.MatchesKmerAt | bioinformatics-algorithms.py:19 | the pattern occurs at i exactly when the slice of its length at i equals it |
| Kmers.KmerAt | bioinformatics-algorithms.py:119 | the slice of k characters at i is a k-mer that occurs at i |
| Kmers.OccurrencesArePositions | bioinformatics-algorithms.py:16-20 | the count over a range of start positions is the number of matching positions in that range |
| Kmers.OccurrencesBound | bioinformatics-algorithms.py:16-20 | a range of n start positions holds at most n occurrences |
| Kmers.OccurrencesAtLeast | bioinformatics-algorithms.py:16-20 | a range holding a given set of matching start positions counts at least that many occurrences |
| Kmers.OccurrencesPositive | bioinformatics-algorithms.py:16-20 | the count over a range is positive exactly when some position in the range matches |
| Kmers.TallyKmers | bioinformatics-algorithms.py:30-35 | the dictionary built by the counting loop is the k-mer table of start positions 0 .. n - 1 |
| Kmers.KmerTableCounts | bioinformatics-algorithms.py:30-35 | that table holds, for each of its keys, the true number of occurrences, has a key for every k-mer found, and every key's count is at least 1 |
| Kmers.TableExtend | bioinformatics-algorithms.py:32-35 | counting one more k-mer, inserting it with 1 when absent or adding 1, keeps the table true for the extended range |
| Kmers.AbsentMeansZero | bioinformatics-algorithms.py:32-33 | a k-mer without a key in a true table does not occur in its range |
| Kmers.KeysReaching | bioinformatics-algorithms.py:124-126 | the key scan returns each key whose count reaches the threshold, each once, and no other string |
| Kmers.OccurrencesShift | bioinformatics-algorithms.py:127-130 | shifting a range of start positions by one loses the occurrence at its first position and gains the one after its last |
| Kmers.CountInSlice | bioinformatics-algorithms.py:94-99 | counting inside the slice `text[s..e]` counts the occurrences of the whole text starting in the matching range |
| FrequentWords.FrequentPatterns | bioinformatics-algorithms.py:23-44 | the result has no repeats and holds exactly the k-mers that occur and occur at least as often as every other k-mer: each returned string has length k, occurs, has the maximum count, and every k-mer with that count is returned |
| FrequentWords.MostFrequentFromTable | bioinformatics-algorithms.py:36-44 | on a true table whose largest count is `maxVal`, a k-mer is most frequent exactly when it is a key with count `maxVal` |
| ReverseComplement.Complement | bioinformatics-algorithms.py:58-65 | A pairs with T, C with G; the complement is a nucleotide different from its input |
| ReverseComplement.ComplementTwice | bioinformatics-algorithms.py:58-65 | complementing twice gives back the nucleotide |
| ReverseComplement.ReverseComplementOf | bioinformatics-algorithms.py:46-66 | the reverse complement has the input's length and is again a DNA string |
| ReverseComplement.ReverseComplementAt | bioinformatics-algorithms.py:57-65 | position i of the reverse complement is the complement of position \|s\| - 1 - i of the input |
| ReverseComplement.ReverseComplementTwiceAt | bioinformatics-algorithms.py:46-66 | position i of the reverse complement of the reverse complement is position i of the input |
| ReverseComplement.ReverseComplementInvolutive | bioinformatics-algorithms.py:46-66 | taking the reverse complement twice gives back the input |
| ReverseComplement.ReverseComplement | bioinformatics-algorithms.py:46-66 | the built string is the reverse complement: same length, character i the complement of input character n - 1 - i |
| Matching.AllPatterns | bioinformatics-algorithms.py:68-82 | the indices are exactly the start positions of the pattern, strictly increasing, and there are as many as the pattern's count |
| Clumps.FindClumpsSlowly | bioinformatics-algorithms.py:84-103 | a string is returned exactly when it is a k-mer occurring at least `numTimes` times in some window of `windowLength` characters (soundness and completeness) |
| Clumps.WindowTableClumps | bioinformatics-algorithms.py:95-102 | a window's table with a key for each of its k-mers, counted by pattern_count, has a key reaching the threshold exactly when that k-mer occurs that often in the window |
| Clumps.ClumpInNext | bioinformatics-algorithms.py:93-102 | the clumps of windows 0 .. s are those of windows 0 .. s - 1 plus those of window s |
| Clumps.InWindowInGenome | bioinformatics-algorithms.py:94-99 | counting inside the window starting at s counts the k-mer's occurrences in the genome that start inside that window |
| Clumps.NoWindowNoClump | bioinformatics-algorithms.py:86-88 | when no window fits in the genome, or no k-mer fits in a window, no k-mer forms a clump |
| Clumps.FindClumpsQuickly | bioinformatics-algorithms.py:105-134 | the result has no repeats and holds exactly the clump-forming k-mers |
| Clumps.WindowTableFirst | bioinformatics-algorithms.py:116-123 | the first-window scan builds the true table of window 0 |
| Clumps.FirstWindowClumps | bioinformatics-algorithms.py:124-126 | on window 0's true table, the keys reaching the threshold are exactly the clumps of window 0 |
| Clumps.WindowTableIsTrue | bioinformatics-algorithms.py:116-130 | the table invariant: after the first-window scan and after each slide, the table holds the true count in the current window of every key, with a key for every k-mer of the window |
| Clumps.WindowTableSlide | bioinformatics-algorithms.py:127-130 | one slide keeps the table true for the next window |
| Clumps.SlideTable | bioinformatics-algorithms.py:127-130 | on any true table, the leaving k-mer has a positive count, and decrementing it and tallying the entering one gives the true table of the shifted range |
| Clumps.TableDrop | bioinformatics-algorithms.py:128 | the leaving k-mer has a key with count at least 1, and decrementing it gives the true table of the range without its first position |
| Clumps.LeavingIsCounted | bioinformatics-algorithms.py:128 | the decrement never meets a missing key and never takes a count below zero |
| Clumps.SlideUpdate | bioinformatics-algorithms.py:128-130 | the finder's own dictionary updates of one slide produce the next window's table |
| Clumps.SlideCount | bioinformatics-algorithms.py:127-130 | one slide changes a k-mer's window count only by losing the leaving k-mer and gaining the entering one, so no count rises by more than 1 |
| Clumps.ThresholdCrossing | bioinformatics-algorithms.py:131-132 | a k-mer forms a clump in windows 0 .. j exactly when it did in windows 0 .. j - 1, or it is the entering k-mer of window j with count exactly `numTimes` there; so the `==` test finds every clump |
| Clumps.RecordedAreClumps | bioinformatics-algorithms.py:124-132 | the k-mers recorded by the time window s is current are exactly those forming a clump in one of the windows 0 .. s |
| Clumps.Dedup | bioinformatics-algorithms.py:133 | the result has no repeats and holds the same elements as the input |
| Clumps.WindowHoldsFour | bioinformatics-algorithms.py:84-89 | four distinct occurrences of a 5-mer starting inside one 50-character window make the 5-mer a (50, 4)-clump |
| Clumps.TextbookClumps | bioinformatics-algorithms.py:84-89 | the textbook's example: in its 75-character genome, CGACA and GAAGA form (50, 4)-clumps of 5-mers |
| Clumps.SameClumps | bioinformatics-algorithms.py:84-134 | both finders return the same set of k-mers on the same inputs, the sliding one without repeats |

## Left out

- Type checks: the `str(x) == x` and `int(x) == x` checks and their `TypeError` (lines 14-15, 28-29, 51-52, 75-76, 90-91, 113-114) are replaced by Dafny's parameter types.
- Case folding and other characters: `.upper()` (line 55) is not modelled. `ReverseComplement.ReverseComplement` requires an upper-case string over A, C, G and T, so the source's silent dropping of other characters (lines 58-65) is not modelled either.
- Python's negative index `dna_string[-i]` is written as `dna[n - i]`.
- Output order: the order of keys, and of the lists built from them, is not modelled. Every result is specified as a set: membership, plus no repeats where the source removes them (line 133).
- Clumps.FindClumpsSlowly: requires `k >= 1` and `numTimes >= 1`. With `numTimes == 0`, every string of length k would form a clump, including strings absent from the genome, which no returned list can hold.
- Clumps.FindClumpsQuickly: requires `k >= 1` and `numTimes >= 1`, for the same reason. When no window fits in the genome, or no k-mer fits in a window, it returns the empty list. The source differs in two of these cases. If windowLength > |genome| and k <= windowLength, line 117 takes the whole, shorter genome as the first window, and the source returns those of its slices, short ones included, that reach numTimes. If k > windowLength and |genome| > windowLength, the first slide decrements a k-mer that was never tallied and raises KeyError (line 128).
- Clumps.FindClumpsSlowly: may repeat a k-mer, once for each window it qualifies in, as the source does; only the sliding finder removes repeats.
- Clumps.TextbookClumps: the textbook's clump example (a 75-character genome, L = 50, k = 5, t = 4) is proved only in one direction: CGACA and GAAGA form clumps. That no other 5-mer does is not proved, because it would need the count of every 5-mer in all 26 windows.
- Performance and complexity: the claim that the sliding finder is faster (line 109) is not modelled.
- NumPy, mentioned in the module docstring (line 4), is not used by any code.
