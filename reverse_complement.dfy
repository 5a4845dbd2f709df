/**
 Problem 1C: the reverse complement of a DNA string, the other strand read
 in its own 5' to 3' direction.
 */
module ReverseComplement {

  predicate IsNucleotide(c: char)
  {
    c == 'A' || c == 'C' || c == 'G' || c == 'T'
  }

  /** An upper-case DNA string over {A, C, G, T}. */
  predicate IsDna(s: string)
  {
    forall i :: 0 <= i < |s| ==> IsNucleotide(s[i])
  }

  /** The Watson-Crick partner of a nucleotide: A pairs with T, C with G. */
  function Complement(c: char): (d: char)
    requires IsNucleotide(c)
    ensures IsNucleotide(d) && d != c
    ensures (c == 'A' <==> d == 'T') && (c == 'T' <==> d == 'A') && (c == 'C' <==> d == 'G')
  {
    match c
    case 'A' => 'T'
    case 'T' => 'A'
    case 'C' => 'G'
    case 'G' => 'C'
  }

  /** Complementing twice gives back the nucleotide. */
  lemma ComplementTwice(c: char)
    requires IsNucleotide(c)
    ensures Complement(Complement(c)) == c
  {
  }

  /** The complement of each nucleotide, in reverse order. */
  function ReverseComplementOf(s: string): (r: string)
    requires IsDna(s)
    ensures |r| == |s| && IsDna(r)
  {
    if s == [] then [] else ReverseComplementOf(s[1..]) + [Complement(s[0])]
  }

  /** Position `i` of the reverse complement pairs with position `j` = |s| - 1 - i of the input. */
  lemma {:induction false} ReverseComplementAt(s: string, i: int, j: int)
    requires IsDna(s) && 0 <= i < |s| && i + j == |s| - 1
    ensures ReverseComplementOf(s)[i] == Complement(s[j])
  {
    if i < |s| - 1 {
      ReverseComplementAt(s[1..], i, j - 1);
    }
  }

  /** Position `i` of the reverse complement of the reverse complement is position `i` of the input. */
  lemma ReverseComplementTwiceAt(s: string, i: int)
    requires IsDna(s) && 0 <= i < |s|
    ensures ReverseComplementOf(ReverseComplementOf(s))[i] == s[i]
  {
    var r := ReverseComplementOf(s);
    var j := |s| - 1 - i;
    ReverseComplementAt(s, j, i);
    ReverseComplementAt(r, i, j);
    ComplementTwice(s[i]);
  }

  /** Taking the reverse complement twice gives back the original strand. */
  lemma ReverseComplementInvolutive(s: string)
    requires IsDna(s)
    ensures ReverseComplementOf(ReverseComplementOf(s)) == s
  {
    forall i | 0 <= i < |s|
      ensures ReverseComplementOf(ReverseComplementOf(s))[i] == s[i]
    {
      ReverseComplementTwiceAt(s, i);
    }
  }

  /**
   The source walks `range(1, len + 1, -1)`, a range that is empty because of
   the negative step; this models the intended walk over i = 1 .. |dna|, which
   appends the complement of `dna[-i]`, the i-th character from the end.
   Lower-case input and characters other than A, C, G and T are excluded by the
   precondition.
   */
  method ReverseComplement(dna: string) returns (revComp: string)
    requires IsDna(dna)
    ensures revComp == ReverseComplementOf(dna)
    ensures |revComp| == |dna|
    ensures forall i :: 0 <= i < |dna| ==> revComp[i] == Complement(dna[|dna| - 1 - i])
  {
    var n := |dna|;
    revComp := "";
    var i := 1;
    while i <= n
      invariant 1 <= i <= n + 1
      invariant revComp == ReverseComplementOf(dna[n - i + 1..])
    {
      var suffix := dna[n - i..];
      assert suffix[1..] == dna[n - i + 1..];
      revComp := revComp + [Complement(dna[n - i])];
      i := i + 1;
    }
    assert dna[0..] == dna;
    forall i | 0 <= i < n
      ensures revComp[i] == Complement(dna[n - 1 - i])
    {
      ReverseComplementAt(dna, i, n - 1 - i);
    }
  }
}
