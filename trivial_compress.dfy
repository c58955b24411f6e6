/**
 * `CompressedGene` of chapter 1: a gene over A/C/G/T is packed two bits per
 * nucleotide into one unbounded integer that starts with a sentinel 1 bit,
 * and unpacked again pair by pair.
 */
module TrivialCompress {
  import opened Wrappers
  import opened BitMath

  /** `str.upper()` on one character; only ASCII letters change case here. */
  function Upper(c: char): char
  {
    if 'a' <= c <= 'z' then (c as int - 32) as char else c
  }

  function UpperString(s: string): (u: string)
    ensures |u| == |s| && forall i :: 0 <= i < |s| ==> u[i] == Upper(s[i])
  {
    seq(|s|, i requires 0 <= i < |s| => Upper(s[i]))
  }

  predicate IsNucleotide(c: char)
  {
    c == 'A' || c == 'C' || c == 'G' || c == 'T'
  }

  /** The 2-bit code of a nucleotide: A=0b00, C=0b01, G=0b10, T=0b11. */
  function Code(c: char): (b: nat)
    requires IsNucleotide(c)
    ensures b < 4
  {
    if c == 'A' then 0 else if c == 'C' then 1 else if c == 'G' then 2 else 3
  }

  /** The letter a 2-bit pair decodes to. */
  function Letter(b: nat): (c: char)
    requires b < 4
    ensures IsNucleotide(c) && Code(c) == b
  {
    if b == 0 then 'A' else if b == 1 then 'C' else if b == 2 then 'G' else 'T'
  }

  lemma LetterOfCode(c: char)
    requires IsNucleotide(c)
    ensures Letter(Code(c)) == c
  {
  }

  /** The bit string after compressing the nucleotides of g: the sentinel 1
      followed by one 2-bit code per nucleotide, first nucleotide highest. */
  function Packed(g: string): nat
    requires forall i :: 0 <= i < |g| ==> IsNucleotide(g[i])
  {
    if g == [] then 1 else 4 * Packed(g[..|g| - 1]) + Code(g[|g| - 1])
  }

  /** The codes alone, read as a base-4 number: sum of code_i * 4^(n-1-i). */
  function CodeValue(g: string): nat
    requires forall i :: 0 <= i < |g| ==> IsNucleotide(g[i])
  {
    if g == [] then 0 else 4 * CodeValue(g[..|g| - 1]) + Code(g[|g| - 1])
  }

  /** bit_string == 4^n + sum of code_i * 4^(n-1-i), and the codes fit below the sentinel. */
  lemma {:induction false} PackedIsSentinelPlusCodes(g: string)
    requires forall i :: 0 <= i < |g| ==> IsNucleotide(g[i])
    ensures Packed(g) == Pow2(2 * |g|) + CodeValue(g)
    ensures CodeValue(g) < Pow2(2 * |g|)
  {
    if g != [] {
      var init := g[..|g| - 1];
      PackedIsSentinelPlusCodes(init);
      Pow2Step2(2 * |init|);
      assert 2 * |init| + 2 == 2 * |g|;
    }
  }

  /** The packed gene has exactly 2n+1 bits. */
  lemma PackedBitLength(g: string)
    requires forall i :: 0 <= i < |g| ==> IsNucleotide(g[i])
    ensures BitLength(Packed(g)) == 2 * |g| + 1
  {
    PackedIsSentinelPlusCodes(g);
    BitLengthLower(Packed(g), 2 * |g|);
    BitLengthUpper(Packed(g), 2 * |g| + 1);
  }

  /** The index of the first character that is not a nucleotide, or |s|. */
  function FirstInvalid(s: string): (k: nat)
    ensures k <= |s|
    ensures forall i :: 0 <= i < k ==> IsNucleotide(s[i])
    ensures k < |s| ==> !IsNucleotide(s[k])
  {
    if s == [] then 0
    else if !IsNucleotide(s[0]) then 0
    else 1 + FirstInvalid(s[1..])
  }

  /** The first k letters decompress emits, least significant pair first. */
  function LowFirst(b: nat, k: nat): (s: string)
    ensures |s| == k
  {
    if k == 0 then [] else LowFirst(b, k - 1) + [Letter((b / Pow2(2 * (k - 1))) % 4)]
  }

  function Reverse(s: string): (r: string)
    ensures |r| == |s| && forall i :: 0 <= i < |s| ==> r[i] == s[|s| - 1 - i]
  {
    if s == [] then [] else Reverse(s[1..]) + [s[0]]
  }

  /** What `decompress()` returns for a bit string b: (bit_length - 1) / 2
      pairs rounded up, i.e. bit_length / 2 letters, read low pair first and reversed. */
  function Decompressed(b: nat): string
  {
    Reverse(LowFirst(b, BitLength(b) / 2))
  }

  /** Pair k from the bottom of a packed gene is the code of the k-th nucleotide from the end. */
  lemma {:induction false} PackedPair(g: string, k: nat)
    requires forall i :: 0 <= i < |g| ==> IsNucleotide(g[i])
    requires k < |g|
    ensures (Packed(g) / Pow2(2 * k)) % 4 == Code(g[|g| - 1 - k])
  {
    var init := g[..|g| - 1];
    if k > 0 {
      PackedPair(init, k - 1);
      Pow2Step2(2 * (k - 1));
      assert 2 * (k - 1) + 2 == 2 * k;
      DivStep(Packed(init), Code(g[|g| - 1]), 4, Pow2(2 * (k - 1)));
      assert init[|init| - 1 - (k - 1)] == g[|g| - 1 - k];
    }
  }

  /** Round trip: decompressing a packed gene gives the gene back. */
  lemma DecompressPacked(g: string)
    requires forall i :: 0 <= i < |g| ==> IsNucleotide(g[i])
    ensures Decompressed(Packed(g)) == g
  {
    PackedBitLength(g);
    LowFirstPacked(g);
    ReverseMirror(LowFirst(Packed(g), |g|), g);
  }

  /** Read low pair first, a packed gene spells the gene backwards. */
  lemma LowFirstPacked(g: string)
    requires forall i :: 0 <= i < |g| ==> IsNucleotide(g[i])
    ensures forall k :: 0 <= k < |g| ==> LowFirst(Packed(g), |g|)[k] == g[|g| - 1 - k]
  {
    var b := Packed(g);
    forall k | 0 <= k < |g|
      ensures LowFirst(b, |g|)[k] == g[|g| - 1 - k]
    {
      LowFirstAt(b, |g|, k);
      PackedPair(g, k);
      LetterOfCode(g[|g| - 1 - k]);
    }
  }

  lemma ReverseMirror(low: string, g: string)
    requires |low| == |g| && forall k :: 0 <= k < |g| ==> low[k] == g[|g| - 1 - k]
    ensures Reverse(low) == g
  {
    var r := Reverse(low);
    forall k | 0 <= k < |g|
      ensures r[k] == g[k]
    {
      assert r[k] == low[|g| - 1 - k];
    }
  }

  lemma {:induction false} LowFirstAt(b: nat, n: nat, k: nat)
    requires k < n
    ensures LowFirst(b, n)[k] == Letter((b / Pow2(2 * k)) % 4)
  {
    if k < n - 1 {
      LowFirstAt(b, n - 1, k);
    }
  }

  /** A compressed gene: the packed bit string of `_compress`. */
  class CompressedGene {
    var bitString: nat

    /** The object as `_compress` first sets it up: only the sentinel bit. */
    constructor ()
      ensures bitString == 1
    {
      bitString := 1;
    }

    /**
     * `CompressedGene(gene)`: compress `gene.upper()`; a character other than
     * A, C, G or T raises ValueError, reported as Err with that character.
     */
    static method Create(gene: string) returns (r: Result<CompressedGene, char>)
      ensures var u := UpperString(gene);
        var k := FirstInvalid(u);
        && (r.Ok? <==> k == |u|)
        && (r.Ok? ==> fresh(r.value) && r.value.bitString == Packed(u))
        && (r.Err? ==> r.error == u[k])
    {
      var g := new CompressedGene();
      var bad := g.Compress(gene);
      if bad.Some? {
        r := Err(bad.value);
      } else {
        r := Ok(g);
      }
    }

    /**
     * `_compress(gene)`: shift left by two and or in each nucleotide's code.
     * On an invalid character the shift for it has already happened, so the
     * bit string holds the valid prefix followed by one 0b00 pair.
     */
    method Compress(gene: string) returns (bad: Option<char>)
      modifies this
      ensures var u := UpperString(gene);
        var k := FirstInvalid(u);
        && (bad.None? <==> k == |u|)
        && (bad.None? ==> bitString == Packed(u))
        && (bad.Some? ==> bad.value == u[k] && bitString == 4 * Packed(u[..k]))
    {
      var u := UpperString(gene);
      bitString := 1;
      var i := 0;
      while i < |u|
        invariant 0 <= i <= |u|
        invariant forall j :: 0 <= j < i ==> IsNucleotide(u[j])
        invariant bitString == Packed(u[..i])
      {
        var nucleotide := u[i];
        bitString := bitString * 4;
        if nucleotide == 'A' {
          bitString := bitString + 0;
        } else if nucleotide == 'C' {
          bitString := bitString + 1;
        } else if nucleotide == 'G' {
          bitString := bitString + 2;
        } else if nucleotide == 'T' {
          bitString := bitString + 3;
        } else {
          assert FirstInvalid(u) == i by { FirstInvalidIs(u, i); }
          return Some(nucleotide);
        }
        assert u[..i + 1][..i] == u[..i];
        i := i + 1;
      }
      assert u[..i] == u;
      FirstInvalidIs(u, |u|);
      return None;
    }

    /**
     * `decompress()`: for i = 0, 2, ... below bit_length - 1, append the letter
     * of `(bit_string >> i) & 0b11`, then reverse. The final `else` (invalid
     * bits) cannot be reached because a 2-bit mask is always 0..3.
     */
    method Decompress() returns (gene: string)
      ensures gene == Decompressed(bitString)
    {
      var b := bitString;
      var n: int := BitLength(b);
      var acc: string := "";
      var i := 0;
      while i < n - 1
        invariant 0 <= i && i % 2 == 0 && i <= 2 * (n / 2)
        invariant acc == LowFirst(b, i / 2)
      {
        var bits := (b / Pow2(i)) % 4;
        if bits == 0 {
          acc := acc + "A";
        } else if bits == 1 {
          acc := acc + "C";
        } else if bits == 2 {
          acc := acc + "G";
        } else if bits == 3 {
          acc := acc + "T";
        } else {
          assert false;
        }
        assert 2 * ((i + 2) / 2 - 1) == i;
        i := i + 2;
      }
      assert i / 2 == n / 2;
      gene := Reverse(acc);
    }

    /** `__str__` is `decompress()`. */
    method ToString() returns (s: string)
      ensures s == Decompressed(bitString)
    {
      s := Decompress();
    }
  }

  lemma {:induction false} FirstInvalidIs(s: string, k: nat)
    requires k <= |s|
    requires forall i :: 0 <= i < k ==> IsNucleotide(s[i])
    requires k < |s| ==> !IsNucleotide(s[k])
    ensures FirstInvalid(s) == k
  {
    if s != [] && k > 0 {
      FirstInvalidIs(s[1..], k - 1);
    }
  }

  /** A gene over A/C/G/T in either case decompresses to its upper-case form,
      and the empty gene is the bit string 1 and decompresses to "". */
  lemma CompressRoundTrip(gene: string)
    requires forall i :: 0 <= i < |gene| ==> IsNucleotide(Upper(gene[i]))
    ensures FirstInvalid(UpperString(gene)) == |gene|
    ensures Decompressed(Packed(UpperString(gene))) == UpperString(gene)
    ensures gene == "" ==> Packed(UpperString(gene)) == 1 && Decompressed(1) == ""
  {
    var u := UpperString(gene);
    FirstInvalidIs(u, |u|);
    DecompressPacked(u);
  }
}
