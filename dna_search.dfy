/**
 * DNA search of chapter 2: a gene string is cut into codons (three
 * nucleotides each) and a codon is looked up in a sorted gene by binary
 * search. Nucleotides are the members of an IntEnum A=1, C=2, G=3, T=4;
 * codons are tuples and compare lexicographically by those values.
 */
module DnaSearch {
  import opened Wrappers
  import GenericSearch

  datatype Nucleotide = A | C | G | T

  /** The IntEnum value of a nucleotide. */
  function Value(n: Nucleotide): (v: int)
    ensures 1 <= v <= 4
  {
    match n
    case A => 1
    case C => 2
    case G => 3
    case T => 4
  }

  lemma ValueInjective(m: Nucleotide, n: Nucleotide)
    ensures Value(m) == Value(n) <==> m == n
  {
  }

  type Codon = (Nucleotide, Nucleotide, Nucleotide)

  /** `Nucleotide[ch]`: the member named by a one-letter string; any other letter is a KeyError. */
  function Lookup(ch: char): (r: Option<Nucleotide>)
    ensures r.Some? <==> ch in "ACGT"
  {
    match ch
    case 'A' => Some(A)
    case 'C' => Some(C)
    case 'G' => Some(G)
    case 'T' => Some(T)
    case _ => None
  }

  /** The name of a nucleotide. */
  function Name(n: Nucleotide): char
  {
    match n
    case A => 'A'
    case C => 'C'
    case G => 'G'
    case T => 'T'
  }

  lemma LookupName(n: Nucleotide)
    ensures Lookup(Name(n)) == Some(n)
  {
  }

  /**
   * The codon spelled by three letters, or the KeyError of the first letter
   * (in the order Python evaluates the tuple) that names no nucleotide.
   */
  function CodonOf(x: char, y: char, z: char): (r: Result<Codon, char>)
    ensures r.Ok? <==> x in "ACGT" && y in "ACGT" && z in "ACGT"
    ensures r.Err? ==> r.error == (if x !in "ACGT" then x else if y !in "ACGT" then y else z)
  {
    match (Lookup(x), Lookup(y), Lookup(z))
    case (Some(a), Some(b), Some(c)) => Ok((a, b, c))
    case (None, _, _) => Err(x)
    case (_, None, _) => Err(y)
    case (_, _, None) => Err(z)
  }

  /** The three letters of a codon, and the letters of a gene. */
  function Spell(g: seq<Codon>): (s: seq<char>)
    ensures |s| == 3 * |g|
  {
    if g == [] then [] else [Name(g[0].0), Name(g[0].1), Name(g[0].2)] + Spell(g[1..])
  }

  /**
   * What `string_to_gene(s)` computes: a codon for each complete group of
   * three letters from the front; a trailing group of one or two letters is
   * dropped unread; the first letter that names no nucleotide is the error.
   */
  function GeneOf(s: seq<char>): (r: Result<seq<Codon>, char>)
    ensures r.Ok? ==> |r.value| == |s| / 3
    ensures r.Err? ==> r.error in s
    decreases |s|
  {
    if |s| < 3 then Ok([])
    else match CodonOf(s[0], s[1], s[2])
      case Err(e) => Err(e)
      case Ok(c) =>
        match GeneOf(s[3..])
        case Err(e) => Err(e)
        case Ok(g) => Ok([c] + g)
  }

  /** The codons found so far in front of what the rest of the string yields. */
  function Prepend(gene: seq<Codon>, rest: Result<seq<Codon>, char>): Result<seq<Codon>, char>
  {
    match rest
    case Err(e) => Err(e)
    case Ok(g) => Ok(gene + g)
  }

  /** `string_to_gene(s)`, with the KeyError as an `Err` holding the offending letter. */
  method StringToGene(s: seq<char>) returns (r: Result<seq<Codon>, char>)
    ensures r == GeneOf(s)
  {
    var gene: seq<Codon> := [];
    var i := 0;
    assert s[0..] == s;
    assert GeneOf(s).Ok? ==> [] + GeneOf(s).value == GeneOf(s).value;
    while i < |s|
      invariant 0 <= i <= |s| && i % 3 == 0
      invariant GeneOf(s) == Prepend(gene, GeneOf(s[i..]))
      decreases |s| - i
    {
      if i + 2 >= |s| {
        assert gene + [] == gene;
        return Ok(gene);
      }
      var codon := CodonOf(s[i], s[i + 1], s[i + 2]);
      if codon.Err? {
        return Err(codon.error);
      }
      assert s[i..][3..] == s[i + 3..];
      assert forall g :: gene + ([codon.value] + g) == (gene + [codon.value]) + g;
      gene := gene + [codon.value];
      i := i + 3;
    }
    assert gene + [] == gene;
    return Ok(gene);
  }

  /** A gene parsed from s has one codon per complete group of three letters and spells them back. */
  lemma {:induction false} GeneOfSpells(s: seq<char>)
    requires GeneOf(s).Ok?
    ensures |GeneOf(s).value| == |s| / 3
    ensures Spell(GeneOf(s).value) == s[..3 * (|s| / 3)]
    decreases |s|
  {
    if |s| >= 3 {
      GeneOfSpells(s[3..]);
      var c := CodonOf(s[0], s[1], s[2]).value;
      var g := GeneOf(s[3..]).value;
      assert GeneOf(s).value == [c] + g;
      assert ([c] + g)[1..] == g;
      assert s[..3 * (|s| / 3)] == s[..3] + s[3..][..3 * (|s[3..]| / 3)];
    }
  }

  /** Spelling a gene and parsing the letters gives the gene back. */
  lemma {:induction false} SpellRoundTrip(g: seq<Codon>)
    ensures GeneOf(Spell(g)) == Ok(g)
  {
    if g != [] {
      var s := Spell(g);
      SpellRoundTrip(g[1..]);
      LookupName(g[0].0);
      LookupName(g[0].1);
      LookupName(g[0].2);
      assert s[0] == Name(g[0].0) && s[1] == Name(g[0].1) && s[2] == Name(g[0].2);
      assert CodonOf(s[0], s[1], s[2]) == Ok(g[0]);
      assert s[3..] == Spell(g[1..]);
      assert [g[0]] + g[1..] == g;
    }
  }

  /**
   * Parsing fails exactly when a letter of a complete group names no
   * nucleotide, and then the error is the first such letter.
   */
  lemma {:induction false} GeneOfError(s: seq<char>)
    ensures GeneOf(s).Err? <==> exists k :: 0 <= k < 3 * (|s| / 3) && s[k] !in "ACGT"
    ensures GeneOf(s).Err? ==> exists k :: 0 <= k < 3 * (|s| / 3) && s[k] == GeneOf(s).error
                                           && s[k] !in "ACGT" && forall j :: 0 <= j < k ==> s[j] in "ACGT"
    decreases |s|
  {
    if |s| >= 3 {
      GeneOfError(s[3..]);
      var t := s[3..];
      assert forall k :: 0 <= k < 3 * (|t| / 3) ==> t[k] == s[k + 3];
      if CodonOf(s[0], s[1], s[2]).Err? {
        var k := if s[0] !in "ACGT" then 0 else if s[1] !in "ACGT" then 1 else 2;
        assert s[k] == GeneOf(s).error;
      } else if GeneOf(t).Err? {
        var k' :| 0 <= k' < 3 * (|t| / 3) && t[k'] == GeneOf(t).error
                  && t[k'] !in "ACGT" && forall j :: 0 <= j < k' ==> t[j] in "ACGT";
        assert s[k' + 3] == GeneOf(s).error;
        forall j | 0 <= j < k' + 3 ensures s[j] in "ACGT" {
          if j >= 3 {
            assert s[j] == t[j - 3];
          }
        }
      } else {
        forall k | 0 <= k < 3 * (|s| / 3) ensures s[k] in "ACGT" {
          if k >= 3 {
            assert s[k] == t[k - 3];
          }
        }
      }
    }
  }

  /** `<` on codons: tuple comparison, lexicographic by IntEnum value. */
  function CodonLess(x: Codon, y: Codon): (r: bool)
    ensures r ==> x != y
  {
    || Value(x.0) < Value(y.0)
    || (x.0 == y.0 && Value(x.1) < Value(y.1))
    || (x.0 == y.0 && x.1 == y.1 && Value(x.2) < Value(y.2))
  }

  /** Codon comparison is a strict total order. */
  lemma CodonOrder()
    ensures GenericSearch.StrictTotalOrder(CodonLess)
  {
    forall x: Codon, y: Codon | x != y ensures CodonLess(x, y) || CodonLess(y, x) {
      ValueInjective(x.0, y.0);
      ValueInjective(x.1, y.1);
      ValueInjective(x.2, y.2);
    }
  }

  /** `binary_contains(gene, key_codon)` on a gene sorted by codon order. */
  method BinaryContains(gene: seq<Codon>, key: Codon) returns (found: bool)
    requires GenericSearch.SortedBy(CodonLess, gene)
    ensures found <==> key in gene
  {
    CodonOrder();
    found := GenericSearch.BinaryContains(gene, key, CodonLess);
  }
}
