/**
 The fixed size tiers a thumbnail is produced at. Each tier has a scale factor
 relative to the source image and a suffix that marks its density in the
 output file name; `All` fixes the order in which the tiers are produced.
 Scale factors are exact rationals here, where the program stores Doubles.
 */
module Sizes {
  import opened Components

  datatype Size = Large | Middle | Small {

    /** The resize rate for this tier: 1, 0.66 or 0.33 of the source size. */
    function Scale(): (rate: real)
      ensures 0.0 < rate <= 1.0
      ensures rate == 1.0 <==> this == Large
    {
      match this
      case Large => 1.0
      case Middle => 0.66
      case Small => 0.33
    }

    /** The density marker appended to the base file name for this tier; it
        never holds a dot, so it cannot shift the extension. */
    function Suffix(): (suffix: string)
      ensures Dot !in suffix
      ensures suffix == "" <==> this == Small
    {
      match this
      case Large => "@3x"
      case Middle => "@2x"
      case Small => ""
    }

    /** Position of this tier in `All`. */
    function Index(): (i: nat)
      ensures i < |All| && All[i] == this
    {
      match this
      case Large => 0
      case Middle => 1
      case Small => 2
    }
  }

  /** Every tier, largest first. */
  const All: seq<Size> := [Large, Middle, Small]

  /** `All` lists each tier exactly once. */
  lemma AllEnumeratesSizes()
    ensures |All| == 3
    ensures forall s: Size :: s in All
    ensures forall i, j :: 0 <= i < j < |All| ==> All[i] != All[j]
  {
    forall s: Size
      ensures s in All
    {
      assert All[s.Index()] == s;
    }
  }

  /** Scale factors strictly decrease along `All`. */
  lemma ScaleDecreasesAlongAll()
    ensures forall i, j :: 0 <= i < j < |All| ==> All[i].Scale() > All[j].Scale()
  {
  }

  /** Distinct tiers have distinct suffixes. */
  lemma SuffixInjective(a: Size, b: Size)
    ensures a.Suffix() == b.Suffix() ==> a == b
  {
  }
}
