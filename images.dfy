// The image assignment of build.js lines 145-148: every poem of the sorted
// processedPoems is given its own source image as decorative image.

module Images {
  import opened Wrappers
  import opened Enrichment
  import opened YearSort

  /** The poem after `poem.decorativeImage = poem.sourceImage`. */
  function Decorated(p: EnrichedPoem): (r: EnrichedPoem)
    ensures r.decorativeImage == Some(p.sourceImage)
  {
    p.(decorativeImage := Some(p.sourceImage))
  }

  /** Every poem of s decorated, in place. */
  function DecorateAll(s: seq<EnrichedPoem>): (r: seq<EnrichedPoem>)
    ensures |r| == |s|
    ensures forall i :: 0 <= i < |s| ==> r[i] == Decorated(s[i])
  {
    seq(|s|, i requires 0 <= i < |s| => Decorated(s[i]))
  }

  /** The forEach over processedPoems, updating every poem in place. */
  method AssignDecorativeImages(a: array<EnrichedPoem>)
    modifies a
    ensures a[..] == DecorateAll(old(a[..]))
  {
    for i := 0 to a.Length
      invariant forall k :: 0 <= k < i ==> a[k] == Decorated(old(a[k]))
      invariant forall k :: i <= k < a.Length ==> a[k] == old(a[k])
    {
      a[i] := Decorated(a[i]);
    }
  }

  /** The assignment changes only the decorative image: the order of the
      sort and every other field stay as they were. */
  lemma DecorationKeepsOrder(s: seq<EnrichedPoem>)
    requires YearOrdered(s)
    ensures YearOrdered(DecorateAll(s))
    ensures forall i :: 0 <= i < |s| ==>
      DecorateAll(s)[i].(decorativeImage := s[i].decorativeImage) == s[i]
  {
    var d := DecorateAll(s);
    forall i | 0 < i < |d| ensures Compare(d[i - 1], d[i]) <= 0 {
      assert Compare(s[i - 1], s[i]) <= 0;
    }
  }
}
