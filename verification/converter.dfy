/**
 The name-building part of `Converter.createThumbnails`: for each size tier,
 in the order of `Sizes.All`, the destination file name is the base name, the
 tier's suffix, a dot and the extension, and the image is resized at the
 tier's scale into that file. The resizing and writing themselves are not
 modelled; a `ResizeRequest` records what each resize call is given.
 */
module Converter {
  import opened Components
  import opened FileNames
  import opened Sizes

  /** The arguments one iteration passes to `resize`: the destination file
      name and the resize rate. */
  datatype ResizeRequest = ResizeRequest(fileName: string, rate: real)

  /** The destination name for one tier: base name, suffix, dot, extension.
      Base name and extension are dot-free and so is every suffix, so the name
      holds exactly one dot; `DestinationNameParsesBack` shows how it splits. */
  function DestinationFileName(fileName: string, size: Size): (name: string)
    ensures Count(name, Dot) == 1
  {
    var head := FileNameWithoutExtension(fileName) + size.Suffix();
    var ext := FileExtension(fileName);
    OneDotBetween(head, ext);
    head + [Dot] + ext
  }

  /** Two dot-free parts around one dot split back into exactly those parts. */
  lemma DottedNameParsesBack(head: string, ext: string)
    requires Dot !in head && Dot !in ext
    ensures Split(head + [Dot] + ext, Dot) == [head, ext]
  {
    OneDotBetween(head, ext);
    assert Join([head, ext], Dot) == head + [Dot] + ext;
    SplitJoin([head, ext], Dot);
  }

  /** Taking a destination name apart again yields the source's base name
      with the tier's suffix, and the source's extension. */
  lemma DestinationNameParsesBack(fileName: string, size: Size)
    ensures var name := DestinationFileName(fileName, size);
            && Count(name, Dot) == 1
            && Split(name, Dot) == [FileNameWithoutExtension(fileName) + size.Suffix(), FileExtension(fileName)]
            && FileNameWithoutExtension(name) == FileNameWithoutExtension(fileName) + size.Suffix()
            && FileExtension(name) == FileExtension(fileName)
  {
    DottedNameParsesBack(FileNameWithoutExtension(fileName) + size.Suffix(), FileExtension(fileName));
  }

  /** `createThumbnails`: one resize request per tier, in the order of
      `Sizes.All`, each at the tier's scale into the tier's destination name. */
  method CreateThumbnails(fileName: string) returns (requests: seq<ResizeRequest>)
    ensures |requests| == |All|
    ensures forall k :: 0 <= k < |requests| ==>
              requests[k].fileName == DestinationFileName(fileName, All[k])
              && requests[k].rate == All[k].Scale()
    ensures forall i, j :: 0 <= i < j < |requests| ==>
              requests[i].fileName != requests[j].fileName && requests[i].rate > requests[j].rate
  {
    requests := [];
    var k := 0;
    while k < |All|
      invariant 0 <= k <= |All|
      invariant |requests| == k
      invariant forall i :: 0 <= i < k ==>
                  requests[i] == ResizeRequest(DestinationFileName(fileName, All[i]), All[i].Scale())
    {
      var size := All[k];
      requests := requests + [ResizeRequest(DestinationFileName(fileName, size), size.Scale())];
      k := k + 1;
    }
    ThumbnailNamesPairwiseDistinct(fileName, requests);
    ThumbnailRatesDecreasing(requests);
  }

  /** Different tiers never share a destination name, whatever the source
      name: the suffix can be read back from the name. */
  lemma DestinationNamesDistinct(fileName: string, a: Size, b: Size)
    requires a != b
    ensures DestinationFileName(fileName, a) != DestinationFileName(fileName, b)
  {
    var base := FileNameWithoutExtension(fileName);
    DestinationNameParsesBack(fileName, a);
    DestinationNameParsesBack(fileName, b);
    SuffixInjective(a, b);
    assert (base + a.Suffix())[|base|..] == a.Suffix();
    assert (base + b.Suffix())[|base|..] == b.Suffix();
  }

  /** The requests `CreateThumbnails` produces name pairwise distinct files. */
  lemma ThumbnailNamesPairwiseDistinct(fileName: string, requests: seq<ResizeRequest>)
    requires |requests| == |All|
    requires forall k :: 0 <= k < |requests| ==> requests[k].fileName == DestinationFileName(fileName, All[k])
    ensures forall i, j :: 0 <= i < j < |requests| ==> requests[i].fileName != requests[j].fileName
  {
    DestinationNamesDistinct(fileName, Large, Middle);
    DestinationNamesDistinct(fileName, Large, Small);
    DestinationNamesDistinct(fileName, Middle, Small);
    assert requests[0].fileName == DestinationFileName(fileName, Large);
    assert requests[1].fileName == DestinationFileName(fileName, Middle);
    assert requests[2].fileName == DestinationFileName(fileName, Small);
  }

  /** The requests `CreateThumbnails` produces shrink the image further at
      every step. */
  lemma ThumbnailRatesDecreasing(requests: seq<ResizeRequest>)
    requires |requests| == |All|
    requires forall k :: 0 <= k < |requests| ==> requests[k].rate == All[k].Scale()
    ensures forall i, j :: 0 <= i < j < |requests| ==> requests[i].rate > requests[j].rate
  {
    ScaleDecreasesAlongAll();
  }

  /** A source name without a dot is used whole on both sides of the dot:
      `photo` becomes `photo@3x.photo`, `photo@2x.photo` and `photo.photo`. */
  lemma NoDotDestination(fileName: string, size: Size)
    requires Dot !in fileName
    ensures DestinationFileName(fileName, size) == fileName + size.Suffix() + [Dot] + fileName
  {
    NoDotIsBaseAndExtension(fileName);
  }

  /** A source name with exactly one dot gets the tier's suffix inserted just
      before that dot, and nothing else changes. */
  lemma OneDotDestination(fileName: string, size: Size)
    requires Count(fileName, Dot) == 1
    ensures var base, ext := FileNameWithoutExtension(fileName), FileExtension(fileName);
            && fileName == base + [Dot] + ext
            && DestinationFileName(fileName, size) == base + size.Suffix() + [Dot] + ext
  {
    RoundTripIffOneDot(fileName);
  }
}
