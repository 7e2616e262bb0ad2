/** The last step of `preprocess_image`: binarising an already grey, contrast
    enhanced and sharpened image with `img.point(lambda p: p > 150 and 255)`. */
module Preprocess {

  /** An 8-bit grey level of a mode "L" image. */
  type Grey = p: int | 0 <= p <= 255

  const Threshold: Grey := 150

  /** The per-pixel map `p > 150 and 255`: 255 when the pixel is brighter than
      the threshold, otherwise `False`, which PIL stores as 0. */
  function BinarizePixel(p: Grey): (q: Grey)
    ensures q == 0 || q == 255
    ensures q == 255 <==> p > Threshold
  {
    if p > Threshold then 255 else 0
  }

  /** `point` applies the map to every pixel and keeps the image's size. */
  function Binarize(image: seq<Grey>): (out: seq<Grey>)
    ensures |out| == |image|
    ensures forall i :: 0 <= i < |image| ==> out[i] == BinarizePixel(image[i])
  {
    seq(|image|, i requires 0 <= i < |image| => BinarizePixel(image[i]))
  }

  predicate IsBilevel(image: seq<Grey>) {
    forall i :: 0 <= i < |image| ==> image[i] == 0 || image[i] == 255
  }

  /** Every output pixel is black or white; a pixel is white exactly when the
      input pixel lies above the threshold. */
  lemma BinarizeIsBilevel(image: seq<Grey>)
    ensures IsBilevel(Binarize(image))
    ensures forall i :: 0 <= i < |image| ==> (Binarize(image)[i] == 255 <==> image[i] > Threshold)
  {
  }

  /** A bilevel image is left as it is. */
  lemma BinarizeFixesBilevel(image: seq<Grey>)
    requires IsBilevel(image)
    ensures Binarize(image) == image
  {
  }

  /** Thresholding a second time at the same threshold changes nothing. */
  lemma BinarizeIdempotent(image: seq<Grey>)
    ensures Binarize(Binarize(image)) == Binarize(image)
  {
    BinarizeIsBilevel(image);
    BinarizeFixesBilevel(Binarize(image));
  }

  /** The map keeps the order of grey levels: a brighter pixel never becomes
      darker than a dimmer one. */
  lemma BinarizeMonotone(image: seq<Grey>, i: nat, j: nat)
    requires i < |image| && j < |image| && image[i] <= image[j]
    ensures Binarize(image)[i] <= Binarize(image)[j]
  {
  }
}
