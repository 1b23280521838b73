/** `Carousel` of `Background`: the ring of image cards. */
module Background {
  import opened JsValues

  /** One card: its React key and the number of the image it shows. */
  datatype Card = Card(key: nat, image: nat)

  /** The url of image `image`: `/<image>.png`. */
  function ImageUrl(image: nat): string
  {
    "/" + Decimal(image) + ".png"
  }

  /** `Array.from({ length: count }, ...)`; a negative length gives no cards. */
  function Carousel(count: int := 10): (cards: seq<Card>)
    ensures |cards| == if count < 0 then 0 else count
    ensures forall i :: 0 <= i < |cards| ==> cards[i].key == i && 1 <= cards[i].image <= 10
    ensures forall i :: 0 <= i < |cards| ==> cards[i].image == i % 10 + 1
  {
    seq(if count < 0 then 0 else count, i requires 0 <= i => Card(i, i % 10 + 1))
  }

  /** The default carousel has ten cards showing images 1 to 10 in order. */
  lemma DefaultCarousel()
    ensures |Carousel()| == 10
    ensures forall i :: 0 <= i < 10 ==> Carousel()[i] == Card(i, i + 1)
  {
  }

  /** Up to ten cards, card `i` shows image `i + 1`, so no image repeats. */
  lemma SmallCarouselDistinct(count: int)
    requires count <= 10
    ensures forall i :: 0 <= i < |Carousel(count)| ==> Carousel(count)[i].image == i + 1
    ensures forall i, j :: 0 <= i < j < |Carousel(count)| ==> Carousel(count)[i].image != Carousel(count)[j].image
  {
  }

  /** Beyond ten cards the images repeat with period 10. */
  lemma CarouselPeriodic(count: int, i: nat)
    requires i + 10 < |Carousel(count)|
    ensures Carousel(count)[i + 10].image == Carousel(count)[i].image
  {
  }

  /** The ten image files, in order. */
  const ImageFiles: seq<string> :=
    ["/1.png", "/2.png", "/3.png", "/4.png", "/5.png", "/6.png", "/7.png", "/8.png", "/9.png", "/10.png"]

  /** Image `n` of the ten is the file `/<n>.png`. */
  lemma ImageUrlListed(image: nat)
    requires 1 <= image <= 10
    ensures ImageUrl(image) == ImageFiles[image - 1]
  {
    if image == 10 {
      assert Decimal(10) == Decimal(1) + [DigitChar(0)];
    }
  }

  /** Every card of every carousel loads one of the ten image files, card `i` the file of image `i % 10 + 1`. */
  lemma CarouselUrls(count: int)
    ensures forall i :: 0 <= i < |Carousel(count)| ==>
      ImageUrl(Carousel(count)[i].image) == ImageFiles[i % 10] && ImageUrl(Carousel(count)[i].image) in ImageFiles
  {
    forall i | 0 <= i < |Carousel(count)|
      ensures ImageUrl(Carousel(count)[i].image) == ImageFiles[i % 10]
    {
      ImageUrlListed(Carousel(count)[i].image);
    }
  }

  /** The keys are `0..count - 1`, so no two cards share a key. */
  lemma CarouselKeysDistinct(count: int)
    ensures forall i, j :: 0 <= i < j < |Carousel(count)| ==> Carousel(count)[i].key != Carousel(count)[j].key
  {
  }
}
