/** app/steganography/capacity.py: how many payload bytes an image can take. */
module Capacity {
  import opened Prelude
  import opened Envelopes
  import opened Primitives
  import opened LsbPng

  function ChannelCount(img: Image): nat {
    if img.mode == RGBA then 4 else 3
  }

  function TotalCapacityBytes(img: Image): nat {
    img.width * img.height * ChannelCount(img) / 8
  }

  function MaxPayloadBytes(img: Image): nat {
    var usable := TotalCapacityBytes(img) - HEADER_LEN - GCM_TAG_BYTES;
    if usable < 0 then 0 else usable
  }

  predicate FitsPayload(img: Image, length: nat) {
    length <= MaxPayloadBytes(img)
  }

  /** The bit-level guard that embedding applies to the envelope of a payload. */
  predicate EnvelopeFits(img: Image, length: nat) {
    RoomFor(|img.channels|, length + GCM_TAG_BYTES)
  }

  /** The two files count the channels of an image alike. */
  lemma ChannelsOfImage(img: Image)
    requires WellFormed(img)
    ensures |img.channels| == img.width * img.height * ChannelCount(img)
  {
  }

  /** The byte-level estimate and the bit-level guard differ on the empty payload only, and
      there exactly when the image is too small for an envelope with no payload. */
  lemma EstimateAgainstGuard(img: Image, length: nat)
    requires WellFormed(img)
    ensures EnvelopeFits(img, length) ==> FitsPayload(img, length)
    ensures (FitsPayload(img, length) <==> EnvelopeFits(img, length))
            <==> length > 0 || |img.channels| >= 8 * (HEADER_LEN + GCM_TAG_BYTES)
  {
    ChannelsOfImage(img);
  }

  /** An image of that kind: one RGB pixel passes the estimate for the empty payload. */
  lemma OnePixelPassesEstimate()
    ensures var img := Image(1, 1, RGB, [0, 0, 0]);
            WellFormed(img) && FitsPayload(img, 0) && !EnvelopeFits(img, 0)
  {
  }

  /** What an image of each kind holds: half a byte per RGBA pixel, three bits per other pixel. The
      array of a well-formed image has four channels per RGBA pixel and three per other pixel. */
  lemma CapacityByMode(img: Image)
    ensures TotalCapacityBytes(img)
         == if img.mode == RGBA then img.width * img.height / 2 else 3 * (img.width * img.height) / 8
    ensures WellFormed(img)
       <==> |img.channels| == if img.mode == RGBA then 4 * (img.width * img.height) else 3 * (img.width * img.height)
  {
    var pixels := img.width * img.height;
    assert img.mode == RGBA ==> TotalCapacityBytes(img) == pixels * 4 / 8;
    assert img.mode != RGBA ==> TotalCapacityBytes(img) == pixels * 3 / 8;
  }

  /** One hundred RGBA pixels hold fifty bytes, one hundred RGB pixels thirty-seven. */
  lemma HundredPixels(channels: Bytes)
    ensures TotalCapacityBytes(Image(10, 10, RGBA, channels)) == 50
    ensures TotalCapacityBytes(Image(10, 10, RGB, channels)) == 37
  {
  }

  /** MaxPayloadBytes is the largest payload whose envelope fits, when any does. */
  lemma MaxPayloadIsTight(img: Image)
    requires WellFormed(img) && EnvelopeFits(img, 0)
    ensures EnvelopeFits(img, MaxPayloadBytes(img))
    ensures forall length: nat :: EnvelopeFits(img, length) <==> length <= MaxPayloadBytes(img)
  {
    ChannelsOfImage(img);
  }
}
