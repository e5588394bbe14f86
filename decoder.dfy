/**
 * The external HEIC decoder, seen from the controller: the request it is given and the
 * outcome it settles with. The decoding itself is not modelled.
 */
module Decoder {
  import opened Wrappers
  import opened Selection

  /** An encoded image produced by the decoder. */
  datatype Blob = Blob(mime: string, bytes: seq<bv8>)

  /** What the decoder's promise resolves with: one blob, or an array of them. */
  datatype Decoded = Single(blob: Blob) | Many(blobs: seq<Blob>)

  /** How the decoder's promise settles; the reason of a rejection is only logged. */
  datatype DecodeOutcome = Resolved(value: Decoded) | Rejected(reason: string)

  /** The options object handed to the decoder. */
  datatype DecodeRequest = DecodeRequest(source: File, toType: string, quality: int)

  /** The blobs a resolution carries, in order. */
  function Blobs(d: Decoded): seq<Blob>
  {
    match d
    case Single(b) => [b]
    case Many(bs) => bs
  }

  /**
   * The blob the controller keeps: element 0 of an array, the value itself otherwise.
   * Element 0 of an empty array is `undefined`, which is `None` here.
   */
  function FirstBlob(d: Decoded): (b: Option<Blob>)
    ensures b.None? <==> Blobs(d) == []
    ensures b.Some? ==> b.value == Blobs(d)[0]
  {
    if d.Many? then
      if |d.blobs| > 0 then Some(d.blobs[0]) else None
    else
      Some(d.blob)
  }
}
