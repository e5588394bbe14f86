/** The two output formats: the MIME type asked of the decoder and the name offered for download. */
module Formats {
  import opened Selection

  /** The value of the format radio button that selects JPEG; every other value means PNG. */
  const Jpeg := "JPEG"

  const JpegMime := "image/jpeg"
  const PngMime := "image/png"

  /** The quality factor passed to the decoder on every conversion. */
  const MaxQuality := 1

  const JpegDownloadName := "converted-image.jpg"
  const PngDownloadName := "converted-image.png"

  /** The `toType` asked of the decoder: JPEG exactly for the `JPEG` format. */
  function MimeType(format: string): (mime: string)
    ensures mime in {JpegMime, PngMime}
    ensures mime == JpegMime <==> format == Jpeg
  {
    if format == Jpeg then JpegMime else PngMime
  }

  /** The file name the download link suggests: a `.jpg` name exactly for the `JPEG` format. */
  function DownloadName(format: string): (name: string)
    ensures name in {JpegDownloadName, PngDownloadName}
    ensures name == JpegDownloadName <==> format == Jpeg
  {
    assert "converted-image." + "jpg" == JpegDownloadName;
    assert "converted-image." + "png" == PngDownloadName;
    assert JpegDownloadName[16] != PngDownloadName[16];
    "converted-image." + (if format == Jpeg then "jpg" else "png")
  }

  /** The extension of the suggested name agrees with the MIME type the decoder was asked for. */
  lemma DownloadNameAgreesWithMimeType(format: string)
    ensures EndsWith(DownloadName(format), ".jpg") <==> MimeType(format) == JpegMime
    ensures EndsWith(DownloadName(format), ".png") <==> MimeType(format) == PngMime
  {
    assert JpegDownloadName[15..] == ".jpg";
    assert PngDownloadName[15..] == ".png";
  }
}
