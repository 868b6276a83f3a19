/** The upload guards: a size limit of one mebibyte, then membership of the
    MIME type in a fixed list. A guard returns the message to send back, or
    `None` when the file may be staged and parsed. */
module Helper {
  import opened Common

  const SupportedMimesImg: seq<string> := [
    "image/png", "image/jpg", "image/jpeg", "image/svg", "image/gif", "image/webp"
  ]

  const SupportedMimesExcel: seq<string> := [
    "application/vnd.openxmlformats-officedocument.spreadsheetml.sheet"
  ]

  const ImageSizeMessage := "Image size must be less than 1 MB"
  const ImageTypeMessage := "Image must be type of png,jpg,jpeg,svg,wrbp,gif..."
  const ExcelSizeMessage := "File size must be less than 1 MB"
  const ExcelTypeMessage := "File must be type of xlsx"

  /** One mebibyte in bytes. */
  const MiB: nat := 1024 * 1024

  /** A byte count in mebibytes. Division by a power of two is exact on
      doubles for any file size, so a real quotient is faithful here. */
  function BytesToMb(bytes: nat): real
  {
    bytes as real / (1024 * 1024) as real
  }

  /** The guard's `bytesToMb(size) > 1` is the integer comparison
      `size > 1048576`: exactly one mebibyte passes. */
  lemma BytesToMbExceedsOne(bytes: nat)
    ensures BytesToMb(bytes) > 1.0 <==> bytes > MiB
  {
    var q := BytesToMb(bytes);
    assert q * MiB as real == bytes as real;
    if bytes > MiB {
      assert q > 1.0;
    } else {
      assert q <= 1.0;
    }
  }

  /** The spreadsheet upload guard: the size message when the file is larger
      than one mebibyte, whatever its type; otherwise the type message when
      the MIME type is not the xlsx type; otherwise nothing. */
  function ExcelValidator(size: nat, mime: string): (message: Option<string>)
    ensures message == Some(ExcelSizeMessage) <==> size > MiB
    ensures message == Some(ExcelTypeMessage) <==> size <= MiB && mime !in SupportedMimesExcel
    ensures message == None <==> size <= MiB && mime in SupportedMimesExcel
  {
    BytesToMbExceedsOne(size);
    if BytesToMb(size) > 1.0 then Some(ExcelSizeMessage)
    else if mime !in SupportedMimesExcel then Some(ExcelTypeMessage)
    else None
  }

  /** The image upload guard: the same size-then-type order over the image
      MIME list. */
  function ImageValidator(size: nat, mime: string): (message: Option<string>)
    ensures message == Some(ImageSizeMessage) <==> size > MiB
    ensures message == Some(ImageTypeMessage) <==> size <= MiB && mime !in SupportedMimesImg
    ensures message == None <==> size <= MiB && mime in SupportedMimesImg
  {
    BytesToMbExceedsOne(size);
    if BytesToMb(size) > 1.0 then Some(ImageSizeMessage)
    else if mime !in SupportedMimesImg then Some(ImageTypeMessage)
    else None
  }
}
