/** The object-storage helper the service uploads images through. Storage is
    outside the database transaction: what it received stays there when the
    service call fails. */
module Storage {
  import opened Domain

  class AwsS3 {
    /** Every file uploaded so far; the key of a file is its position. */
    var blobs: seq<MultipartFile>

    constructor ()
      ensures blobs == []
    {
      blobs := [];
    }

    /** multipartFileUpload: stores the file and returns a key no earlier upload received. */
    method MultipartFileUpload(file: MultipartFile) returns (key: FileName)
      modifies this
      ensures blobs == old(blobs) + [file]
      ensures key == |old(blobs)|
    {
      key := |blobs|;
      blobs := blobs + [file];
    }
  }
}
