/** The upload directory as an object the two endpoints share: the upload
    endpoint writes one file into it, the music endpoint reads its listing. */
module MusicDirectories {
  import opened Names
  import opened MusicStore

  class MusicDirectory {
    /** Every file in the directory, by name. */
    var files: Directory

    /** The directory as it is found at start-up (it may already hold files). */
    constructor (existing: Directory)
      ensures files == existing
    {
      files := existing;
    }

    /** The upload endpoint: reject a name the filter refuses without writing,
        otherwise write (or overwrite) the file and answer with the message. */
    method UploadFile(name: string, content: seq<byte>) returns (r: UploadResult)
      modifies this
      ensures UploadOutcome(files, r) == Upload(old(files), name, content)
      ensures !IsAllowed(name) ==> files == old(files) && r == BadRequest(BadRequestStatus, FormatDetail)
      ensures IsAllowed(name) ==> files == old(files)[name := content] && r == Uploaded(SuccessMessage(name))
      ensures IsAllowed(name) ==> forall order :: IsListingOf(order, files) ==> name in GetMusicList(order)
    {
      if !IsAllowed(name) {
        r := BadRequest(BadRequestStatus, FormatDetail);
        return;
      }
      files := files[name := content];
      r := Uploaded(SuccessMessage(name));
    }

    /** The music endpoint: the accepted names among the directory's files,
        in the order `order` in which the directory lists them. */
    function GetMusicList(order: seq<string>): (r: seq<string>)
      reads this
      requires IsListingOf(order, files)
      ensures Distinct(r)
      ensures forall x :: x in r <==> x in files && IsAllowed(x)
      ensures |r| == |AllowedNames(files)|
      ensures r == FilterAllowed(order)
    {
      ListingIsAllowedNames(files, order);
      FilterAllowed(order)
    }
  }
}
