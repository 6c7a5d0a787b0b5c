/** The `POST /api/upload` route of the React application: three checks on the query
    and the body, in order, then a `put` of the file under a unique name. */
module UploadRoute {
  import opened Wrappers
  import Text
  import Blob

  datatype Response = Error(status: int, error: string) | Uploaded(url: string)

  const Folders: seq<string> := ["categories", "nominees"]

  /** A query parameter counts only when present and non-empty. */
  predicate Given(p: Option<string>) {
    p.Some? && p.value != ""
  }

  /** The route: a missing or empty filename or folder, then a folder other than the two
      image folders, then a missing body are each refused with 400; only then is `put`
      called, on the unique name, and its failure is a 500. */
  function Post(filename: Option<string>, folder: Option<string>, hasBody: bool, timestamp: int, random36: string,
                put: string -> Option<string>): (r: Response)
    ensures !Given(filename) || !Given(folder) ==> r == Error(400, "Filename and folder are required")
    ensures Given(filename) && Given(folder) && folder.value !in Folders ==> r == Error(400, "Invalid folder")
    ensures Given(filename) && Given(folder) && folder.value in Folders && !hasBody ==> r == Error(400, "No file provided")
    ensures r.Uploaded? || r.status == 500 <==> Given(filename) && Given(folder) && folder.value in Folders && hasBody
    ensures r.Uploaded? ==> put(Blob.UploadName(folder.value, timestamp, random36, filename.value)) == Some(r.url)
    ensures r.Error? && r.status == 500 ==>
              r.error == "Upload failed" && put(Blob.UploadName(folder.value, timestamp, random36, filename.value)).None?
  {
    if !Given(filename) || !Given(folder) then Error(400, "Filename and folder are required")
    else if folder.value !in Folders then Error(400, "Invalid folder")
    else if !hasBody then Error(400, "No file provided")
    else
      match put(Blob.UploadName(folder.value, timestamp, random36, filename.value))
      case None => Error(500, "Upload failed")
      case Some(url) => Uploaded(url)
  }

  /** What an accepted upload is stored under: a name inside the requested folder that
      keeps the extension of the given filename. */
  lemma StoredName(filename: string, folder: string, timestamp: int, random36: string)
    ensures var name := Blob.UploadName(folder, timestamp, random36, filename);
            name[..|folder| + 1] == folder + "/" &&
            Text.LastDotSegment(name) == Text.LastDotSegment(filename)
  {
    Blob.UploadNameKeepsExtension(folder, timestamp, random36, filename);
  }
}
