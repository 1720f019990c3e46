/** Where uploaded files live and how the server refers to them: the public URL stored in a row
    and the local path the delete route derives from that URL. */
module Assets {
  import opened Wrappers
  import opened JsStrings

  /** Prefix of every public file URL the server stores. */
  const PublicBase: string := "https://api.dbzmanager.com/uploads/"

  /** JavaScript truthiness of a nullable string: `null` and "" are falsy. */
  predicate IsTruthy(s: Option<string>) {
    s.Some? && s.value != ""
  }

  /** A file name as the disk storage chooses it (a timestamp and the original extension):
      non-empty and without a path separator. */
  predicate IsStoredName(name: string) {
    name != "" && '/' !in name
  }

  /** `req.files.fileN ? base + filename : null`, where `stored` is the name under which the
      uploaded part was saved and `None` means no such part was sent. */
  function PublicUrl(stored: Option<string>): (url: Option<string>)
    ensures url.None? <==> stored.None?
    ensures stored.Some? ==> IsTruthy(url) && PublicBase <= url.value
  {
    match stored
    case None => None
    case Some(name) => Some(PublicBase + name)
  }

  /** The directory `<serverDir>/uploads/` that `getFilePath` joins file names to. */
  function UploadsDir(serverDir: string): string {
    serverDir + "/uploads/"
  }

  /** `getFilePath`: `null` for a falsy URL, otherwise the uploads directory joined with the
      URL's last path segment. */
  function LocalPath(serverDir: string, url: Option<string>): (path: Option<string>)
    ensures path.None? <==> !IsTruthy(url)
    ensures path.Some? ==> path.value == UploadsDir(serverDir) + Basename(url.value)
    ensures path.Some? ==>
      UploadsDir(serverDir) <= path.value && '/' !in path.value[|UploadsDir(serverDir)|..]
  {
    if !IsTruthy(url) then None else Some(UploadsDir(serverDir) + Basename(url.value))
  }

  /** The path derived from a stored public URL is the file the upload saved, so the delete
      route unlinks the file the row refers to. */
  lemma LocalPathOfPublicUrl(serverDir: string, name: string)
    requires IsStoredName(name)
    ensures PublicUrl(Some(name)) == Some(PublicBase + name)
    ensures LocalPath(serverDir, PublicUrl(Some(name))) == Some(UploadsDir(serverDir) + name)
  {
    BasenameAfterSlash(PublicBase, name);
  }
}
