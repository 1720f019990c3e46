/** Strings the server derives for listings and inserts: the download links of the exhibition
    directory and inquiry listings, and the `existing_clients` column of an event. */
module Listings {
  import opened Wrappers
  import opened JsStrings
  import opened Assets

  const DirectoryDownloadBase: string := "https://api.dbzmanager.com/get-directories?download="
  const InquiryDownloadBase: string := "https://api.dbzmanager.com/get-inquiries?download="
  const ClientSeparator: string := ", "

  /** A row of `exhibition_directory`; `documentUrl` is `null` when no document was sent. */
  datatype Directory = Directory(id: nat, exhibitionName: string, year: string, venue: string, documentUrl: Option<string>)

  /** A directory as `GET /get-directories` lists it. */
  datatype DirectoryView = DirectoryView(directory: Directory, documentDownloadLink: Option<string>)

  /** The download link of a directory's document: `null` exactly when the stored URL is
      falsy, otherwise the download route with the URL's last path segment. */
  function DocumentDownloadLink(documentUrl: Option<string>): (link: Option<string>)
    ensures link.None? <==> !IsTruthy(documentUrl)
    ensures link.Some? ==> link.value == DirectoryDownloadBase + Basename(documentUrl.value)
    ensures link.Some? ==>
      DirectoryDownloadBase <= link.value && '/' !in link.value[|DirectoryDownloadBase|..]
  {
    if IsTruthy(documentUrl) then Some(DirectoryDownloadBase + Basename(documentUrl.value)) else None
  }

  /** `POST /add-directory` stores `PublicUrl(document)`; the listing then links back to the
      stored file name, and to nothing when no document was sent. */
  lemma DocumentLinkOfStoredDocument(document: Option<string>)
    requires document.Some? ==> IsStoredName(document.value)
    ensures document.None? ==> DocumentDownloadLink(PublicUrl(document)) == None
    ensures document.Some? ==> DocumentDownloadLink(PublicUrl(document)) == Some(DirectoryDownloadBase + document.value)
  {
    if document.Some? {
      BasenameAfterSlash(PublicBase, document.value);
    }
  }

  /** The `data` of `GET /get-directories`: every row, in order, each with its link. */
  function DirectoryListing(rows: seq<Directory>): seq<DirectoryView>
  {
    seq(|rows|, i requires 0 <= i < |rows| => DirectoryView(rows[i], DocumentDownloadLink(rows[i].documentUrl)))
  }

  /** A row of `inquiry_form`, reduced to its two file URLs. */
  datatype Inquiry = Inquiry(id: nat, floorPlanUrl: string, logoFilesUrl: string)

  /** URL stored for an optional inquiry file: "" (not `null`) when the file is missing. */
  function InquiryFileUrl(file: Option<string>): (url: string)
    ensures file.None? <==> url == ""
    ensures file.Some? ==> url == PublicBase + file.value
  {
    if file.Some? then PublicBase + file.value else ""
  }

  /** The inquiry download link; unlike the directory link it is built for every row. */
  function InquiryDownloadLink(url: string): (link: string)
    ensures InquiryDownloadBase <= link
  {
    InquiryDownloadBase + Basename(url)
  }

  datatype InquiryView = InquiryView(inquiry: Inquiry, floorPlanDownloadLink: string, logoFileDownloadLink: string)

  /** The `data` of `GET /get-inquiries`: every row, in order, with both links. */
  function InquiryListing(rows: seq<Inquiry>): seq<InquiryView>
  {
    seq(|rows|, i requires 0 <= i < |rows| =>
      InquiryView(rows[i], InquiryDownloadLink(rows[i].floorPlanUrl), InquiryDownloadLink(rows[i].logoFilesUrl)))
  }

  /** A stored inquiry file links to its own name; a missing one gets the bare route, whose
      empty `download` parameter is falsy, so following it lists inquiries instead of
      downloading. */
  lemma InquiryLinkOfStoredFile(file: Option<string>)
    requires file.Some? ==> IsStoredName(file.value)
    ensures file.None? ==> InquiryDownloadLink(InquiryFileUrl(file)) == InquiryDownloadBase
    ensures file.Some? ==> InquiryDownloadLink(InquiryFileUrl(file)) == InquiryDownloadBase + file.value
  {
    if file.Some? {
      BasenameAfterSlash(PublicBase, file.value);
    } else {
      assert Basename("") == "";
    }
  }

  /** The `existing_clients` column of `POST /add-event`: the list joined with ", ", or "" when
      the body has no list. */
  function ExistingClientsColumn(existingClients: Option<seq<string>>): string
  {
    if existingClients.Some? then Join(existingClients.value, ClientSeparator) else ""
  }

  /** A non-empty list of names that do not contain ", " is recovered by splitting the column. */
  lemma ClientsRoundTrip(clients: seq<string>)
    requires clients != []
    requires forall k | 0 <= k < |clients| :: !Contains(clients[k], ClientSeparator)
    ensures Split(ExistingClientsColumn(Some(clients)), ClientSeparator) == clients
  {
    forall k | 0 <= k < |clients| - 1 ensures NoEarlyOccurrence(clients[k], ClientSeparator) {
      NoEarlyForTwoCharSeparator(clients[k], ClientSeparator);
    }
    SplitJoin(clients, ClientSeparator);
  }

  /** The column cannot tell an absent list from an empty one, nor one name containing ", "
      from two names. */
  lemma ClientsColumnAmbiguities()
    ensures ExistingClientsColumn(None) == ExistingClientsColumn(Some([]))
    ensures ExistingClientsColumn(Some(["Acme, Inc"])) == ExistingClientsColumn(Some(["Acme", "Inc"]))
  {
    assert Join(["Acme", "Inc"], ClientSeparator) == "Acme" + ClientSeparator + Join(["Inc"], ClientSeparator);
  }
}
