/** The helpers of the admin panel page: composing and splitting `front_depth` in the
    "F X D" format, the requests the search and edit handlers send, the list kept after a
    delete, the image test on file URLs, and the page state the handlers replace. */
module AdminPanel {
  import opened Wrappers
  import opened Tables
  import opened JsStrings
  import opened Uploads
  import opened Assets

  const DimensionSeparator: string := " X "

  /** The search form. `depth` is `None` when it holds `undefined` (after opening a file whose
      `front_depth` has no separator); `industry` is `None` until it is first set. */
  datatype SearchParams = SearchParams(design: string, front: string, depth: Option<string>, industry: Option<string>)

  /** The form as the page starts and as Reset leaves it: three empty fields, no industry. */
  const EmptyParams: SearchParams := SearchParams("", "", Some(""), None)

  /** A value as a template literal renders it. */
  function Render(value: Option<string>): string {
    if value.Some? then value.value else "undefined"
  }

  /** `front_depth` of a search: "F X D" when both parts are non-empty, "" otherwise. */
  function SearchFrontDepth(front: string, depth: Option<string>): (frontDepth: string)
    ensures frontDepth != "" <==> front != "" && IsTruthy(depth)
    ensures frontDepth != "" ==> frontDepth == front + DimensionSeparator + depth.value
  {
    if front != "" && IsTruthy(depth) then front + DimensionSeparator + depth.value else ""
  }

  /** The filter the server receives from a search: an `undefined` industry is not sent and so
      reads as empty. */
  function SearchFilterOf(p: SearchParams): (f: SearchFilter)
    ensures f.design == p.design
    ensures f.frontDepth == SearchFrontDepth(p.front, p.depth)
    ensures f.industry == "" <==> p.industry.None? || p.industry == Some("")
    ensures p.industry.Some? ==> f.industry == p.industry.value
  {
    SearchFilter(p.design, SearchFrontDepth(p.front, p.depth), p.industry.GetOr(""))
  }

  /** After Reset the search constrains nothing, so the server returns every upload. */
  lemma ResetSearchIsUnfiltered()
    ensures SearchFilterOf(EmptyParams) == SearchFilter("", "", "")
    ensures forall rows: seq<Upload> :: Where(rows, FilterMatcher(SearchFilterOf(EmptyParams))) == rows
  {
    forall rows: seq<Upload> ensures Where(rows, FilterMatcher(SearchFilterOf(EmptyParams))) == rows {
      WhereAll(rows, FilterMatcher(SearchFilterOf(EmptyParams)));
    }
  }

  /** `front_depth` of an edit: the template is never empty (it always holds " X "), so the
      fallback to the file's stored value is never taken. */
  function EditFrontDepth(p: SearchParams, file: Upload): (frontDepth: string)
    ensures frontDepth == p.front + DimensionSeparator + Render(p.depth)
    ensures Contains(frontDepth, DimensionSeparator)
  {
    var template := p.front + DimensionSeparator + Render(p.depth);
    assert OccursAt(template, DimensionSeparator, |p.front|) by {
      assert template[|p.front|..|p.front| + 3] == DimensionSeparator;
    }
    OrElse(template, file.frontDepth)
  }

  /** The fields `handleEdit` sends: design and industry fall back to the file's values when
      the form's are empty or unset. */
  function EditFields(p: SearchParams, file: Upload): (string, string, string)
  {
    (OrElse(p.design, file.design), EditFrontDepth(p, file), OrElse(p.industry.GetOr(""), file.industry))
  }

  /** The server's view of the edit: the form fields and the stored names of the newly
      chosen files, if any. */
  function EditRequestOf(p: SearchParams, file: Upload, newFile1: Option<string>, newFile2: Option<string>): (req: EditRequest)
    ensures req.design == (if p.design != "" then p.design else file.design)
    ensures req.frontDepth == p.front + DimensionSeparator + Render(p.depth)
    ensures req.industry == (if IsTruthy(p.industry) then p.industry.value else file.industry)
    ensures req.file1 == newFile1 && req.file2 == newFile2
  {
    var fields := EditFields(p, file);
    EditRequest(fields.0, fields.1, fields.2, newFile1, newFile2)
  }

  /** `front_depth.split(" X ")`: the text before the first separator, and the text between
      the first and the second (`undefined` when there is no separator). */
  function SplitFrontDepth(frontDepth: string): (r: (string, Option<string>))
    ensures r.1.None? <==> !Contains(frontDepth, DimensionSeparator)
    ensures r.1.None? ==> r.0 == frontDepth
    ensures !Contains(r.0, DimensionSeparator)
    ensures r.1.Some? ==> !Contains(r.1.value, DimensionSeparator)
  {
    var parts := Split(frontDepth, DimensionSeparator);
    SplitPiecesAreFree(frontDepth, DimensionSeparator);
    var r := (parts[0], if |parts| > 1 then Some(parts[1]) else None);
    if !Contains(frontDepth, DimensionSeparator) then
      SplitFree(frontDepth, DimensionSeparator);
      r
    else
      SplitOfContaining(frontDepth);
      r
  }

  /** A string holding the separator splits into at least two parts. */
  lemma SplitOfContaining(s: string)
    requires Contains(s, DimensionSeparator)
    ensures |Split(s, DimensionSeparator)| >= 2
  {
    var i :| 0 <= i <= |s| && OccursAt(s, DimensionSeparator, i);
    var r := IndexOfFrom(s, DimensionSeparator, 0);
    assert r.Some?;
  }

  /** The form `handleOpenEdit` fills in from a file. */
  function OpenEditParams(file: Upload): (p: SearchParams)
    ensures p.design == file.design && p.industry == Some(file.industry)
    ensures (p.front, p.depth) == SplitFrontDepth(file.frontDepth)
  {
    var parts := SplitFrontDepth(file.frontDepth);
    SearchParams(file.design, parts.0, parts.1, Some(file.industry))
  }

  /** With the conditions below, " X " is found in `front + " X "` only at the end. */
  lemma NoEarlyDimensionSeparator(front: string)
    requires !Contains(front, DimensionSeparator) && !EndsWith(front, " X")
    ensures NoEarlyOccurrence(front, DimensionSeparator)
  {
    var sep := DimensionSeparator;
    forall j | 0 <= j < |front| ensures !OccursAt(front + sep, sep, j) {
      var s := front + sep;
      if j + 3 <= |front| {
        assert s[j..j + 3] == front[j..j + 3];
        assert !OccursAt(front, sep, j);
      } else if j + 2 == |front| {
        assert s[j..j + 3][..2] == front[|front| - 2..];
        assert sep[..2] == " X";
      } else {
        assert s[j + 1] == ' ' && sep[1] == 'X';
      }
    }
  }

  /** Splitting a composed "F X D" gives back F and D when F neither contains " X " nor ends
      in " X", and D contains no " X ". */
  lemma SplitComposed(front: string, depth: string)
    requires !Contains(front, DimensionSeparator) && !EndsWith(front, " X")
    requires !Contains(depth, DimensionSeparator)
    ensures SplitFrontDepth(front + DimensionSeparator + depth) == (front, Some(depth))
  {
    NoEarlyDimensionSeparator(front);
    SplitAtSeparator(front, DimensionSeparator, depth);
    SplitFree(depth, DimensionSeparator);
    var s := front + DimensionSeparator + depth;
    assert Split(s, DimensionSeparator) == [front, depth];
  }

  /** The conditions of `SplitComposed` cannot be dropped: a front ending in " X" loses that
      ending to the depth... */
  lemma FrontEndingInXCounterexample()
    ensures SplitFrontDepth("a X" + DimensionSeparator + "b") == ("a", Some("X b"))
  {
    var sep := DimensionSeparator;
    assert "a X" + sep + "b" == "a" + sep + "X b";
    NoEarlyDimensionSeparator("a");
    SplitAtSeparator("a", sep, "X b");
    assert !Contains("X b", sep) by {
      forall i | 0 <= i <= 3 ensures !OccursAt("X b", sep, i) {
        assert i == 0 ==> "X b"[0..3][0] != sep[0];
      }
    }
    SplitFree("X b", sep);
  }

  /** ...and a depth holding " X " is cut short. */
  lemma DepthHoldingSeparatorCounterexample()
    ensures SplitFrontDepth("a" + DimensionSeparator + "b X c") == ("a", Some("b"))
  {
    var sep := DimensionSeparator;
    NoEarlyDimensionSeparator("a");
    NoEarlyDimensionSeparator("b");
    SplitAtSeparator("a", sep, "b X c");
    assert "b" + sep + "c" == "b X c";
    SplitAtSeparator("b", sep, "c");
    assert Split("a" + sep + "b X c", sep) == ["a"] + (["b"] + Split("c", sep));
  }

  /** Opening a file and saving without touching the form or choosing files leaves the record
      as it is, when its `front_depth` is "F X D" with parts as in `SplitComposed`. */
  lemma OpenThenSaveKeepsRecord(file: Upload, front: string, depth: string)
    requires file.frontDepth == front + DimensionSeparator + depth
    requires !Contains(front, DimensionSeparator) && !EndsWith(front, " X")
    requires !Contains(depth, DimensionSeparator)
    ensures Merge(file, EditRequestOf(OpenEditParams(file), file, None, None)) == FieldsOf(file)
  {
    SplitComposed(front, depth);
  }

  /** A `front_depth` without " X " is not kept: saving an opened file without changes
      appends " X undefined" to it. */
  lemma OpenThenSaveWithoutSeparator(file: Upload)
    requires !Contains(file.frontDepth, DimensionSeparator)
    ensures Merge(file, EditRequestOf(OpenEditParams(file), file, None, None)).frontDepth
      == file.frontDepth + " X undefined"
  {
  }

  /** Searching right after opening a file whose `front_depth` is "F X D" (parts as in
      `SplitComposed`) finds that file. */
  lemma OpenedFileMatchesSearch(file: Upload, front: string, depth: string)
    requires file.frontDepth == front + DimensionSeparator + depth
    requires !Contains(front, DimensionSeparator) && !EndsWith(front, " X")
    requires !Contains(depth, DimensionSeparator)
    ensures MatchesFilter(file, SearchFilterOf(OpenEditParams(file)))
  {
    SplitComposed(front, depth);
  }

  function FileNumberIsNot(fileNumber: string): Upload -> bool {
    (u: Upload) => u.fileNumber != fileNumber
  }

  /** The list `handleDelete` keeps: the entries with a different file number. */
  function RemainingAfterDelete(files: seq<Upload>, fileNumber: string): (r: seq<Upload>)
    ensures forall u :: u in r <==> u in files && u.fileNumber != fileNumber
    ensures |r| <= |files|
  {
    Where(files, FileNumberIsNot(fileNumber))
  }

  /** The entries keep their order: filtering a list cut in two filters each half. */
  lemma RemainingKeepsOrder(a: seq<Upload>, b: seq<Upload>, fileNumber: string)
    ensures RemainingAfterDelete(a + b, fileNumber) == RemainingAfterDelete(a, fileNumber) + RemainingAfterDelete(b, fileNumber)
  {
    WhereAppend(a, b, FileNumberIsNot(fileNumber));
  }

  /** With one entry of that file number at `k`, exactly that entry goes. */
  lemma RemainingDropsTheEntry(files: seq<Upload>, fileNumber: string, k: int)
    requires 0 <= k < |files| && files[k].fileNumber == fileNumber
    requires forall j | 0 <= j < |files| && j != k :: files[j].fileNumber != fileNumber
    ensures RemainingAfterDelete(files, fileNumber) == files[..k] + files[k + 1..]
  {
    WhereAllButOne(files, FileNumberIsNot(fileNumber), k);
  }

  /** With no entry of that file number, the list stays as it is. */
  lemma RemainingWithoutTheNumber(files: seq<Upload>, fileNumber: string)
    requires forall j | 0 <= j < |files| :: files[j].fileNumber != fileNumber
    ensures RemainingAfterDelete(files, fileNumber) == files
  {
    forall u | u in files ensures FileNumberIsNot(fileNumber)(u) {
      var j :| 0 <= j < |files| && files[j] == u;
    }
    WhereAll(files, FileNumberIsNot(fileNumber));
  }

  function LowerAscii(c: char): char {
    if 'A' <= c <= 'Z' then (c as int + 32) as char else c
  }

  function Lower(s: string): (r: string)
    ensures |r| == |s| && forall i | 0 <= i < |s| :: r[i] == LowerAscii(s[i])
    ensures forall i | 0 <= i < |r| :: !('A' <= r[i] <= 'Z')
    ensures forall i | 0 <= i < |s| && !('A' <= s[i] <= 'Z') :: r[i] == s[i]
  {
    seq(|s|, i requires 0 <= i < |s| => LowerAscii(s[i]))
  }

  /** Lower-casing twice is lower-casing once. */
  lemma LowerIdempotent(s: string)
    ensures Lower(Lower(s)) == Lower(s)
  {
    var l := Lower(s);
    assert forall i | 0 <= i < |l| :: Lower(l)[i] == l[i];
  }

  /** The test guarding each image: the URL is truthy and ends in ".jpg" or ".jpeg", letters in
      either case. */
  predicate ShowsImage(url: Option<string>)
    ensures ShowsImage(url) <==> IsTruthy(url) && MatchesJpegPattern(url.value)
  {
    IsTruthy(url) && (SuffixTestIsPattern(url.value);
                      EndsWith(Lower(url.value), ".jpg") || EndsWith(Lower(url.value), ".jpeg"))
  }

  /** The regular expression `/\.(jpeg|jpg)$/i`: a dot, then "jpeg" or "jpg" up to the end,
      compared without case. */
  predicate MatchesJpegPattern(s: string) {
    exists k | 0 <= k < |s| :: s[k] == '.' && (Lower(s[k + 1..]) == "jpeg" || Lower(s[k + 1..]) == "jpg")
  }

  /** The suffix test is the regular expression's meaning. */
  lemma SuffixTestIsPattern(url: string)
    ensures EndsWith(Lower(url), ".jpg") || EndsWith(Lower(url), ".jpeg") <==> MatchesJpegPattern(url)
  {
    if EndsWith(Lower(url), ".jpg") || EndsWith(Lower(url), ".jpeg") {
      SuffixMatchesPattern(url);
    }
    if MatchesJpegPattern(url) {
      var k :| 0 <= k < |url| && url[k] == '.' && (Lower(url[k + 1..]) == "jpeg" || Lower(url[k + 1..]) == "jpg");
      PatternIsSuffix(url, k);
    }
  }

  lemma SuffixMatchesPattern(url: string)
    requires EndsWith(Lower(url), ".jpg") || EndsWith(Lower(url), ".jpeg")
    ensures MatchesJpegPattern(url)
  {
    var l := Lower(url);
    if EndsWith(l, ".jpg") {
      var k := |url| - 4;
      LowerSuffix(url, k + 1);
      assert l[k..] == ".jpg";
      assert url[k] == '.' by { assert l[k] == '.'; }
      assert Lower(url[k + 1..]) == "jpg" by { assert l[k + 1..] == l[k..][1..]; }
    } else {
      var k := |url| - 5;
      LowerSuffix(url, k + 1);
      assert l[k..] == ".jpeg";
      assert url[k] == '.' by { assert l[k] == '.'; }
      assert Lower(url[k + 1..]) == "jpeg" by { assert l[k + 1..] == l[k..][1..]; }
    }
  }

  /** Lower-casing commutes with taking a suffix. */
  lemma LowerSuffix(s: string, i: int)
    requires 0 <= i <= |s|
    ensures Lower(s[i..]) == Lower(s)[i..]
  {
    assert forall j | 0 <= j < |s| - i :: Lower(s[i..])[j] == LowerAscii(s[i + j]) == Lower(s)[i..][j];
  }

  lemma PatternIsSuffix(url: string, k: int)
    requires 0 <= k < |url| && url[k] == '.'
    requires Lower(url[k + 1..]) == "jpeg" || Lower(url[k + 1..]) == "jpg"
    ensures EndsWith(Lower(url), ".jpg") || EndsWith(Lower(url), ".jpeg")
  {
    if Lower(url[k + 1..]) == "jpg" {
      PatternAt(url, k, "jpg");
      assert ['.'] + "jpg" == ".jpg";
    } else {
      PatternAt(url, k, "jpeg");
      assert ['.'] + "jpeg" == ".jpeg";
    }
  }

  /** A dot at `k` followed by `ext` to the end makes the lowered URL end in the dot and `ext`
      lowered. */
  lemma PatternAt(url: string, k: int, ext: string)
    requires 0 <= k < |url| && url[k] == '.' && Lower(url[k + 1..]) == ext
    ensures EndsWith(Lower(url), ['.'] + ext)
  {
    var l := Lower(url);
    assert l[k + 1..] == ext;
    assert l[k..] == [l[k]] + l[k + 1..];
  }

  /** A stored image's public URL shows as an image exactly when the stored name ends in
      ".jpg" or ".jpeg" in either case. */
  lemma ShowsStoredImage(name: string)
    requires IsStoredName(name)
    ensures ShowsImage(PublicUrl(Some(name))) <==> (EndsWith(Lower(name), ".jpg") || EndsWith(Lower(name), ".jpeg"))
  {
    var url := PublicBase + name;
    var l := Lower(url);
    assert l == Lower(PublicBase) + Lower(name);
    assert Lower(PublicBase)[|PublicBase| - 1] == '/';
    SuffixAfterSlash(Lower(PublicBase), Lower(name), ".jpg");
    SuffixAfterSlash(Lower(PublicBase), Lower(name), ".jpeg");
  }

  /** A suffix without '/' of `dir + name`, where `dir` ends in '/', is a suffix of `name`. */
  lemma SuffixAfterSlash(dir: string, name: string, suffix: string)
    requires dir != [] && dir[|dir| - 1] == '/' && '/' !in suffix
    ensures EndsWith(dir + name, suffix) <==> EndsWith(name, suffix)
  {
    var s := dir + name;
    if |name| < |suffix| <= |s| {
      var k := |s| - |suffix|;
      assert s[k..][|dir| - 1 - k] == '/';
      assert s[k..] != suffix;
    }
    if |suffix| <= |name| {
      assert s[|s| - |suffix|..] == name[|name| - |suffix|..];
    }
  }

  const DeleteFailed: string := "Error deleting file."
  const FetchFailed: string := "Error fetching files."
  const EditFailed: string := "Error updating file."

  /** The state a handler replaces through its setter. */
  class PanelState {
    var files: seq<Upload>
    var searchParams: SearchParams
    var searched: bool
    var editingFile: Option<Upload>
    var errorMessage: Option<string>

    constructor ()
      ensures files == [] && searchParams == EmptyParams && !searched
      ensures editingFile == None && errorMessage == None
    {
      files := [];
      searchParams := EmptyParams;
      searched := false;
      editingFile := None;
      errorMessage := None;
    }

    /** `handleDelete` once the request has settled: on success the entries with that file
        number leave the list; on a failed request only the error message changes. */
    method HandleDelete(fileNumber: string, requestSucceeded: bool)
      modifies this
      ensures requestSucceeded ==> files == RemainingAfterDelete(old(files), fileNumber) && errorMessage == old(errorMessage)
      ensures !requestSucceeded ==> files == old(files) && errorMessage == Some(DeleteFailed)
      ensures searchParams == old(searchParams) && searched == old(searched) && editingFile == old(editingFile)
    {
      if requestSucceeded {
        files := Where(files, FileNumberIsNot(fileNumber));
      } else {
        errorMessage := Some(DeleteFailed);
      }
    }

    /** `handleSearch`: the filter it sends, then the list it shows once the request settles
        (`None` for a failed request); either way the page is marked as searched. */
    method HandleSearch(response: Option<seq<Upload>>) returns (sent: SearchFilter)
      modifies this
      ensures sent == SearchFilterOf(searchParams)
      ensures response.Some? ==> files == response.value && errorMessage == old(errorMessage)
      ensures response.None? ==> files == old(files) && errorMessage == Some(FetchFailed)
      ensures searched && searchParams == old(searchParams) && editingFile == old(editingFile)
    {
      var front_depth := if searchParams.front != "" && IsTruthy(searchParams.depth)
        then searchParams.front + DimensionSeparator + searchParams.depth.value else "";
      sent := SearchFilter(searchParams.design, front_depth, searchParams.industry.GetOr(""));
      if response.Some? {
        files := response.value;
      } else {
        errorMessage := Some(FetchFailed);
      }
      searched := true;
    }

    /** `handleReset`: the form is emptied and the page is no longer marked as searched. */
    method HandleReset()
      modifies this
      ensures searchParams == EmptyParams && !searched
      ensures files == old(files) && editingFile == old(editingFile) && errorMessage == old(errorMessage)
    {
      searchParams := SearchParams("", "", Some(""), None);
      searched := false;
    }

    /** `handleOpenEdit`: the file becomes the one being edited and the form shows its values. */
    method HandleOpenEdit(file: Upload)
      modifies this
      ensures editingFile == Some(file) && searchParams == OpenEditParams(file)
      ensures files == old(files) && searched == old(searched) && errorMessage == old(errorMessage)
    {
      editingFile := Some(file);
      var parts := Split(file.frontDepth, DimensionSeparator);
      searchParams := SearchParams(file.design, parts[0], if |parts| > 1 then Some(parts[1]) else None, Some(file.industry));
    }

    /** `handleEdit`: the request it sends for `file` with the chosen files, then the state once
        the request settles. Success closes the edit form; failure only sets the error message. */
    method HandleEdit(file: Upload, newFile1: Option<string>, newFile2: Option<string>, requestSucceeded: bool)
      returns (fileNumber: string, req: EditRequest)
      modifies this
      ensures fileNumber == file.fileNumber
      ensures req == EditRequestOf(searchParams, file, newFile1, newFile2)
      ensures requestSucceeded ==> editingFile == None && errorMessage == old(errorMessage)
      ensures !requestSucceeded ==> editingFile == old(editingFile) && errorMessage == Some(EditFailed)
      ensures files == old(files) && searchParams == old(searchParams) && searched == old(searched)
    {
      var design := OrElse(searchParams.design, file.design);
      var front_depth := OrElse(searchParams.front + DimensionSeparator + Render(searchParams.depth), file.frontDepth);
      var industry := OrElse(searchParams.industry.GetOr(""), file.industry);
      fileNumber, req := file.fileNumber, EditRequest(design, front_depth, industry, newFile1, newFile2);
      if requestSucceeded {
        editingFile := None;
      } else {
        errorMessage := Some(EditFailed);
      }
    }
  }
}
