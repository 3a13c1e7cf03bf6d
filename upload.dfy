/** The upload page: the password gate, the expiry time and metadata string
    written for each file, the shared link, and the loop that uploads the
    selected files one by one. The store's upload call is an input: for each
    file, what it answered. */
module Upload {
  import opened Seqs
  import opened Text
  import opened Quoting
  import Access

  /** The expiry slider: whole hours from 1 to 48, starting at 6. */
  type Hours = h: int | 1 <= h <= 48 witness 6

  /** The upload controls appear only once the password has a visible character. */
  predicate UploadEnabled(password: string)
  {
    Strip(password) != []
  }

  lemma UploadEnabledIff(password: string)
    ensures UploadEnabled(password) <==> !AllSpace(password)
  {
    StripEmptyIff(password);
  }

  /** `int(time.time() + expiry_hours * 3600)`, with the clock already in whole seconds. */
  function ExpiresAt(now: int, hours: Hours): (t: int)
    ensures 3600 <= t - now <= 172800
    ensures (t - now) % 3600 == 0 && (t - now) / 3600 == hours
  {
    now + hours * 3600
  }

  /** The metadata string sent with each file; the password is the one typed,
      not the stripped one. */
  function ContextString(password: string, expiresAt: int): (ctx: string)
  {
    "password=" + password + "|expires_at=" + IntToDecimal(expiresAt)
  }

  /** The address of the deployed page. */
  const BaseUrl: seq<byte> := Ascii("https://secured-file-share.streamlit.app/")

  lemma BaseUrlHasNoQuery()
    ensures Question !in BaseUrl
  {
    var s := "https://secured-file-share.streamlit.app/";
    assert forall k :: 0 <= k < |s| ==> s[k] != '?';
  }

  /** The link shared for an uploaded file. */
  function AccessLink(publicId: seq<byte>): (url: seq<byte>)
  {
    Link(BaseUrl, publicId)
  }

  /** The shared link takes whoever follows it to the access page of exactly
      the uploaded file. */
  lemma AccessLinkOpensFile(publicId: seq<byte>)
    requires publicId != []
    ensures Param(AccessLink(publicId), FileKey) == Some(publicId)
    ensures Access.RequestedFile(AccessLink(publicId)) == Some(publicId)
  {
    BaseUrlHasNoQuery();
    LinkRoundTrip(BaseUrl, publicId);
  }

  /** What the store's upload call did for one file. */
  datatype StoreOutcome = Stored(publicId: seq<byte>) | Raised(message: string)

  /** What the page reports for one file. */
  datatype Report =
    | Uploaded(publicId: seq<byte>, link: seq<byte>, expiresAt: int)
    | UploadFailed(message: string)

  /** One pass of the loop: the metadata sent and the report shown. */
  datatype FileResult = FileResult(context: string, report: Report)

  /** The result for a single file, given the store's answer and the clock
      reading taken for that file. */
  function FileReport(password: string, hours: Hours, outcome: StoreOutcome, now: int): (r: FileResult)
    ensures r.report.Uploaded? <==> outcome.Stored?
  {
    var expiresAt := ExpiresAt(now, hours);
    FileResult(
      ContextString(password, expiresAt),
      match outcome
      case Stored(id) => Uploaded(id, AccessLink(id), expiresAt)
      case Raised(msg) => UploadFailed(msg))
  }

  /** The results of the whole batch, in file order. */
  function BatchReports(password: string, hours: Hours, outcomes: seq<StoreOutcome>, clock: seq<int>): (rs: seq<FileResult>)
    requires |clock| == |outcomes|
    ensures |rs| == |outcomes|
    decreases |outcomes|
  {
    if outcomes == [] then []
    else
      var n := |outcomes| - 1;
      BatchReports(password, hours, outcomes[..n], clock[..n]) + [FileReport(password, hours, outcomes[n], clock[n])]
  }

  /** The result at position `i` depends only on
      file `i`'s own store answer and clock reading. */
  lemma {:induction false} BatchAt(password: string, hours: Hours, outcomes: seq<StoreOutcome>, clock: seq<int>)
    requires |clock| == |outcomes|
    ensures forall i :: 0 <= i < |outcomes| ==>
              BatchReports(password, hours, outcomes, clock)[i] == FileReport(password, hours, outcomes[i], clock[i])
  {
    if outcomes != [] {
      var n := |outcomes| - 1;
      var prefix := BatchReports(password, hours, outcomes[..n], clock[..n]);
      var all := BatchReports(password, hours, outcomes, clock);
      assert all == prefix + [FileReport(password, hours, outcomes[n], clock[n])];
      BatchAt(password, hours, outcomes[..n], clock[..n]);
      forall i | 0 <= i < |outcomes|
        ensures all[i] == FileReport(password, hours, outcomes[i], clock[i])
      {
        if i < n {
          assert all[i] == prefix[i];
          assert outcomes[..n][i] == outcomes[i] && clock[..n][i] == clock[i];
        }
      }
    }
  }

  /** A failure of one file leaves every other file's result as it was. */
  lemma FailureIsolated(password: string, hours: Hours, outcomes: seq<StoreOutcome>, clock: seq<int>, j: nat, msg: string)
    requires |clock| == |outcomes| && j < |outcomes|
    ensures forall i :: 0 <= i < |outcomes| && i != j ==>
              BatchReports(password, hours, outcomes[j := Raised(msg)], clock)[i] ==
              BatchReports(password, hours, outcomes, clock)[i]
    ensures BatchReports(password, hours, outcomes[j := Raised(msg)], clock)[j].report == UploadFailed(msg)
  {
    BatchAt(password, hours, outcomes, clock);
    BatchAt(password, hours, outcomes[j := Raised(msg)], clock);
  }

  /** The loop over the selected files: each upload is tried on its own, and a
      failure is reported for that file while the loop goes on. */
  method UploadBatch(password: string, hours: Hours, outcomes: seq<StoreOutcome>, clock: seq<int>)
    returns (results: seq<FileResult>)
    requires |clock| == |outcomes|
    ensures results == BatchReports(password, hours, outcomes, clock)
    ensures |results| == |outcomes|
    ensures forall i :: 0 <= i < |outcomes| ==> results[i] == FileReport(password, hours, outcomes[i], clock[i])
  {
    results := [];
    var i := 0;
    while i < |outcomes|
      invariant 0 <= i <= |outcomes|
      invariant results == BatchReports(password, hours, outcomes[..i], clock[..i])
    {
      var expiresAt := ExpiresAt(clock[i], hours);
      var context := ContextString(password, expiresAt);
      var report;
      match outcomes[i] {
        case Stored(id) =>
          report := Uploaded(id, AccessLink(id), expiresAt);
        case Raised(msg) =>
          report := UploadFailed(msg);
      }
      results := results + [FileResult(context, report)];
      assert outcomes[..i + 1][..i] == outcomes[..i];
      assert clock[..i + 1][..i] == clock[..i];
      i := i + 1;
    }
    assert outcomes[..i] == outcomes && clock[..i] == clock;
    BatchAt(password, hours, outcomes, clock);
  }

  /** What the upload section shows. */
  datatype UploadView =
    | PasswordRequired                   // no visible password yet
    | NoFilesSelected                    // password set, nothing chosen
    | BatchDone(results: seq<FileResult>)

  /** The upload section: the password gate, then the file check, then the loop. */
  method UploadPage(password: string, hours: Hours, outcomes: seq<StoreOutcome>, clock: seq<int>)
    returns (view: UploadView)
    requires |clock| == |outcomes|
    ensures view == PasswordRequired <==> !UploadEnabled(password)
    ensures view == NoFilesSelected <==> UploadEnabled(password) && outcomes == []
    ensures view.BatchDone? ==> view.results == BatchReports(password, hours, outcomes, clock)
  {
    if Strip(password) != [] {
      if |outcomes| > 0 {
        var results := UploadBatch(password, hours, outcomes, clock);
        view := BatchDone(results);
      } else {
        view := NoFilesSelected;
      }
    } else {
      view := PasswordRequired;
    }
  }

  /** Every successful upload reports a link to its own file and an expiry
      between one and 48 hours after that file's clock reading. */
  lemma UploadedReport(password: string, hours: Hours, outcomes: seq<StoreOutcome>, clock: seq<int>, i: nat)
    requires |clock| == |outcomes| && i < |outcomes| && outcomes[i].Stored?
    ensures var r := BatchReports(password, hours, outcomes, clock)[i].report;
      r.Uploaded? && r.publicId == outcomes[i].publicId &&
      Param(r.link, FileKey) == Some(outcomes[i].publicId) &&
      3600 <= r.expiresAt - clock[i] <= 172800
  {
    BatchAt(password, hours, outcomes, clock);
    BaseUrlHasNoQuery();
    LinkRoundTrip(BaseUrl, outcomes[i].publicId);
  }
}
