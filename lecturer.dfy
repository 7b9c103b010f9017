/**
 * LecturerDashboard.xaml.cs: the claim form. Its text boxes are fields of the dashboard; the
 * file dialog's selection arrives as `SelectedFile`s whose extension and size stand for
 * `Path.GetExtension` and `FileInfo.Length`; the documents built from the uploaded paths at
 * submission come from an `inspect` function standing for the file system and the clock.
 */
module Lecturer {
  import opened Wrappers
  import opened Text
  import opened Decimals
  import opened Models
  import Database
  import Helpers

  /** A file picked in the upload dialog: its path, its extension (with the dot, as
      `Path.GetExtension` gives it) and its length in bytes. */
  datatype SelectedFile = SelectedFile(path: string, extension: string, size: int)

  /** `maxBytes`: 10 MiB. */
  const MaxBytes: int := 10 * 1024 * 1024

  /** The upload allow-list, compared ignoring case. */
  const AllowedExtensions: seq<string> := [".pdf", ".docx", ".xlsx", ".jpg", ".jpeg", ".png"]

  predicate AllowedExtension(ext: string) {
    exists i :: 0 <= i < |AllowedExtensions| && EqualsIgnoreCase(ext, AllowedExtensions[i])
  }

  /** The filters a file must pass: an allowed type and at most 10 MiB. */
  predicate Acceptable(f: SelectedFile) {
    AllowedExtension(f.extension) && f.size <= MaxBytes
  }

  /** The size limit is inclusive and the type check ignores case. */
  lemma UploadFilterBoundaries(path: string)
    ensures Acceptable(SelectedFile(path, ".PDF", 10485760))
    ensures !Acceptable(SelectedFile(path, ".pdf", 10485761))
    ensures !Acceptable(SelectedFile(path, "", 1))
  {
    assert EqualsIgnoreCase(".PDF", AllowedExtensions[0]);
  }

  /** The uploaded list after one pass of the upload loop over `files`: each acceptable file
      whose path is not listed yet is appended, in selection order; the others are skipped
      and the pass goes on. */
  function AfterUpload(docs: seq<string>, files: seq<SelectedFile>): seq<string> {
    if files == [] then docs
    else
      var before := AfterUpload(docs, files[..|files| - 1]);
      var f := files[|files| - 1];
      if Acceptable(f) && f.path !in before then before + [f.path] else before
  }

  predicate NoDuplicates(s: seq<string>) {
    forall i, j :: 0 <= i < j < |s| ==> s[i] != s[j]
  }

  /** An upload keeps the listed paths as a prefix, adds no duplicate, adds only paths of
      acceptable selected files, and lists the path of every acceptable selected file. */
  lemma {:induction false} UploadProperties(docs: seq<string>, files: seq<SelectedFile>)
    ensures var r := AfterUpload(docs, files);
      docs <= r
      && (NoDuplicates(docs) ==> NoDuplicates(r))
      && (forall k :: |docs| <= k < |r| ==> exists i :: 0 <= i < |files| && Acceptable(files[i]) && files[i].path == r[k])
      && (forall i :: 0 <= i < |files| && Acceptable(files[i]) ==> files[i].path in r)
  {
    if files != [] {
      var init := files[..|files| - 1];
      UploadProperties(docs, init);
      var before := AfterUpload(docs, init);
      var r := AfterUpload(docs, files);
      assert before <= r;
      forall k | |docs| <= k < |r|
        ensures exists i :: 0 <= i < |files| && Acceptable(files[i]) && files[i].path == r[k]
      {
        if k < |before| {
          assert r[k] == before[k];
          assert exists i :: 0 <= i < |init| && Acceptable(init[i]) && init[i].path == before[k];
          var i :| 0 <= i < |init| && Acceptable(init[i]) && init[i].path == before[k];
          assert files[i] == init[i];
        } else {
          assert files[|files| - 1].path == r[k];
        }
      }
      forall i | 0 <= i < |files| && Acceptable(files[i]) ensures files[i].path in r {
        if i < |init| {
          assert init[i] == files[i];
        }
      }
    }
  }

  /** Hours times rate, when both boxes parse. */
  function Product(hours: Option<real>, rate: Option<real>): (amount: Option<real>)
    ensures amount.Some? <==> hours.Some? && rate.Some?
  {
    if hours.Some? && rate.Some? then Some(hours.value * rate.value) else None
  }

  /** What the amount box shows for a computed amount: the amount to two decimals, or "0.00"
      when there is none. */
  function Shown(amount: Option<real>): string {
    if amount.Some? then FormatF2(amount.value) else "0.00"
  }

  /** `CalculateAmount`: hours times rate to two decimals when both boxes parse, else "0.00". */
  function AmountText(hoursText: string, rateText: string): string {
    Shown(Product(ParseDecimal(hoursText), ParseDecimal(rateText)))
  }

  /** The shown amount reads back as the amount rounded to cents, and "0.00" as zero. */
  lemma ShownReadsBack(amount: Option<real>)
    ensures ParseDecimal(Shown(amount)) == Some(if amount.Some? then Cents(amount.value) as real / 100.0 else 0.0)
  {
    if amount.Some? {
      FormatF2ParsesBack(amount.value);
    } else {
      assert ParseDecimal("0.00") == Some(0.0);
    }
  }

  /** The amount box reads back as hours times rate rounded to cents, or as 0 when either box
      does not hold a number. */
  lemma AmountTextReadsBack(hoursText: string, rateText: string)
    ensures var amount := Product(ParseDecimal(hoursText), ParseDecimal(rateText));
      ParseDecimal(AmountText(hoursText, rateText)) ==
        Some(if amount.Some? then Cents(amount.value) as real / 100.0 else 0.0)
  {
    ShownReadsBack(Product(ParseDecimal(hoursText), ParseDecimal(rateText)));
  }

  /** The outcome of `ValidateClaimForm`: accepted, or the first check that failed. */
  datatype FormCheck = FormAccepted | InvalidAmount | DescriptionRequired

  /** `ValidateClaimForm`: the amount must parse as a positive number, then the description
      must not be blank. */
  function ValidateClaimForm(amountText: string, description: string): (r: FormCheck)
    ensures r == FormAccepted <==>
      ParseDecimal(amountText).Some? && ParseDecimal(amountText).value > 0.0 && !IsBlank(description)
    ensures r == InvalidAmount <==> ParseDecimal(amountText).None? || ParseDecimal(amountText).value <= 0.0
    ensures r == DescriptionRequired ==> IsBlank(description)
  {
    match ParseDecimal(amountText)
    case Some(amount) =>
      if amount <= 0.0 then InvalidAmount
      else if IsBlank(description) then DescriptionRequired
      else FormAccepted
    case None => InvalidAmount
  }

  /** The amount the form computes passes the amount check exactly when hours times rate
      rounds to at least one cent: a form filled by `CalculateAmount` is accepted iff that
      holds and the description is not blank. */
  lemma ComputedAmountValidates(hoursText: string, rateText: string, description: string)
    ensures var a := AmountText(hoursText, rateText);
      ValidateClaimForm(a, description) == FormAccepted <==>
        var amount := Product(ParseDecimal(hoursText), ParseDecimal(rateText));
        amount.Some? && Cents(amount.value) > 0 && !IsBlank(description)
  {
    AmountTextReadsBack(hoursText, rateText);
  }

  /** The largest element of a non-empty sequence. */
  function Max(s: seq<int>): (m: int)
    requires s != []
    ensures forall i :: 0 <= i < |s| ==> s[i] <= m
    ensures exists i :: 0 <= i < |s| && s[i] == m
  {
    if |s| == 1 then s[0]
    else
      var m := Max(s[..|s| - 1]);
      assert forall i :: 0 <= i < |s| - 1 ==> s[..|s| - 1][i] == s[i];
      if s[|s| - 1] > m then s[|s| - 1] else m
  }

  function Ids(claims: seq<Claim>): (ids: seq<int>)
    ensures |ids| == |claims| && forall i :: 0 <= i < |claims| ==> ids[i] == claims[i].id
  {
    seq(|claims|, i requires 0 <= i < |claims| => claims[i].id)
  }

  /** `GenerateClaimId`: 1001 for no claims, otherwise the largest id plus one, so it is
      above every id in the list. */
  function GenerateClaimId(claims: seq<Claim>): (id: int)
    ensures claims == [] ==> id == 1001
    ensures forall i :: 0 <= i < |claims| ==> claims[i].id < id
    ensures claims != [] ==> exists i :: 0 <= i < |claims| && id == claims[i].id + 1
  {
    if claims == [] then 1001 else Max(Ids(claims)) + 1
  }

  /** Newest first: ids strictly fall along the list. */
  predicate IdsDescending(claims: seq<Claim>) {
    forall i, j :: 0 <= i < j < |claims| ==> claims[i].id > claims[j].id
  }

  /** Putting a claim with a generated id in front keeps the list newest first, so ids stay
      distinct. */
  lemma FrontInsertKeepsOrder(claims: seq<Claim>, c: Claim)
    requires IdsDescending(claims) && c.id == GenerateClaimId(claims)
    ensures IdsDescending([c] + claims)
  {
    var r := [c] + claims;
    forall i, j | 0 <= i < j < |r| ensures r[i].id > r[j].id {
      if i > 0 { assert r[i] == claims[i - 1] && r[j] == claims[j - 1]; } else { assert r[j] == claims[j - 1]; }
    }
  }

  /** `int.ToString()`. */
  function IntText(n: int): string {
    if n < 0 then "-" + NatDigits(-n) else NatDigits(n)
  }

  /** The lecturer's dashboard: the signed-in lecturer, the claims shown, the uploaded paths
      and the form's text boxes. */
  class LecturerDashboard {
    var email: Option<string>
    /** Holds what the caller passed as the role; the login window passes the full name. */
    var role: Option<string>
    var claims: seq<Claim>
    var uploadedDocuments: seq<string>
    var amountText: string
    var descriptionText: string
    var hoursText: string
    var rateText: string

    /** `LecturerDashboard(email, role)`: no claims, nothing uploaded, an empty form. */
    constructor (email: Option<string>, role: Option<string>)
      ensures this.email == email && this.role == role
      ensures claims == [] && uploadedDocuments == []
      ensures amountText == "" && descriptionText == "" && hoursText == "" && rateText == ""
    {
      this.email := email;
      this.role := role;
      claims := [];
      uploadedDocuments := [];
      amountText, descriptionText, hoursText, rateText := "", "", "", "";
    }

    /** The body of `UploadDocument_Click` once the dialog returns true; `added` is the count
        it reports. */
    method UploadDocuments(files: seq<SelectedFile>) returns (added: nat)
      modifies this`uploadedDocuments
      ensures uploadedDocuments == AfterUpload(old(uploadedDocuments), files)
      ensures added == |uploadedDocuments| - |old(uploadedDocuments)|
    {
      added := 0;
      var i := 0;
      while i < |files|
        invariant 0 <= i <= |files|
        invariant uploadedDocuments == AfterUpload(old(uploadedDocuments), files[..i])
        invariant |old(uploadedDocuments)| <= |uploadedDocuments|
        invariant added == |uploadedDocuments| - |old(uploadedDocuments)|
      {
        var f := files[i];
        assert files[..i + 1][..i] == files[..i];
        if !AllowedExtension(f.extension) {
          i := i + 1;
          continue;
        }
        if f.size > MaxBytes {
          i := i + 1;
          continue;
        }
        if f.path !in uploadedDocuments {
          uploadedDocuments := uploadedDocuments + [f.path];
          added := added + 1;
        }
        i := i + 1;
      }
      assert files[..|files|] == files;
    }

    /** `CalculateAmount`, run when the hours or the rate box changes. */
    method CalculateAmount()
      modifies this`amountText
      ensures amountText == AmountText(hoursText, rateText)
    {
      var hours := ParseDecimal(hoursText);
      var rate := ParseDecimal(rateText);
      var amount := Product(hours, rate);
      if amount.Some? {
        amountText := FormatF2(amount.value);
      } else {
        amountText := "0.00";
      }
    }

    /** The claim `SubmitClaim_Click` builds from the form: the next id, the lecturer, the
        parsed numbers (0 where a box does not parse), status `Submitted`, and one document
        per uploaded path. */
    function NewClaim(now: string, inspect: string -> Document): Claim
      reads this
    {
      Claim(GenerateClaimId(claims), email, role, email, ParseDecimal(amountText).GetOr(0.0), now, Submitted,
            Some(descriptionText), ParseDecimal(hoursText).GetOr(0.0), ParseDecimal(rateText).GetOr(0.0),
            seq(|uploadedDocuments|, i requires 0 <= i < |uploadedDocuments| reads this => inspect(uploadedDocuments[i])))
    }

    /** The form after `ClearClaimForm`: every box empty except the amount box, which shows
        "0.00" when clearing the hours or the rate box fired `CalculateAmount`. */
    predicate FormCleared()
      reads this
    {
      (amountText == "" || amountText == "0.00")
      && descriptionText == "" && hoursText == "" && rateText == "" && uploadedDocuments == []
    }

    /** `ClearClaimForm`: empties the boxes and the uploaded list, in the source's order; the
        claims stay. Clearing a non-empty hours or rate box is a text change, so
        `CalculateAmount` runs and writes "0.00" into the amount box cleared before. */
    method ClearClaimForm()
      modifies this`amountText, this`descriptionText, this`hoursText, this`rateText, this`uploadedDocuments
      ensures FormCleared()
      ensures amountText == if old(hoursText) != "" || old(rateText) != "" then "0.00" else ""
    {
      amountText := "";
      descriptionText := "";
      uploadedDocuments := [];
      if hoursText != "" {
        hoursText := "";
        CalculateAmount();
      }
      if rateText != "" {
        rateText := "";
        CalculateAmount();
      }
    }

    /** `SubmitClaim_Click`: when the form validates, the new claim goes in front of the list,
        into the store and into the audit log, and the form is cleared; otherwise nothing
        changes. `now` is the clock, `logTime` its log format, `decimalText` is
        `decimal.ToString()`, and `appendFails` says whether writing the log fails. */
    method SubmitClaim(db: Database.DatabaseManager, log: Helpers.AuditLogger, session: Helpers.UserSession,
                       now: string, logTime: string, inspect: string -> Document, decimalText: real -> string, appendFails: bool)
      returns (submitted: bool)
      requires db.Valid()
      modifies this`claims, this`amountText, this`descriptionText, this`hoursText, this`rateText, this`uploadedDocuments
      modifies db`claims, db`nextClaimId, log
      ensures db.Valid()
      ensures submitted == (ValidateClaimForm(old(amountText), old(descriptionText)) == FormAccepted)
      ensures !submitted ==> unchanged(this, db, log)
      ensures submitted ==>
        var c := old(NewClaim(now, inspect));
        claims == [c] + old(claims) && FormCleared()
        && amountText == (if old(hoursText) != "" || old(rateText) != "" then "0.00" else "")
        && db.claims == old(db.claims) + [Database.ClaimRowOf(old(db.nextClaimId), c)]
        && db.nextClaimId == old(db.nextClaimId) + 1
        && (session.IsAuthenticated() && !appendFails ==>
              log.lines == old(log.lines) + [Helpers.AuditLine(logTime, session.currentUser.value, "SubmitClaim",
                                             "ClaimId=" + IntText(c.id) + ", Amount=" + decimalText(c.amount))])
        && (!session.IsAuthenticated() || appendFails ==> log.lines == old(log.lines))
    {
      if ValidateClaimForm(amountText, descriptionText) != FormAccepted {
        return false;
      }
      var c := NewClaim(now, inspect);
      claims := [c] + claims;
      db.SaveClaim(c);
      log.LogAction(session, "SubmitClaim", "ClaimId=" + IntText(c.id) + ", Amount=" + decimalText(c.amount), logTime, appendFails);
      ClearClaimForm();
      return true;
    }
  }

  /** A cleared form, or a freshly opened one, fails validation on the amount, whether its
      amount box is empty or shows "0.00". */
  lemma ClearedFormIsRejected(amountText: string, description: string)
    requires amountText == "" || amountText == "0.00"
    ensures ValidateClaimForm(amountText, description) == InvalidAmount
  {
    BlankIsNotANumber("");
    ShownReadsBack(None);
  }
}
