/**
 * The records the core passes between its parts: the lecturer's `Claim` with its `Document`s
 * and `ClaimStatus`, the session's `Models.User`, and the `Users` record `AuthenticateUser`
 * returns. Fields the source declares as nullable reference types and can actually see as
 * `null` are `Option`s; `decimal` fields are `real`s; `DateTime` values are the text the
 * store writes for them.
 */
module Models {
  import opened Wrappers

  /** `ClaimStatus`. Only `Submitted` is ever assigned by the modelled code. */
  datatype ClaimStatus = Draft | Submitted | UnderReview | Approved | Rejected | Paid

  /** `ClaimStatus.ToString()`: the member's own name. */
  function StatusName(s: ClaimStatus): string {
    match s
    case Draft => "Draft"
    case Submitted => "Submitted"
    case UnderReview => "UnderReview"
    case Approved => "Approved"
    case Rejected => "Rejected"
    case Paid => "Paid"
  }

  /** An attached supporting document, as built from a file path when a claim is submitted. */
  datatype Document = Document(id: string, fileName: string, fileType: string, fileSizeBytes: int, uploadDate: string)

  /** A lecturer's claim. */
  datatype Claim = Claim(
    id: int,
    lecturerId: Option<string>,
    lecturerName: Option<string>,
    lecturerEmail: Option<string>,
    amount: real,
    submissionDate: string,
    status: ClaimStatus,
    description: Option<string>,
    hoursWorked: real,
    hourlyRate: real,
    documents: seq<Document>)
  {
    /** `DocumentCount`: the number of attached documents. */
    function DocumentCount(): nat { |documents| }
  }

  /** `Models.User`, the type of `UserSession.CurrentUser`: four nullable strings. */
  datatype SessionUser = SessionUser(id: Option<string>, email: Option<string>, fullName: Option<string>, role: Option<string>)

  /** `Models.Users`, the record `AuthenticateUser` fills in (its `CreatedDate` and
      `LastLoginDate` are left at their defaults there and are not carried). */
  datatype Users = Users(userId: int, email: string, fullName: string, role: string, isActive: bool)
}
