/**
 * What the validators share: the built-in FluentValidation checks they use
 * (NotEmpty, MaximumLength, the YES/NO flag test), the failures they report,
 * and how a list of failures becomes the response's exception text.
 */
module ValidationRules {
  import opened MedicalTypes

  /** char.IsWhiteSpace: the Unicode space separators, line and paragraph separators, and U+0009..U+000D, U+0085. */
  predicate IsWhiteSpace(c: char)
  {
    || c == ' ' || ('\t' <= c <= '\r') || c == '\U{85}' || c == '\U{A0}' || c == '\U{1680}'
    || ('\U{2000}' <= c <= '\U{200A}') || c == '\U{2028}' || c == '\U{2029}'
    || c == '\U{202F}' || c == '\U{205F}' || c == '\U{3000}'
  }

  /** NotEmpty on a non-nullable string: not empty and not whitespace only. */
  predicate NotBlank(s: string)
  {
    exists i :: 0 <= i < |s| && !IsWhiteSpace(s[i])
  }

  /** NotEmpty on a nullable string: present, and not empty or whitespace only. */
  predicate HasText(s: Option<string>)
  {
    s.Some? && NotBlank(s.value)
  }

  /** MaximumLength(max): a null string passes. */
  predicate WithinLength(s: Option<string>, max: nat)
  {
    s.None? || |s.value| <= max
  }

  /** The flag rule of the common validator: null, "YES" or "NO". */
  predicate IsYesNo(s: Option<string>)
  {
    s.None? || s.value == "YES" || s.value == "NO"
  }

  /** The seven YES/NO flag fields of the shared payload. */
  datatype Flag = Audiometry | PositionChange | ExecuteMicros | ExecuteExtra | VoiceEvaluation | Disability | AreaChange
  {
    function ValueIn(b: RecordFields): Option<string>
    {
      match this
      case Audiometry => b.audiometry
      case PositionChange => b.positionChange
      case ExecuteMicros => b.executeMicros
      case ExecuteExtra => b.executeExtra
      case VoiceEvaluation => b.voiceEvaluation
      case Disability => b.disability
      case AreaChange => b.areaChange
    }

    function PropertyName(): string
    {
      match this
      case Audiometry => "Audiometry"
      case PositionChange => "PositionChange"
      case ExecuteMicros => "ExecuteMicros"
      case ExecuteExtra => "ExecuteExtra"
      case VoiceEvaluation => "VoiceEvaluation"
      case Disability => "Disability"
      case AreaChange => "AreaChange"
    }

    function Label(): string
    {
      match this
      case Audiometry => "Audiometry"
      case PositionChange => "Position Change"
      case ExecuteMicros => "Execute Micros"
      case ExecuteExtra => "Execute Extra"
      case VoiceEvaluation => "Voice Evaluation"
      case Disability => "Disability"
      case AreaChange => "Area Change"
    }
  }

  /** One validation failure: one constructor per rule (and message) of the four validators. */
  datatype Failure =
    // common rules
    | DiagnosisTooLong | MotherDataTooLong | FatherDataTooLong | OtherFamilyDataTooLong | MedicalBoardTooLong
    | ObservationsTooLong | ObservationsRequired
    | FlagNotYesNo(flag: Flag)
    | DisabilityPercentageOutOfRange
    // create rules
    | DiagnosisRequired | StartDateRequired | StartDateInFuture
    | StatusIdRequired | InactiveStatusOnCreate | StatusIdUnknown
    | TypeIdRequired | TypeIdUnknown | FileIdRequired
    | CreatedByRequired | CreatedByTooLong
    // update rules
    | IdRequired | EndDateNotAfterStartDate
    | DeletionReasonRequiredForInactive | DeletionReasonTooLong
    | EndDateRequiredForInactive | ModifiedByRequiredForInactive
    | InactiveRecordLocked | EndDateRequiresInactive
    // delete rules
    | DeletionReasonRequired | DeletedByRequired | DeletedByTooLong
  {
    function PropertyName(): string
    {
      match this
      case DiagnosisTooLong => "Diagnosis"
      case MotherDataTooLong => "MotherData"
      case FatherDataTooLong => "FatherData"
      case OtherFamilyDataTooLong => "OtherFamilyData"
      case MedicalBoardTooLong => "MedicalBoard"
      case ObservationsTooLong => "Observations"
      case ObservationsRequired => "Observations"
      case FlagNotYesNo(f) => f.PropertyName()
      case DisabilityPercentageOutOfRange => "DisabilityPercentage"
      case DiagnosisRequired => "Diagnosis"
      case StartDateRequired => "StartDate"
      case StartDateInFuture => "StartDate"
      case StatusIdRequired => "StatusId"
      case InactiveStatusOnCreate => "StatusId"
      case StatusIdUnknown => "StatusId"
      case TypeIdRequired => "MedicalRecordTypeId"
      case TypeIdUnknown => "MedicalRecordTypeId"
      case FileIdRequired => "FileId"
      case CreatedByRequired => "CreatedBy"
      case CreatedByTooLong => "CreatedBy"
      case IdRequired => "Id"
      case EndDateNotAfterStartDate => "EndDate"
      case DeletionReasonRequiredForInactive => "DeletionReason"
      case DeletionReasonTooLong => "DeletionReason"
      case EndDateRequiredForInactive => "EndDate"
      case ModifiedByRequiredForInactive => "ModifiedBy"
      case InactiveRecordLocked => "StatusId"
      case EndDateRequiresInactive => "StatusId"
      case DeletionReasonRequired => "DeletionReason"
      case DeletedByRequired => "DeletedBy"
      case DeletedByTooLong => "DeletedBy"
    }

    function ErrorMessage(): string
    {
      match this
      case DiagnosisTooLong => "Diagnosis cannot exceed 100 characters"
      case MotherDataTooLong => "Mother Data cannot exceed 2000 characters"
      case FatherDataTooLong => "Father Data cannot exceed 2000 characters"
      case OtherFamilyDataTooLong => "Other Family Data cannot exceed 2000 characters"
      case MedicalBoardTooLong => "Medical Board cannot exceed 200 characters"
      case ObservationsTooLong => "Observations cannot exceed 2000 characters"
      case ObservationsRequired => "Observations are required when Position Change is YES"
      case FlagNotYesNo(f) => f.Label() + " must be 'YES' or 'NO'"
      case DisabilityPercentageOutOfRange => "Disability Percentage must be between 0 and 100 when Disability is 'YES'"
      case DiagnosisRequired => "Diagnosis is required"
      case StartDateRequired => "Start Date is required"
      case StartDateInFuture => "Start Date cannot be in the future"
      case StatusIdRequired => "Status ID is required"
      case InactiveStatusOnCreate => "Cannot create record with Inactive status"
      case StatusIdUnknown => "Invalid Status ID"
      case TypeIdRequired => "Medical Record Type ID is required"
      case TypeIdUnknown => "Invalid Medical Record Type ID"
      case FileIdRequired => "File ID is required"
      case CreatedByRequired => "Created By is required"
      case CreatedByTooLong => "Created By cannot exceed 2000 characters"
      case IdRequired => "Id is required"
      case EndDateNotAfterStartDate => "End Date must be after Start Date"
      case DeletionReasonRequiredForInactive => "Deletion Reason is required for Inactive status"
      case DeletionReasonTooLong => "Deletion Reason cannot exceed 2000 characters"
      case EndDateRequiredForInactive => "End Date is required for Inactive status"
      case ModifiedByRequiredForInactive => "Modified By is required for status change"
      case InactiveRecordLocked => "Cannot modify an Inactive record"
      case EndDateRequiresInactive => "Record with End Date must be set to Inactive status"
      case DeletionReasonRequired => "Deletion Reason is required"
      case DeletedByRequired => "Deleted By is required"
      case DeletedByTooLong => "Deleted By cannot exceed 2000 characters"
    }
  }

  /** One validator of a rule chain: no failure when the check holds, else its failure. */
  function Check(holds: bool, failure: Failure): (r: seq<Failure>)
  {
    if holds then [] else [failure]
  }

  /** The failures' messages, in order (Errors.Select(e => e.ErrorMessage)). */
  function Messages(failures: seq<Failure>): (r: seq<string>)
    ensures |r| == |failures|
    ensures forall i :: 0 <= i < |failures| ==> r[i] == failures[i].ErrorMessage()
  {
    if failures == [] then [] else [failures[0].ErrorMessage()] + Messages(failures[1..])
  }

  /** string.Join(separator, parts). */
  function Join(separator: string, parts: seq<string>): string
  {
    if |parts| == 0 then ""
    else if |parts| == 1 then parts[0]
    else parts[0] + separator + Join(separator, parts[1..])
  }

  /** The exception text of a failed validation: the messages joined by ", ". */
  function ExceptionText(failures: seq<Failure>): string
  {
    Join(", ", Messages(failures))
  }

  /** Joining keeps every part in the text: each message is a substring of the exception text. */
  lemma {:induction false} JoinContainsParts(separator: string, parts: seq<string>, k: nat)
    requires k < |parts|
    ensures exists pre, post :: Join(separator, parts) == pre + parts[k] + post
  {
    if |parts| == 1 {
      assert Join(separator, parts) == [] + parts[0] + [];
    } else if k == 0 {
      assert Join(separator, parts) == [] + parts[0] + (separator + Join(separator, parts[1..]));
    } else {
      JoinContainsParts(separator, parts[1..], k - 1);
      var pre, post :| Join(separator, parts[1..]) == pre + parts[1..][k - 1] + post;
      assert Join(separator, parts) == (parts[0] + separator + pre) + parts[k] + post;
    }
  }

  /** The exception text of a failed validation names every failure's message. */
  lemma ExceptionTextNamesEveryFailure(failures: seq<Failure>, k: nat)
    requires k < |failures|
    ensures exists pre, post :: ExceptionText(failures) == pre + failures[k].ErrorMessage() + post
  {
    JoinContainsParts(", ", Messages(failures), k);
  }
}
