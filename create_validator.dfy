/**
 * CreateMedicalDtoValidator: the common rules plus the rules of a new record.
 * The two reference-table lookups (AnyAsync over statuses and medical_record_types)
 * are membership tests on the sets of ids those tables hold; "today" is the
 * server's local date, a parameter.
 */
module CreateValidator {
  import opened MedicalTypes
  import opened ValidationRules
  import opened BaseValidator

  /** The create-only rules, one conjunct per rule chain. */
  predicate CreateRulesHold(dto: CreateMedicalDto, localToday: Date, statusIds: set<int>, typeIds: set<int>)
  {
    var b := dto.fields;
    && HasText(b.diagnosis)
    && b.startDate.Some? && b.startDate.value <= localToday
    && b.statusId.Some? && b.statusId.value != InactiveStatus && b.statusId.value in statusIds
    && b.medicalRecordTypeId.Some? && b.medicalRecordTypeId.value in typeIds
    && NotBlank(dto.createdBy) && |dto.createdBy| <= 2000
  }

  /** The rule behind each create-only failure is broken (false for the other validators' failures). */
  predicate CreateOnlyRuleBroken(f: Failure, dto: CreateMedicalDto, localToday: Date, statusIds: set<int>, typeIds: set<int>)
  {
    var b := dto.fields;
    || (f.DiagnosisRequired? && !HasText(b.diagnosis))
    || (f.StartDateRequired? && b.startDate.None?)
    || (f.StartDateInFuture? && b.startDate.Some? && b.startDate.value > localToday)
    || (f.StatusIdRequired? && b.statusId.None?)
    || (f.InactiveStatusOnCreate? && b.statusId == Some(InactiveStatus))
    || (f.StatusIdUnknown? && !(b.statusId.Some? && b.statusId.value in statusIds))
    || (f.TypeIdRequired? && b.medicalRecordTypeId.None?)
    || (f.TypeIdUnknown? && !(b.medicalRecordTypeId.Some? && b.medicalRecordTypeId.value in typeIds))
    || (f.CreatedByRequired? && !NotBlank(dto.createdBy))
    || (f.CreatedByTooLong? && |dto.createdBy| > 2000)
  }

  /** Diagnosis: NotEmpty. StartDate: NotEmpty, LessThanOrEqualTo(today), which lets null through. */
  function DiagnosisAndStartDateFailures(b: RecordFields, localToday: Date): (r: seq<Failure>)
    ensures forall f :: f in r <==>
      || (f.DiagnosisRequired? && !HasText(b.diagnosis))
      || (f.StartDateRequired? && b.startDate.None?)
      || (f.StartDateInFuture? && b.startDate.Some? && b.startDate.value > localToday)
  {
    Check(HasText(b.diagnosis), DiagnosisRequired)
    + Check(b.startDate.Some?, StartDateRequired)
    + Check(b.startDate.None? || b.startDate.value <= localToday, StartDateInFuture)
  }

  /**
   * StatusId: NotNull, Must(!= 2), MustAsync(a status row has this id).
   * A null id passes the Must and matches no status row.
   */
  function StatusFailures(statusId: Option<int>, statusIds: set<int>): (r: seq<Failure>)
    ensures forall f :: f in r <==>
      || (f.StatusIdRequired? && statusId.None?)
      || (f.InactiveStatusOnCreate? && statusId == Some(InactiveStatus))
      || (f.StatusIdUnknown? && !(statusId.Some? && statusId.value in statusIds))
  {
    Check(statusId.Some?, StatusIdRequired)
    + Check(statusId != Some(InactiveStatus), InactiveStatusOnCreate)
    + Check(statusId.Some? && statusId.value in statusIds, StatusIdUnknown)
  }

  /**
   * MedicalRecordTypeId: NotNull, MustAsync(a type row has this id).
   * FileId: NotNull on a non-nullable int, whose boxed value is never null.
   * CreatedBy: NotEmpty, MaximumLength(2000).
   */
  function TypeFileAndAuthorFailures(typeId: Option<int>, createdBy: string, typeIds: set<int>): (r: seq<Failure>)
    ensures forall f :: f in r <==>
      || (f.TypeIdRequired? && typeId.None?)
      || (f.TypeIdUnknown? && !(typeId.Some? && typeId.value in typeIds))
      || (f.CreatedByRequired? && !NotBlank(createdBy))
      || (f.CreatedByTooLong? && |createdBy| > 2000)
  {
    Check(typeId.Some?, TypeIdRequired)
    + Check(typeId.Some? && typeId.value in typeIds, TypeIdUnknown)
    + Check(true, FileIdRequired)
    + Check(NotBlank(createdBy), CreatedByRequired)
    + Check(|createdBy| <= 2000, CreatedByTooLong)
  }

  /**
   * All failures of a create request, the common rules first (the base constructor
   * declares them first): a failure is reported exactly when its own rule is broken.
   */
  function CreateFailures(dto: CreateMedicalDto, localToday: Date, statusIds: set<int>, typeIds: set<int>): (r: seq<Failure>)
    ensures forall f :: f in r <==>
      CommonRuleBroken(f, dto.fields) || CreateOnlyRuleBroken(f, dto, localToday, statusIds, typeIds)
    ensures r == [] <==> CommonRulesHold(dto.fields) && CreateRulesHold(dto, localToday, statusIds, typeIds)
  {
    var b := dto.fields;
    var common := CommonFailures(b);
    var own := DiagnosisAndStartDateFailures(b, localToday)
      + StatusFailures(b.statusId, statusIds)
      + TypeFileAndAuthorFailures(b.medicalRecordTypeId, dto.createdBy, typeIds);
    var r := common + own;
    assert forall f :: f in own <==> CreateOnlyRuleBroken(f, dto, localToday, statusIds, typeIds);
    assert forall f :: f in r <==> f in common || f in own;
    assert r == [] <==> CommonRulesHold(b) && CreateRulesHold(dto, localToday, statusIds, typeIds) by {
      if r != [] {
        assert r[0] in r;
      }
      if !CommonRulesHold(b) {
        assert common != [];
        assert common[0] in r;
      }
    }
    r
  }

  /** A request that passes can never ask for the Inactive status, nor for a status or type that does not exist. */
  lemma ValidCreateStatus(dto: CreateMedicalDto, localToday: Date, statusIds: set<int>, typeIds: set<int>)
    requires CreateFailures(dto, localToday, statusIds, typeIds) == []
    ensures dto.fields.statusId.Some? && dto.fields.statusId.value != InactiveStatus
    ensures dto.fields.statusId.value in statusIds
    ensures dto.fields.medicalRecordTypeId.Some? && dto.fields.medicalRecordTypeId.value in typeIds
    ensures dto.fields.startDate.Some? && dto.fields.startDate.value <= localToday
  {
  }

  /** A missing status id is reported twice: as missing, and as matching no status row. */
  lemma MissingStatusReportedTwice(dto: CreateMedicalDto, localToday: Date, statusIds: set<int>, typeIds: set<int>)
    requires dto.fields.statusId.None?
    ensures StatusIdRequired in CreateFailures(dto, localToday, statusIds, typeIds)
    ensures StatusIdUnknown in CreateFailures(dto, localToday, statusIds, typeIds)
    ensures InactiveStatusOnCreate !in CreateFailures(dto, localToday, statusIds, typeIds)
  {
    var r := CreateFailures(dto, localToday, statusIds, typeIds);
    assert CreateOnlyRuleBroken(StatusIdRequired, dto, localToday, statusIds, typeIds);
    assert CreateOnlyRuleBroken(StatusIdUnknown, dto, localToday, statusIds, typeIds);
    assert !CommonRuleBroken(InactiveStatusOnCreate, dto.fields);
    assert !CreateOnlyRuleBroken(InactiveStatusOnCreate, dto, localToday, statusIds, typeIds);
  }

  /** The FileId rule never fails. */
  lemma FileIdNeverFails(dto: CreateMedicalDto, localToday: Date, statusIds: set<int>, typeIds: set<int>)
    ensures FileIdRequired !in CreateFailures(dto, localToday, statusIds, typeIds)
  {
  }
}
