/**
 * UpdateMedicalDtoValidator: the common rules plus the rules of an update,
 * one of which reads the stored row with the request's id (its status only).
 * The stored table is a parameter: a map from medical_record_id to the row.
 */
module UpdateValidator {
  import opened MedicalTypes
  import opened ValidationRules
  import opened BaseValidator

  /** The stored row with this id exists and is Inactive (existingRecord?.status_id == 2). */
  predicate StoredAsInactive(records: map<int, MedicalRecord>, id: int)
  {
    id in records && records[id].IsInactive()
  }

  /** The update-only rules, one conjunct per rule. */
  predicate UpdateRulesHold(dto: UpdateMedicalDto, records: map<int, MedicalRecord>)
  {
    var b := dto.fields;
    && dto.id != 0
    && (b.startDate.Some? && b.endDate.Some? ==> b.endDate.value > b.startDate.value)
    && (b.statusId == Some(InactiveStatus) ==>
          HasText(dto.deletionReason) && WithinLength(dto.deletionReason, 2000)
          && b.endDate.Some? && HasText(dto.modifiedBy))
    && !StoredAsInactive(records, dto.id)
    && (b.endDate.Some? ==> b.statusId == Some(InactiveStatus))
  }

  /** The rule behind each update-only failure is broken (false for the other validators' failures). */
  predicate UpdateOnlyRuleBroken(f: Failure, dto: UpdateMedicalDto, records: map<int, MedicalRecord>)
  {
    var b := dto.fields;
    var toInactive := b.statusId == Some(InactiveStatus);
    || (f.IdRequired? && dto.id == 0)
    || (f.EndDateNotAfterStartDate? && b.startDate.Some? && b.endDate.Some? && b.endDate.value <= b.startDate.value)
    || (f.DeletionReasonRequiredForInactive? && toInactive && !HasText(dto.deletionReason))
    || (f.DeletionReasonTooLong? && toInactive && !WithinLength(dto.deletionReason, 2000))
    || (f.EndDateRequiredForInactive? && toInactive && b.endDate.None?)
    || (f.ModifiedByRequiredForInactive? && toInactive && !HasText(dto.modifiedBy))
    || (f.InactiveRecordLocked? && StoredAsInactive(records, dto.id))
    || (f.EndDateRequiresInactive? && b.endDate.Some? && !toInactive)
  }

  /**
   * Id: NotEmpty on an int (fails only for 0).
   * When(StartDate present): EndDate, if present, must be after StartDate.
   */
  function IdAndOrderFailures(dto: UpdateMedicalDto): (r: seq<Failure>)
    ensures forall f :: f in r <==>
      || (f.IdRequired? && dto.id == 0)
      || (f.EndDateNotAfterStartDate? && dto.fields.startDate.Some? && dto.fields.endDate.Some?
          && dto.fields.endDate.value <= dto.fields.startDate.value)
  {
    var b := dto.fields;
    Check(dto.id != 0, IdRequired)
    + (if b.startDate.Some? then
         Check(b.endDate.None? || b.endDate.value > b.startDate.value, EndDateNotAfterStartDate)
       else [])
  }

  /** When(StatusId == 2): DeletionReason NotEmpty and MaximumLength(2000), EndDate NotNull, ModifiedBy NotEmpty. */
  function InactiveTransitionFailures(dto: UpdateMedicalDto): (r: seq<Failure>)
    ensures forall f :: f in r <==>
      && dto.fields.statusId == Some(InactiveStatus)
      && (|| (f.DeletionReasonRequiredForInactive? && !HasText(dto.deletionReason))
          || (f.DeletionReasonTooLong? && !WithinLength(dto.deletionReason, 2000))
          || (f.EndDateRequiredForInactive? && dto.fields.endDate.None?)
          || (f.ModifiedByRequiredForInactive? && !HasText(dto.modifiedBy)))
  {
    if dto.fields.statusId == Some(InactiveStatus) then
      Check(HasText(dto.deletionReason), DeletionReasonRequiredForInactive)
      + Check(WithinLength(dto.deletionReason, 2000), DeletionReasonTooLong)
      + Check(dto.fields.endDate.Some?, EndDateRequiredForInactive)
      + Check(HasText(dto.modifiedBy), ModifiedByRequiredForInactive)
    else []
  }

  /** The custom rule: the stored row must not be Inactive, and an end date needs the Inactive status. */
  function CrossRecordFailures(dto: UpdateMedicalDto, records: map<int, MedicalRecord>): (r: seq<Failure>)
    ensures forall f :: f in r <==>
      || (f.InactiveRecordLocked? && StoredAsInactive(records, dto.id))
      || (f.EndDateRequiresInactive? && dto.fields.endDate.Some? && dto.fields.statusId != Some(InactiveStatus))
  {
    Check(!StoredAsInactive(records, dto.id), InactiveRecordLocked)
    + Check(!(dto.fields.endDate.Some? && dto.fields.statusId != Some(InactiveStatus)), EndDateRequiresInactive)
  }

  /**
   * All failures of an update request, the common rules first: a failure is
   * reported exactly when its own rule is broken.
   */
  function UpdateFailures(dto: UpdateMedicalDto, records: map<int, MedicalRecord>): (r: seq<Failure>)
    ensures forall f :: f in r <==> CommonRuleBroken(f, dto.fields) || UpdateOnlyRuleBroken(f, dto, records)
    ensures r == [] <==> CommonRulesHold(dto.fields) && UpdateRulesHold(dto, records)
  {
    var common := CommonFailures(dto.fields);
    var own := IdAndOrderFailures(dto) + InactiveTransitionFailures(dto) + CrossRecordFailures(dto, records);
    var r := common + own;
    assert forall f :: f in own <==> UpdateOnlyRuleBroken(f, dto, records);
    assert forall f :: f in r <==> f in common || f in own;
    assert r == [] <==> CommonRulesHold(dto.fields) && UpdateRulesHold(dto, records) by {
      if r != [] {
        assert r[0] in r;
      }
      if !CommonRulesHold(dto.fields) {
        assert common != [];
        assert common[0] in r;
      }
    }
    r
  }

  /** An Inactive stored row rejects every update, whatever the request carries. */
  lemma InactiveRecordRejectsEveryUpdate(dto: UpdateMedicalDto, records: map<int, MedicalRecord>)
    requires dto.id in records && records[dto.id].IsInactive()
    ensures InactiveRecordLocked in UpdateFailures(dto, records)
    ensures UpdateFailures(dto, records) != []
  {
    assert UpdateOnlyRuleBroken(InactiveRecordLocked, dto, records);
  }

  /** With no stored row for the id, the cross-record lookup adds no failure. */
  lemma AbsentRecordNotLocked(dto: UpdateMedicalDto, records: map<int, MedicalRecord>)
    requires dto.id !in records
    ensures InactiveRecordLocked !in UpdateFailures(dto, records)
  {
    assert !UpdateOnlyRuleBroken(InactiveRecordLocked, dto, records);
    assert !CommonRuleBroken(InactiveRecordLocked, dto.fields);
  }

  /** Without a start date no ordering check is made. */
  lemma NoStartDateNoOrdering(dto: UpdateMedicalDto, records: map<int, MedicalRecord>)
    requires dto.fields.startDate.None?
    ensures EndDateNotAfterStartDate !in UpdateFailures(dto, records)
  {
    assert !UpdateOnlyRuleBroken(EndDateNotAfterStartDate, dto, records);
    assert !CommonRuleBroken(EndDateNotAfterStartDate, dto.fields);
  }

  /**
   * A request that passes has an end date exactly when it asks for the Inactive
   * status, and then also carries a deletion reason and the modifier's identity.
   */
  lemma ValidUpdateInactiveCoupling(dto: UpdateMedicalDto, records: map<int, MedicalRecord>)
    requires UpdateFailures(dto, records) == []
    ensures dto.fields.endDate.Some? <==> dto.fields.statusId == Some(InactiveStatus)
    ensures dto.fields.statusId == Some(InactiveStatus) ==>
      HasText(dto.deletionReason) && WithinLength(dto.deletionReason, 2000) && HasText(dto.modifiedBy)
    ensures !StoredAsInactive(records, dto.id) && dto.id != 0
  {
  }
}
