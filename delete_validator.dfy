/**
 * DeleteMedicalDtoValidator: two rule chains over the request's strings. It has
 * no access to the store, so its verdict depends on the request alone.
 */
module DeleteValidator {
  import opened MedicalTypes
  import opened ValidationRules

  /** The delete rules: a non-blank reason and author, each of at most 2000 characters. */
  predicate DeleteRulesHold(dto: DeleteMedicalDto)
  {
    && NotBlank(dto.deletionReason) && |dto.deletionReason| <= 2000
    && NotBlank(dto.deletedBy) && |dto.deletedBy| <= 2000
  }

  /**
   * DeletionReason: NotEmpty, MaximumLength(2000). DeletedBy: NotEmpty, MaximumLength(2000).
   * Id and MedicalRecordId have no rule.
   */
  function DeleteFailures(dto: DeleteMedicalDto): (r: seq<Failure>)
    ensures forall f :: f in r <==>
      || (f.DeletionReasonRequired? && !NotBlank(dto.deletionReason))
      || (f.DeletionReasonTooLong? && |dto.deletionReason| > 2000)
      || (f.DeletedByRequired? && !NotBlank(dto.deletedBy))
      || (f.DeletedByTooLong? && |dto.deletedBy| > 2000)
    ensures r == [] <==> DeleteRulesHold(dto)
  {
    Check(NotBlank(dto.deletionReason), DeletionReasonRequired)
    + Check(|dto.deletionReason| <= 2000, DeletionReasonTooLong)
    + Check(NotBlank(dto.deletedBy), DeletedByRequired)
    + Check(|dto.deletedBy| <= 2000, DeletedByTooLong)
  }

  /** The row ids play no part: two requests that differ only in Id and MedicalRecordId get the same verdict. */
  lemma DeleteIgnoresIds(dto: DeleteMedicalDto, id: int, medicalRecordId: int)
    ensures DeleteFailures(dto.(id := id, medicalRecordId := medicalRecordId)) == DeleteFailures(dto)
  {
  }

  /** A whitespace-only reason is rejected like an empty one. */
  lemma BlankReasonRejected(dto: DeleteMedicalDto)
    requires forall i :: 0 <= i < |dto.deletionReason| ==> IsWhiteSpace(dto.deletionReason[i])
    ensures DeletionReasonRequired in DeleteFailures(dto)
  {
  }
}
