/**
 * The data of the medical-record backend: the persisted row (t_medical_record),
 * the request shapes (create, update, delete), the outward shape (GetMedicalDto)
 * and the uniform response envelope (BaseResponse).
 *
 * The field set shared by every request shape and by the row is one datatype,
 * RecordFields, which each shape embeds.
 */
module MedicalTypes {

  datatype Option<+T> = None | Some(value: T)

  /** A calendar date (DateOnly), as its day number: later dates are larger. */
  type Date = int

  /** The status ids with meaning to the business rules. */
  const ActiveStatus := 1
  const InactiveStatus := 2

  /**
   * The payload shared by the row and the request shapes (BaseMedicalRecordDto,
   * and the corresponding columns of t_medical_record). Every member is nullable.
   */
  datatype RecordFields = RecordFields(
    diagnosis: Option<string>,
    startDate: Option<Date>,
    endDate: Option<Date>,
    statusId: Option<int>,
    medicalRecordTypeId: Option<int>,
    observations: Option<string>,
    motherData: Option<string>,
    fatherData: Option<string>,
    otherFamilyData: Option<string>,
    medicalBoard: Option<string>,
    audiometry: Option<string>,
    executeMicros: Option<string>,
    executeExtra: Option<string>,
    voiceEvaluation: Option<string>,
    areaChange: Option<string>,
    disability: Option<string>,
    disabilityPercentage: Option<int>,
    positionChange: Option<string>)

  /** A stored row of t_medical_record: the shared payload plus key and audit columns. */
  datatype MedicalRecord = MedicalRecord(
    id: int,
    fields: RecordFields,
    createdBy: Option<string>,
    creationDate: Option<Date>,
    modifiedBy: Option<string>,
    modificationDate: Option<Date>,
    deletedBy: Option<string>,
    deletionDate: Option<Date>,
    deletionReason: Option<string>)
  {
    predicate IsInactive() { fields.statusId == Some(InactiveStatus) }
  }

  /** CreateMedicalDto. CreatedBy is a non-nullable string and FileId a non-nullable int. */
  datatype CreateMedicalDto = CreateMedicalDto(
    fields: RecordFields,
    createdBy: string,
    fileId: int,
    creationDate: Option<Date>)

  /** UpdateMedicalDto. Id is a non-nullable int. */
  datatype UpdateMedicalDto = UpdateMedicalDto(
    fields: RecordFields,
    id: int,
    modifiedBy: Option<string>,
    deletionReason: Option<string>,
    modificationDate: Option<Date>)

  /** DeleteMedicalDto: the row to deactivate, and who deactivates it and why. */
  datatype DeleteMedicalDto = DeleteMedicalDto(
    id: int,
    medicalRecordId: int,
    deletedBy: string,
    deletionReason: string)

  /** GetMedicalDto, the outward shape of a row (it has no deletion reason). */
  datatype GetMedicalDto = GetMedicalDto(
    fields: RecordFields,
    medicalRecordId: int,
    createdBy: Option<string>,
    modifiedBy: Option<string>,
    deletedBy: Option<string>,
    creationDate: Option<Date>,
    modificationDate: Option<Date>,
    deletionDate: Option<Date>)

  /** The mapping of a row to its outward shape (MappingProfile's t_medical_record -> GetMedicalDto). */
  function ToGetDto(r: MedicalRecord): GetMedicalDto
  {
    GetMedicalDto(r.fields, r.id, r.createdBy, r.modifiedBy, r.deletedBy,
                  r.creationDate, r.modificationDate, r.deletionDate)
  }

  /** BaseResponse<T>: the envelope every service operation returns. */
  datatype BaseResponse<T> = BaseResponse(
    success: bool,
    message: string,
    data: Option<T>,
    code: int,
    totalRows: Option<int>,
    exception: Option<string>)
}
