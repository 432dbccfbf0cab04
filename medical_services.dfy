/**
 * MedicalServicesImpl: the five operations of the medical-record API. Each
 * validates its request, reads or changes the table, and wraps the outcome in
 * a BaseResponse with a fixed message and status code.
 *
 * The reference tables the create validator consults are the sets of status
 * ids and record-type ids they hold. "Today" enters as two parameters: the
 * server's local date, which the create validator compares against, and the
 * UTC date, which the stamps record.
 */
module Services {
  import opened MedicalTypes
  import opened ValidationRules
  import opened CreateValidator
  import opened UpdateValidator
  import opened DeleteValidator
  import opened RecordQuery
  import opened Repository

  /** The lifecycle rule: a row once Inactive stays in the table and stays Inactive. */
  predicate InactiveIsTerminal(before: map<int, MedicalRecord>, after: map<int, MedicalRecord>)
  {
    forall id :: id in before && before[id].IsInactive() ==> id in after && after[id].IsInactive()
  }

  /** A stronger rule that update keeps: every Inactive row is left exactly as it was. */
  predicate InactiveRowsFrozen(before: map<int, MedicalRecord>, after: map<int, MedicalRecord>)
  {
    forall id :: id in before && before[id].IsInactive() ==> id in after && after[id] == before[id]
  }

  /** Replacing a row that is not Inactive keeps every Inactive row as it was. */
  lemma ReplacingActiveRowFreezesInactive(before: map<int, MedicalRecord>, key: int, row: MedicalRecord)
    requires key in before && !before[key].IsInactive()
    ensures InactiveRowsFrozen(before, before[key := row])
    ensures InactiveIsTerminal(before, before[key := row])
  {
  }

  /** The outward shapes of a list of rows: one per row, in the same order. */
  function ToGetDtos(rows: seq<MedicalRecord>): (dtos: seq<GetMedicalDto>)
    ensures |dtos| == |rows|
    ensures forall i :: 0 <= i < |rows| ==> dtos[i] == ToGetDto(rows[i])
  {
    if rows == [] then [] else [ToGetDto(rows[0])] + ToGetDtos(rows[1..])
  }

  /** A row fact the outward shape keeps: it matches the same filters and carries the same key. */
  lemma DtosKeepRowFacts(rows: seq<MedicalRecord>, filter: RecordFilter, records: map<int, MedicalRecord>)
    requires forall x :: x in rows ==> Matches(x.fields, filter) && x.id in records
    ensures forall d :: d in ToGetDtos(rows) ==> Matches(d.fields, filter) && d.medicalRecordId in records
  {
    var dtos := ToGetDtos(rows);
    forall d | d in dtos
      ensures Matches(d.fields, filter) && d.medicalRecordId in records
    {
      var i :| 0 <= i < |dtos| && dtos[i] == d;
      assert rows[i] in rows;
    }
  }

  /**
   * The row a create request becomes: the request's payload with the status forced
   * to Active, stamped with its author and the UTC date; no modification or
   * deletion data. Its key is assigned on insert.
   */
  function CreatedRecord(dto: CreateMedicalDto, utcToday: Date): (r: MedicalRecord)
    ensures r.fields.statusId == Some(ActiveStatus) && !r.IsInactive()
    ensures r.fields.(statusId := dto.fields.statusId) == dto.fields
    ensures r.createdBy == Some(dto.createdBy) && r.creationDate == Some(utcToday)
    ensures r.modifiedBy.None? && r.modificationDate.None?
    ensures r.deletedBy.None? && r.deletionDate.None? && r.deletionReason.None?
  {
    MedicalRecord(0, dto.fields.(statusId := Some(ActiveStatus)), Some(dto.createdBy), Some(utcToday),
                  None, None, None, None, None)
  }

  /**
   * The row an accepted update leaves: the request's payload copied over the stored
   * one (nulls included), the modifier and the UTC date stamped; key, creation and
   * deletion columns as they were.
   */
  function UpdatedRecord(record: MedicalRecord, dto: UpdateMedicalDto, utcToday: Date): (r: MedicalRecord)
    ensures r.fields == dto.fields
    ensures r.modifiedBy == dto.modifiedBy && r.modificationDate == Some(utcToday)
    ensures r.id == record.id
    ensures r.createdBy == record.createdBy && r.creationDate == record.creationDate
    ensures r.deletedBy == record.deletedBy && r.deletionDate == record.deletionDate
    ensures r.deletionReason == record.deletionReason
  {
    record.(fields := dto.fields, modifiedBy := dto.modifiedBy, modificationDate := Some(utcToday))
  }

  class MedicalService {
    const repository: MedicalRepository
    /** The ids held by the statuses table. */
    const statusIds: set<int>
    /** The ids held by the medical_record_types table. */
    const typeIds: set<int>

    constructor (repository: MedicalRepository, statusIds: set<int>, typeIds: set<int>)
      ensures this.repository == repository
      ensures this.statusIds == statusIds && this.typeIds == typeIds
    {
      this.repository := repository;
      this.statusIds := statusIds;
      this.typeIds := typeIds;
    }

    /**
     * GetFilterMedicalRecordsAsync. A page or page size below one is refused with
     * 400. Otherwise TotalRows counts every matching row and Data is the page
     * starting at (page - 1) * pageSize; an empty page is a 404 with TotalRows 0.
     */
    function GetFilterMedicalRecords(page: int, pageSize: int, filter: RecordFilter): (r: BaseResponse<seq<GetMedicalDto>>)
      reads repository
      requires repository.Valid()
      ensures page <= 0 || pageSize <= 0 ==>
        r == BaseResponse(false, "Invalid page or page size parameters.", None, 400, None, None)
      ensures page > 0 && pageSize > 0 ==>
        (r.code == 200 <==> (page - 1) * pageSize < |Filtered(repository.Rows(), filter)|)
      ensures page > 0 && pageSize > 0 && r.code != 200 ==>
        r == BaseResponse(false, "No medical records found.", None, 404, Some(0), None)
      ensures r.code == 200 ==>
        var matching := Filtered(repository.Rows(), filter);
        var offset := (page - 1) * pageSize;
        && r.success && r.message == "Medical records retrieved successfully."
        && r.totalRows == Some(|matching|) && r.exception.None?
        && r.data.Some?
        && |r.data.value| == (if |matching| - offset < pageSize then |matching| - offset else pageSize)
        && forall i :: 0 <= i < |r.data.value| ==>
             0 <= (page - 1) * pageSize + i < |matching|
             && r.data.value[i] == ToGetDto(matching[(page - 1) * pageSize + i])
      ensures r.data.Some? ==>
        forall d :: d in r.data.value ==> Matches(d.fields, filter) && d.medicalRecordId in repository.records
    {
      if page <= 0 || pageSize <= 0 then
        BaseResponse(false, "Invalid page or page size parameters.", None, 400, None, None)
      else
        var matching := Filtered(repository.Rows(), filter);
        var records := Page(matching, page, pageSize);
        PageIsSlice(matching, page, pageSize);
        PageWithin(matching, page, pageSize);
        if records == [] then
          BaseResponse(false, "No medical records found.", None, 404, Some(0), None)
        else
          var dtos := ToGetDtos(records);
          DtosKeepRowFacts(records, filter, repository.records);
          BaseResponse(true, "Medical records retrieved successfully.", Some(dtos), 200, Some(|matching|), None)
    }

    /**
     * GetMedicalRecordByIdAsync: 400 for an id below one, 404 when no row has it,
     * otherwise 200 with the row's outward shape.
     */
    function GetMedicalRecordById(id: int): (r: BaseResponse<GetMedicalDto>)
      reads repository
      requires repository.Valid()
      ensures id <= 0 ==> r == BaseResponse(false, "Invalid medical record ID.", None, 400, None, None)
      ensures id > 0 && id !in repository.records ==>
        r == BaseResponse(false, "Medical record not found.", None, 404, None, None)
      ensures id > 0 && id in repository.records ==>
        && r.success && r.code == 200 && r.message == "Medical record retrieved successfully."
        && r.data == Some(ToGetDto(repository.records[id]))
        && r.data.value.medicalRecordId == id
      ensures r.success <==> r.code == 200
    {
      if id <= 0 then
        BaseResponse(false, "Invalid medical record ID.", None, 400, None, None)
      else
        match repository.GetMedicalRecordById(id)
        case None => BaseResponse(false, "Medical record not found.", None, 404, None, None)
        case Some(record) =>
          BaseResponse(true, "Medical record retrieved successfully.", Some(ToGetDto(record)), 200, None, None)
    }

    /**
     * AddMedicalRecordAsync. A request that fails validation leaves the table alone
     * and is answered 400 with every failure message joined by ", ". Otherwise the
     * row is inserted Active under a fresh key, and the answer (200) carries it,
     * exactly as a lookup of that key then returns it.
     */
    method AddMedicalRecord(dto: CreateMedicalDto, localToday: Date, utcToday: Date) returns (r: BaseResponse<GetMedicalDto>)
      requires repository.Valid()
      modifies repository
      ensures repository.Valid()
      ensures InactiveIsTerminal(old(repository.records), repository.records)
      ensures CreateFailures(dto, localToday, statusIds, typeIds) != [] ==>
        && r == BaseResponse(false, "Validation failed", None, 400, None,
                             Some(ExceptionText(CreateFailures(dto, localToday, statusIds, typeIds))))
        && unchanged(repository)
      ensures CreateFailures(dto, localToday, statusIds, typeIds) == [] ==>
        var id := old(repository.nextId);
        && id > 0 && id !in old(repository.records)
        && repository.records == old(repository.records)[id := CreatedRecord(dto, utcToday).(id := id)]
        && repository.order == old(repository.order) + [id] && repository.nextId == id + 1
        && r == BaseResponse(true, "Medical record created successfully", Some(ToGetDto(repository.records[id])), 200, None, None)
        && GetMedicalRecordById(id) == BaseResponse(true, "Medical record retrieved successfully.", r.data, 200, None, None)
    {
      var failures := CreateFailures(dto, localToday, statusIds, typeIds);
      if failures != [] {
        return BaseResponse(false, "Validation failed", None, 400, None, Some(ExceptionText(failures)));
      }
      var entity := CreatedRecord(dto, utcToday);
      var stored := repository.AddMedicalRecord(entity);
      r := BaseResponse(true, "Medical record created successfully", Some(ToGetDto(stored)), 200, None, None);
    }

    /**
     * UpdateMedicalRecordAsync. A request that fails validation (which reads the
     * stored row's status) is answered 400 with the joined messages; a key with no
     * row is answered 404; otherwise the request's payload is copied over the row,
     * the modifier and UTC date are stamped, and the answer (200) carries the row.
     * An Inactive row is never changed.
     */
    method UpdateMedicalRecord(dto: UpdateMedicalDto, utcToday: Date) returns (r: BaseResponse<GetMedicalDto>)
      requires repository.Valid()
      modifies repository
      ensures repository.Valid()
      ensures InactiveIsTerminal(old(repository.records), repository.records)
      ensures InactiveRowsFrozen(old(repository.records), repository.records)
      ensures UpdateFailures(dto, old(repository.records)) != [] ==>
        && r == BaseResponse(false, "Validation failed", None, 400, None,
                             Some(ExceptionText(UpdateFailures(dto, old(repository.records)))))
        && unchanged(repository)
      ensures UpdateFailures(dto, old(repository.records)) == [] && dto.id !in old(repository.records) ==>
        && r == BaseResponse(false, "Medical record not found", None, 404, None, None)
        && unchanged(repository)
      ensures UpdateFailures(dto, old(repository.records)) == [] && dto.id in old(repository.records) ==>
        && repository.records == old(repository.records)[dto.id := UpdatedRecord(old(repository.records)[dto.id], dto, utcToday)]
        && repository.order == old(repository.order) && repository.nextId == old(repository.nextId)
        && r == BaseResponse(true, "Medical record updated successfully.", Some(ToGetDto(repository.records[dto.id])), 200, None, None)
    {
      var failures := UpdateFailures(dto, repository.records);
      if failures != [] {
        return BaseResponse(false, "Validation failed", None, 400, None, Some(ExceptionText(failures)));
      }
      var existing := repository.GetMedicalRecordById(dto.id);
      if existing.None? {
        return BaseResponse(false, "Medical record not found", None, 404, None, None);
      }
      ValidUpdateInactiveCoupling(dto, repository.records);
      var record := existing.value;
      record := record.(fields := dto.fields, modifiedBy := dto.modifiedBy);
      record := record.(modificationDate := Some(utcToday));
      record := record.(modifiedBy := dto.modifiedBy);
      ReplacingActiveRowFreezesInactive(repository.records, dto.id, record);
      repository.UpdateMedicalRecord(record);
      r := BaseResponse(true, "Medical record updated successfully.", Some(ToGetDto(record)), 200, None, None);
    }

    /**
     * DeleteMedicalRecordAsync. A request that fails validation is answered 400 with
     * Data false and no failure text; a key with no row is answered 404 with Data
     * false; otherwise the row is soft-deleted and the answer is 200 with Data true.
     */
    method DeleteMedicalRecord(dto: DeleteMedicalDto, utcToday: Date) returns (r: BaseResponse<bool>)
      requires repository.Valid()
      modifies repository
      ensures repository.Valid()
      ensures InactiveIsTerminal(old(repository.records), repository.records)
      ensures DeleteFailures(dto) != [] ==>
        r == BaseResponse(false, "Validation failed", Some(false), 400, None, None) && unchanged(repository)
      ensures DeleteFailures(dto) == [] && dto.id !in old(repository.records) ==>
        && r == BaseResponse(false, "Failed to delete medical record or record not found", Some(false), 404, None, None)
        && unchanged(repository)
      ensures DeleteFailures(dto) == [] && dto.id in old(repository.records) ==>
        && repository.records == old(repository.records)[dto.id := SoftDeleted(old(repository.records)[dto.id], dto, utcToday)]
        && repository.order == old(repository.order) && repository.nextId == old(repository.nextId)
        && r == BaseResponse(true, "Medical record deleted successfully", Some(true), 200, None, None)
        && GetMedicalRecordById(dto.id).data == Some(ToGetDto(repository.records[dto.id]))
      ensures r.success <==> r.data == Some(true)
    {
      var failures := DeleteFailures(dto);
      if failures != [] {
        return BaseResponse(false, "Validation failed", Some(false), 400, None, None);
      }
      var deleted := repository.DeleteMedicalRecord(dto, utcToday);
      if !deleted {
        return BaseResponse(false, "Failed to delete medical record or record not found", Some(false), 404, None, None);
      }
      r := BaseResponse(true, "Medical record deleted successfully", Some(true), 200, None, None);
    }
  }

  /**
   * Over any run of operations, each of which keeps Inactive rows Inactive, a row
   * that is Inactive in the first table is Inactive in the last.
   */
  lemma {:induction false} InactiveStaysInactive(tables: seq<map<int, MedicalRecord>>)
    requires |tables| > 0
    requires forall i :: 0 <= i < |tables| - 1 ==> InactiveIsTerminal(tables[i], tables[i + 1])
    ensures InactiveIsTerminal(tables[0], tables[|tables| - 1])
  {
    if |tables| > 1 {
      var prefix := tables[..|tables| - 1];
      assert forall i :: 0 <= i < |prefix| ==> prefix[i] == tables[i];
      InactiveStaysInactive(prefix);
      assert InactiveIsTerminal(tables[|tables| - 2], tables[|tables| - 1]);
    }
  }

  /** The service's listing and the repository's query agree on every page the service returns. */
  lemma ServiceListingIsRepositoryQuery(service: MedicalService, page: int, pageSize: int, filter: RecordFilter)
    requires service.repository.Valid()
    ensures service.GetFilterMedicalRecords(page, pageSize, filter).code == 200 ==>
      service.GetFilterMedicalRecords(page, pageSize, filter).data
        == Some(ToGetDtos(service.repository.GetFilterMedicalRecords(page, pageSize, filter)))
  {
  }

  /** A payload with every member null. */
  const NoFields := RecordFields(None, None, None, None, None, None, None, None, None,
                                 None, None, None, None, None, None, None, None, None)

  /**
   * Creation does not check the end date: an accepted request may carry one, so a
   * new Active row can have an end date, which an update could never leave.
   */
  lemma CreateAcceptsEndDate(localToday: Date, utcToday: Date, statusIds: set<int>, typeIds: set<int>, typeId: int)
    requires ActiveStatus in statusIds && typeId in typeIds
    ensures var dto := CreateMedicalDto(
              NoFields.(diagnosis := Some("Flu"), startDate := Some(localToday), endDate := Some(localToday),
                        statusId := Some(ActiveStatus), medicalRecordTypeId := Some(typeId)),
              "admin", 0, None);
      && CreateFailures(dto, localToday, statusIds, typeIds) == []
      && CreatedRecord(dto, utcToday).fields.endDate.Some?
      && CreatedRecord(dto, utcToday).fields.statusId == Some(ActiveStatus)
  {
    assert !IsWhiteSpace("Flu"[0]);
    assert !IsWhiteSpace("admin"[0]);
  }

  /**
   * A request with a null status passes update validation on a row that is not
   * Inactive, and the copy over the row clears its status: the row is then neither
   * Active nor Inactive.
   */
  lemma UpdateMayClearStatus(records: map<int, MedicalRecord>, id: int, utcToday: Date)
    requires id in records && !records[id].IsInactive() && id != 0
    ensures var dto := UpdateMedicalDto(NoFields, id, None, None, None);
      && UpdateFailures(dto, records) == []
      && UpdatedRecord(records[id], dto, utcToday).fields.statusId.None?
  {
  }
}
