# Medical-record lifecycle, modelled in Dafny

This project models the lifecycle core of an HR backend's medical-record API.

- **Validators.** The shared rules of `BaseValidator` and the create, update and delete validators. Each validator is a function from a request to the list of its failures, in the order the rules are declared. The exception text is those failures' messages joined by ", ".
- **The table.** `MedicalRepositoryImpl` is a class that holds the `t_medical_records` table as a map from key to row, the order in which the model lists rows (insertion order), and the next identity value. Its soft delete assigns four columns of the found row and reports whether the row existed.
- **The service.** `MedicalServicesImpl` runs against that table:
  - the listing with its four optional filters, skip/take pagination and pre-paging count;
  - lookup by id;
  - create, which forces the Active status and stamps creation data;
  - update, which validates, checks the row exists, copies the payload and stamps modification data;
  - delete, which validates and then soft-deletes.

  Every answer is a `BaseResponse` envelope with the source's messages and codes.

The status lifecycle is stated on the table. Every state-changing service operation keeps each Inactive row Inactive (`InactiveIsTerminal`). Update leaves Inactive rows exactly as they were. `InactiveStaysInactive` carries the rule across any run of operations.

"Today" comes in as two parameters:
- the server's local date, which the create validator compares the start date against;
- the UTC date, which the creation, modification and deletion stamps record.

The reference tables for statuses and record types are the sets of ids they hold.

Files:
- `medical_types.dfy`: rows, requests, outward shape, envelope.
- `validation_rules.dfy`: the FluentValidation primitives, failures and their messages, and the message join.
- `base_validator.dfy`, `create_validator.dfy`, `update_validator.dfy`, `delete_validator.dfy`: the validators.
- `record_query.dfy`: the filter and the pagination.
- `medical_repository.dfy`: the table.
- `medical_services.dfy`: the service.

Facts about the code that the lemmas make explicit:
- **Update copies nulls.** The mapping profile configures no null-skipping, so the update request's whole payload, nulls included, overwrites the stored row (`UpdatedRecord`).
- **Create ignores the end date.** The create validator has no end-date rule. An accepted create request may carry an end date, so a new Active row can have one (`CreateAcceptsEndDate`). The rule that an end date requires the Inactive status is checked only on update.
- **Update can clear the status.** The update validator accepts a request with a null status. The copy then leaves the row with no status, neither Active nor Inactive (`UpdateMayClearStatus`).
- **Repeated delete.** The soft delete has no status check. Deleting an already Inactive row succeeds and overwrites its deletion data (`Repository.MedicalRepository.DeleteMedicalRecord`).
- **Seven flags.** The common validator checks seven YES/NO fields, position change among them.

## Model

| member | source | states |
|---|---|---|
| ValidationRules.Messages | Backend/Services/Impl/MedicalServicesImpl.cs:151 | one message per failure, in the failures' order |
| ValidationRules.JoinContainsParts | Backend/Services/Impl/MedicalServicesImpl.cs:151 | string.Join keeps every part as a substring of the joined text |
| ValidationRules.ExceptionTextNamesEveryFailure | Backend/Services/Impl/MedicalServicesImpl.cs:185 | the exception text of a failed validation contains the message of every failure |
| BaseValidator.LengthFailures | Backend/Validations/BaseValidator.cs:22-35 | a length failure is reported exactly when its field is present and over its ceiling (Diagnosis 100, family data 2000, medical board 200); null passes |
| BaseValidator.ObservationsFailures | Backend/Validations/BaseValidator.cs:37-40 | the Observations ceiling and the non-blank requirement both apply only when PositionChange is "YES" |
| BaseValidator.FlagFailures | Backend/Validations/BaseValidator.cs:42-68 | each of the seven flags fails exactly when it is present and neither "YES" nor "NO" |
| BaseValidator.CommonFailures | Backend/Validations/BaseValidator.cs:20-76 | a common failure is reported iff its own rule is broken; the list is empty iff every common rule holds, the percentage rule included |
| BaseValidator.PercentageIgnoredUnlessDisabled | Backend/Validations/BaseValidator.cs:70-75 | unless Disability is "YES", changing the percentage never changes the common failures |
| BaseValidator.ObservationsIgnoredUnlessPositionChange | Backend/Validations/BaseValidator.cs:37-40 | unless PositionChange is "YES", changing Observations never changes the common failures |
| CreateValidator.DiagnosisAndStartDateFailures | Backend/Validations/CreateMedicalDtoValidator.cs:14-20 | Diagnosis must be non-blank; StartDate must be present and not after the local date (the comparison lets null through) |
| CreateValidator.StatusFailures | Backend/Validations/CreateMedicalDtoValidator.cs:22-28 | StatusId must be present, not 2, and a known status; a null id fails both the required rule and the existence rule |
| CreateValidator.TypeFileAndAuthorFailures | Backend/Validations/CreateMedicalDtoValidator.cs:30-41 | the type id must be present and known; CreatedBy must be non-blank and at most 2000 characters; FileId never fails |
| CreateValidator.CreateFailures | Backend/Validations/CreateMedicalDtoValidator.cs:10-41 | a failure is reported iff its common or create rule is broken; the list is empty iff all common and create rules hold |
| CreateValidator.ValidCreateStatus | Backend/Validations/CreateMedicalDtoValidator.cs:17-34 | an accepted request has a known status other than Inactive, a known type and a start date not in the future |
| CreateValidator.MissingStatusReportedTwice | Backend/Validations/CreateMedicalDtoValidator.cs:22-28 | a missing status id is reported as required and as invalid, never as the Inactive-status failure |
| CreateValidator.FileIdNeverFails | Backend/Validations/CreateMedicalDtoValidator.cs:36-37 | the FileId rule never reports a failure |
| UpdateValidator.IdAndOrderFailures | Backend/Validations/UpdateMedicalDtoValidator.cs:13-20 | Id 0 fails; with both dates present, EndDate must be strictly after StartDate |
| UpdateValidator.InactiveTransitionFailures | Backend/Validations/UpdateMedicalDtoValidator.cs:22-32 | with StatusId 2, the request needs a non-blank deletion reason of at most 2000 characters, an end date and a non-blank modifier; otherwise no failure |
| UpdateValidator.CrossRecordFailures | Backend/Validations/UpdateMedicalDtoValidator.cs:34-47 | fails when the stored row with the request's Id is Inactive, and when an end date comes with a status other than 2 |
| UpdateValidator.UpdateFailures | Backend/Validations/UpdateMedicalDtoValidator.cs:9-48 | a failure is reported iff its common or update rule is broken; the list is empty iff all common and update rules hold |
| UpdateValidator.InactiveRecordRejectsEveryUpdate | Backend/Validations/UpdateMedicalDtoValidator.cs:36-42 | an Inactive stored row makes every update request fail |
| UpdateValidator.AbsentRecordNotLocked | Backend/Validations/UpdateMedicalDtoValidator.cs:36-39 | with no stored row for the Id, the lock failure is not reported |
| UpdateValidator.NoStartDateNoOrdering | Backend/Validations/UpdateMedicalDtoValidator.cs:16-20 | without a start date, no date-order failure is reported |
| UpdateValidator.ValidUpdateInactiveCoupling | Backend/Validations/UpdateMedicalDtoValidator.cs:22-47 | an accepted request has an end date iff it asks for status 2, then carries a reason and a modifier; its row is not Inactive and its Id is not 0 |
| DeleteValidator.DeleteFailures | Backend/Validations/DeleteMedicalDtoValidator.cs:10-19 | each failure is reported iff its rule is broken; the list is empty iff reason and deleter are non-blank and at most 2000 characters |
| DeleteValidator.DeleteIgnoresIds | Backend/Validations/DeleteMedicalDtoValidator.cs:10-19 | Id and MedicalRecordId never change the verdict |
| DeleteValidator.BlankReasonRejected | Backend/Validations/DeleteMedicalDtoValidator.cs:12-14 | a whitespace-only reason is rejected as missing |
| RecordQuery.Filtered | Backend/Services/Impl/MedicalServicesImpl.cs:49-54 | a row is in the result iff it is in the table and matches every given filter; a null date never matches a date filter |
| RecordQuery.FilteredAppend | Backend/Repositories/Impl/MedicalRepositoryImpl.cs:23-27 | filtering distributes over concatenation, so it keeps table order |
| RecordQuery.FilteredAllMatch | Backend/Repositories/Impl/MedicalRepositoryImpl.cs:23-27 | a table whose rows all match is returned whole |
| RecordQuery.PageWithin | Backend/Repositories/Impl/MedicalRepositoryImpl.cs:28-29 | whatever the page numbers, a page holds elements of the sequence, at most pageSize of them |
| RecordQuery.PageIsSlice | Backend/Services/Impl/MedicalServicesImpl.cs:58-60 | for page and size of at least one, the page is the slice starting at (page - 1) * pageSize, at most pageSize long, empty iff the offset is past the end |
| Repository.SoftDeleted | Backend/Repositories/Impl/MedicalRepositoryImpl.cs:56-59 | the soft-deleted row carries the deleter, the reason, the date and the Inactive status; every other column is unchanged |
| Repository.MedicalRepository.GetFilterMedicalRecords | Backend/Repositories/Impl/MedicalRepositoryImpl.cs:19-31 | every returned row is a stored row matching all filters; at most pageSize rows; for page and size of at least one, the result is exactly the slice of the matching rows at (page - 1) * pageSize: its length is the rest of the matches capped at pageSize, and the i-th row is the match at that offset + i |
| Repository.MedicalRepository.PageRowsAreStored | Backend/Repositories/Impl/MedicalRepositoryImpl.cs:19-31 | whatever the page numbers, every row of a page of the filtered table is the row stored under its own key and passes every filter, and there are at most pageSize of them |
| Repository.MedicalRepository.PageOfTableIsSlice | Backend/Repositories/Impl/MedicalRepositoryImpl.cs:19-31 | for page and size of at least one, a page of the filtered table holds the rest of the matches from (page - 1) * pageSize, capped at pageSize, each at its offset |
| Repository.MedicalRepository.GetMedicalRecordById | Backend/Repositories/Impl/MedicalRepositoryImpl.cs:33-36 | a row is found iff its key is in the table, and it is the stored row with that key |
| Repository.MedicalRepository.AddMedicalRecord | Backend/Repositories/Impl/MedicalRepositoryImpl.cs:38-42 | the row is stored under a fresh positive key at the end of table order, nothing else changes, and lookup of the key returns it |
| Repository.MedicalRepository.UpdateMedicalRecord | Backend/Repositories/Impl/MedicalRepositoryImpl.cs:44-48 | the row under the key is replaced and nothing else changes; lookup returns the new row |
| Repository.MedicalRepository.DeleteMedicalRecord | Backend/Repositories/Impl/MedicalRepositoryImpl.cs:51-63 | answers true iff the request's Id is a key; false changes nothing; true soft-deletes that row only, whatever its status |
| Services.CreatedRecord | Backend/Services/Impl/MedicalServicesImpl.cs:155-159 | the new row is the request's payload with status Active, the creator and the UTC date stamped, and no modification or deletion data |
| Services.UpdatedRecord | Backend/Services/Impl/MedicalServicesImpl.cs:200-202 | the row takes the request's payload, nulls included, plus the modifier and the UTC date; key, creation and deletion columns stay |
| Services.MedicalService.GetFilterMedicalRecords | Backend/Services/Impl/MedicalServicesImpl.cs:28-84 | 400 for a page or size below one; otherwise 200 iff the page offset lies within the matches, with TotalRows the full match count, no exception, and Data exactly the page: the rest of the matches from the offset, capped at pageSize, in order; otherwise 404 with TotalRows 0; every returned record matches the filters |
| Services.MedicalService.GetMedicalRecordById | Backend/Services/Impl/MedicalServicesImpl.cs:89-124 | 400 for an id below one, 404 for an absent key, else 200 with that row's outward shape |
| Services.MedicalService.AddMedicalRecord | Backend/Services/Impl/MedicalServicesImpl.cs:139-170 | an invalid request gives 400 with every message joined in Exception, and the table is unchanged; a valid one inserts one Active row under a fresh key at the end of the table order, answers 200 with it, and lookup by that key then returns the same data |
| Services.MedicalService.UpdateMedicalRecord | Backend/Services/Impl/MedicalServicesImpl.cs:173-214 | invalid gives 400 with the messages and no change; an absent key gives 404 and no change; otherwise only that row is replaced by the copied and stamped row, with a 200; Inactive rows are never touched |
| Services.MedicalService.DeleteMedicalRecord | Backend/Services/Impl/MedicalServicesImpl.cs:217-253 | invalid gives 400 with Data false and no change; an absent key gives 404 with Data false and no change; otherwise 200 with Data true, the row soft-deleted and still readable by id |
| Services.InactiveStaysInactive | Backend/Validations/UpdateMedicalDtoValidator.cs:39-42 | across any run of steps that each keep Inactive rows Inactive, a row Inactive at the start is Inactive at the end |
| Services.ServiceListingIsRepositoryQuery | Backend/Services/Impl/MedicalServicesImpl.cs:46-61 | the service's listing returns the same rows as the repository's filtered query |
| Services.CreateAcceptsEndDate | Backend/Validations/CreateMedicalDtoValidator.cs:10-41 | a create request with an end date passes validation, giving an Active row with an end date |
| Services.UpdateMayClearStatus | Backend/Services/Impl/MedicalServicesImpl.cs:200 | an update with a null status passes validation on a row that is not Inactive, and leaves the row with no status |

## Left out

- HTTP transport, controller wiring and dependency injection: they only forward calls.
- async/await, cancellation and the exception path of get-by-id (code 500): they depend on the store throwing, which the in-memory table never does.
- EF Core configuration: its column size limits and its foreign keys from a row to its status and its record type are database constraints, not checks the code makes. An update naming a status or type id that does not exist would fail at SaveChanges in the source. The model instead answers 200 and stores the id. Likewise, the seven YES/NO flag columns are declared with a maximum length of 2 (Backend/Models/HRDbContext.cs:56-73), yet the common validator accepts "YES", which has three characters. A create or update carrying a "YES" flag would therefore fail at SaveChanges against a schema with those sizes, where the model answers 200 and stores the flag. This follows from the declarations alone and was not executed.
- Navigation loading (`Include`) and the status and type names in the outward shape: they are reference-data enrichment with no bearing on the rules.
- AutoMapper conventions: the copies are written out as explicit overwrites of the shared payload, with the stamps assigned afterwards. The model chooses not to copy the update request's DeletionReason and ModificationDate, which have no explicit mapping. Whether AutoMapper's name matching pairs them with columns depends on its configuration and version. ModificationDate is overwritten by the stamp either way. The reverse unflattening of the record-type name into the navigation property is not modelled.
- Database id generation: the identity column is a counter on the table. The model relies only on new keys being fresh and positive.
- Clock reads: the local and UTC dates are parameters.
- Repository.MedicalRepository.UpdateMedicalRecord: requires its key to be in the table. Updating a missing row would throw at SaveChanges, and the service calls it only after finding the row.
- Services.MedicalService.AddMedicalRecord: the source also sets the caller's request object's StatusId to 1. The request is a value here, so that side effect on the caller's object is not captured.
- Services.MedicalService.GetFilterMedicalRecords: the source's 32-bit `(page - 1) * pageSize` can wrap around for huge inputs. The model uses unbounded integers.
- 32-bit wrap-around of other integers, and the decimal disability percentage: integers are unbounded.
- String lengths are counted in characters of `seq<char>`, not UTF-16 code units. The whitespace test uses the Unicode white-space set that `char.IsWhiteSpace` uses.
- Listing order: neither listing query orders its rows, so the database may return them in any order, and pages can shift between calls (an update writes a new row version). The model fixes the order as insertion order and keeps it across updates and soft deletes.
- Repository.MedicalRepository.GetFilterMedicalRecords: for a page below one or a negative page size the source sends a negative OFFSET or LIMIT to the database, which rejects it with an error. The model clamps both to zero as in-memory LINQ does. The service runs its own copy of this query, and only after refusing such pages with 400. Nothing in the source calls the repository's listing.
- Concurrent requests and last-write-wins between them: each operation is one sequential step on the table.
