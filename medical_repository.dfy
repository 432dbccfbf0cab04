/**
 * MedicalRepositoryImpl: the t_medical_records table behind the data context.
 * The table is keyed by medical_record_id, which an identity column assigns on
 * insert. The listing queries have no ordering; this model fixes their order as
 * the order in which rows were inserted, kept across updates and soft deletes.
 * Each SaveChangesAsync commits the change in place.
 */
module Repository {
  import opened MedicalTypes
  import opened RecordQuery

  /**
   * The columns a soft delete leaves alone are those of the row it started from:
   * key, payload other than the status, creation and modification stamps.
   */
  predicate SameOutsideDeletion(before: MedicalRecord, after: MedicalRecord)
  {
    && after.id == before.id
    && after.fields.(statusId := None) == before.fields.(statusId := None)
    && after.createdBy == before.createdBy
    && after.creationDate == before.creationDate
    && after.modifiedBy == before.modifiedBy
    && after.modificationDate == before.modificationDate
  }

  /**
   * A row after soft deletion: it records who deleted it, why and when, its status
   * is Inactive, and every other column is as it was.
   */
  function SoftDeleted(record: MedicalRecord, dto: DeleteMedicalDto, utcToday: Date): (r: MedicalRecord)
    ensures r.IsInactive()
    ensures r.deletedBy == Some(dto.deletedBy)
    ensures r.deletionReason == Some(dto.deletionReason)
    ensures r.deletionDate == Some(utcToday)
    ensures SameOutsideDeletion(record, r)
  {
    record.(deletedBy := Some(dto.deletedBy),
            deletionReason := Some(dto.deletionReason),
            deletionDate := Some(utcToday),
            fields := record.fields.(statusId := Some(InactiveStatus)))
  }

  class MedicalRepository {
    /** The rows, by medical_record_id. */
    var records: map<int, MedicalRecord>
    /** The keys in insertion order: the order in which the model lists the table. */
    var order: seq<int>
    /** The next value of the identity column. */
    var nextId: int

    /**
     * Every row sits under its own positive key, below the next identity value,
     * and appears exactly once in the insertion order.
     */
    ghost predicate Valid()
      reads this
    {
      && 0 < nextId
      && (forall id :: id in records ==> 0 < id < nextId && records[id].id == id)
      && (forall id :: id in records <==> id in order)
      && (forall i, j :: 0 <= i < j < |order| ==> order[i] != order[j])
    }

    /** An empty table whose identity column starts at 1. */
    constructor ()
      ensures Valid()
      ensures records == map[] && order == [] && nextId == 1
    {
      records := map[];
      order := [];
      nextId := 1;
    }

    /** The rows in table order. */
    function Rows(): (rows: seq<MedicalRecord>)
      reads this
      requires Valid()
      ensures |rows| == |records|
      ensures forall r :: r in rows <==> r.id in records && records[r.id] == r
    {
      RowsAreTheTable();
      InOrder(records, order)
    }

    lemma RowsAreTheTable()
      requires Valid()
      ensures forall i :: 0 <= i < |order| ==> order[i] in records
      ensures |records| == |order|
      ensures forall r :: r in InOrder(records, order) <==> r.id in records && records[r.id] == r
    {
      DistinctKeysCount(records.Keys, order);
      var rows := InOrder(records, order);
      forall r: MedicalRecord | r.id in records && records[r.id] == r
        ensures r in rows
      {
        var i :| 0 <= i < |order| && order[i] == r.id;
        assert rows[i] == r;
      }
    }

    /**
     * GetFilterMedicalRecordsAsync: the filtered rows, skipping (page - 1) * pageSize
     * and taking pageSize, with no check on the page numbers.
     */
    function GetFilterMedicalRecords(page: int, pageSize: int, filter: RecordFilter): (rows: seq<MedicalRecord>)
      reads this
      requires Valid()
      ensures forall r :: r in rows ==> r.id in records && records[r.id] == r && Matches(r.fields, filter)
      ensures |rows| <= if pageSize > 0 then pageSize else 0
      ensures page >= 1 && pageSize >= 1 ==>
        var matching := Filtered(Rows(), filter);
        var offset := (page - 1) * pageSize;
        && |rows| == (if offset >= |matching| then 0
                      else if |matching| - offset < pageSize then |matching| - offset
                      else pageSize)
        && forall i :: 0 <= i < |rows| ==> 0 <= offset + i < |matching| && rows[i] == matching[offset + i]
    {
      PageRowsAreStored(page, pageSize, filter);
      PageOfTableIsSlice(page, pageSize, filter);
      Page(Filtered(Rows(), filter), page, pageSize)
    }

    /** For a page and page size of at least one, a page is exactly its slice of the filtered rows. */
    lemma PageOfTableIsSlice(page: int, pageSize: int, filter: RecordFilter)
      requires Valid()
      ensures page >= 1 && pageSize >= 1 ==>
        var matching := Filtered(Rows(), filter);
        var rows := Page(matching, page, pageSize);
        var offset := (page - 1) * pageSize;
        && |rows| == (if offset >= |matching| then 0
                      else if |matching| - offset < pageSize then |matching| - offset
                      else pageSize)
        && forall i :: 0 <= i < |rows| ==> 0 <= offset + i < |matching| && rows[i] == matching[offset + i]
    {
      if page >= 1 && pageSize >= 1 {
        PageIsSlice(Filtered(Rows(), filter), page, pageSize);
      }
    }

    /** Every row of a page is a stored row under its own key that passes the filters. */
    lemma PageRowsAreStored(page: int, pageSize: int, filter: RecordFilter)
      requires Valid()
      ensures |Page(Filtered(Rows(), filter), page, pageSize)| <= if pageSize > 0 then pageSize else 0
      ensures forall r :: r in Page(Filtered(Rows(), filter), page, pageSize) ==>
        r.id in records && records[r.id] == r && Matches(r.fields, filter)
    {
      var matching := Filtered(Rows(), filter);
      PageWithin(matching, page, pageSize);
      forall r | r in Page(matching, page, pageSize)
        ensures r.id in records && records[r.id] == r && Matches(r.fields, filter)
      {
        assert r in matching;
      }
    }

    /** GetMedicalRecordByIdAsync: the row with this key, if there is one. */
    function GetMedicalRecordById(id: int): (r: Option<MedicalRecord>)
      reads this
      requires Valid()
      ensures r.Some? <==> id in records
      ensures r.Some? ==> r.value.id == id && r.value in Rows()
    {
      if id in records then Some(records[id]) else None
    }

    /**
     * AddMedicalRecordAsync: inserts the row under the next identity value,
     * ignoring the key it carries, and returns the row as stored.
     */
    method AddMedicalRecord(entity: MedicalRecord) returns (stored: MedicalRecord)
      requires Valid()
      modifies this
      ensures Valid()
      ensures stored == entity.(id := old(nextId))
      ensures stored.id !in old(records) && stored.id > 0
      ensures records == old(records)[stored.id := stored]
      ensures order == old(order) + [stored.id]
      ensures nextId == old(nextId) + 1
      ensures GetMedicalRecordById(stored.id) == Some(stored)
    {
      stored := entity.(id := nextId);
      records := records[nextId := stored];
      order := order + [nextId];
      nextId := nextId + 1;
    }

    /**
     * UpdateMedicalRecordAsync: replaces the stored row with the same key. The
     * caller passes a row it read from this table.
     */
    method UpdateMedicalRecord(entity: MedicalRecord)
      requires Valid()
      requires entity.id in records
      modifies this
      ensures Valid()
      ensures records == old(records)[entity.id := entity]
      ensures order == old(order) && nextId == old(nextId)
      ensures GetMedicalRecordById(entity.id) == Some(entity)
    {
      records := records[entity.id := entity];
    }

    /**
     * DeleteMedicalRecordAsync: finds the row with the request's Id; if there is
     * none, changes nothing and answers false; otherwise soft-deletes it in place
     * (deleter, reason, date, Inactive status) and answers true. The row stays in
     * the table, and an already Inactive row is deleted again.
     */
    method DeleteMedicalRecord(dto: DeleteMedicalDto, utcToday: Date) returns (deleted: bool)
      requires Valid()
      modifies this
      ensures Valid()
      ensures order == old(order) && nextId == old(nextId)
      ensures deleted <==> dto.id in old(records)
      ensures !deleted ==> unchanged(this)
      ensures deleted ==> records == old(records)[dto.id := SoftDeleted(old(records)[dto.id], dto, utcToday)]
      ensures records.Keys == old(records).Keys
    {
      if dto.id !in records {
        return false;
      }
      var record := records[dto.id];
      record := record.(deletedBy := Some(dto.deletedBy));
      record := record.(deletionReason := Some(dto.deletionReason));
      record := record.(deletionDate := Some(utcToday));
      record := record.(fields := record.fields.(statusId := Some(InactiveStatus)));
      records := records[dto.id := record];
      return true;
    }
  }

  /** A duplicate-free key order that lists exactly the keys of a set has as many entries as the set. */
  lemma {:induction false} DistinctKeysCount(keys: set<int>, order: seq<int>)
    requires forall id :: id in keys <==> id in order
    requires forall i, j :: 0 <= i < j < |order| ==> order[i] != order[j]
    ensures |keys| == |order|
  {
    if order == [] {
      assert forall id :: id !in keys;
    } else {
      var n := |order| - 1;
      var last := order[n];
      var prefix := order[..n];
      forall id | id in prefix
        ensures id in keys - {last}
      {
        var i :| 0 <= i < n && prefix[i] == id;
        assert order[i] == id;
      }
      forall id | id in keys - {last}
        ensures id in prefix
      {
        var i :| 0 <= i < |order| && order[i] == id;
        assert prefix[i] == id;
      }
      DistinctKeysCount(keys - {last}, prefix);
    }
  }
}
