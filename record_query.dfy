/**
 * The filtered, paged query over the medical-record table that both the
 * repository and the service run: a Where over four optional filters, then
 * Skip((page - 1) * pageSize) and Take(pageSize), in the table's own order.
 */
module RecordQuery {
  import opened MedicalTypes

  /** The four optional filters of the listing. */
  datatype RecordFilter = RecordFilter(
    statusId: Option<int>,
    startDate: Option<Date>,
    endDate: Option<Date>,
    medicalRecordTypeId: Option<int>)

  /**
   * The Where predicate. Each given filter must hold; a comparison against a
   * null column is false, so a row without a start (end) date never passes a
   * start (end) date filter.
   */
  predicate Matches(b: RecordFields, filter: RecordFilter)
  {
    && (filter.statusId.None? || b.statusId == filter.statusId)
    && (filter.startDate.None? || (b.startDate.Some? && b.startDate.value >= filter.startDate.value))
    && (filter.endDate.None? || (b.endDate.Some? && b.endDate.value <= filter.endDate.value))
    && (filter.medicalRecordTypeId.None? || b.medicalRecordTypeId == filter.medicalRecordTypeId)
  }

  /** The rows that pass the filters, in table order. */
  function Filtered(rows: seq<MedicalRecord>, filter: RecordFilter): (r: seq<MedicalRecord>)
    ensures |r| <= |rows|
    ensures forall x :: x in r <==> x in rows && Matches(x.fields, filter)
  {
    if rows == [] then []
    else (if Matches(rows[0].fields, filter) then [rows[0]] else []) + Filtered(rows[1..], filter)
  }

  /** Filtering keeps table order: it distributes over concatenation. */
  lemma {:induction false} FilteredAppend(a: seq<MedicalRecord>, b: seq<MedicalRecord>, filter: RecordFilter)
    ensures Filtered(a + b, filter) == Filtered(a, filter) + Filtered(b, filter)
  {
    if a == [] {
      assert a + b == b;
    } else {
      assert (a + b)[1..] == a[1..] + b;
      FilteredAppend(a[1..], b, filter);
    }
  }

  /** A table whose rows all pass the filters is returned whole. */
  lemma {:induction false} FilteredAllMatch(rows: seq<MedicalRecord>, filter: RecordFilter)
    requires forall i :: 0 <= i < |rows| ==> Matches(rows[i].fields, filter)
    ensures Filtered(rows, filter) == rows
  {
    if rows != [] {
      FilteredAllMatch(rows[1..], filter);
    }
  }

  /** Enumerable.Skip: a count at or below zero skips nothing. */
  function Skip<T>(s: seq<T>, count: int): (r: seq<T>)
  {
    if count <= 0 then s else if count >= |s| then [] else s[count..]
  }

  /** Enumerable.Take: a count at or below zero takes nothing. */
  function Take<T>(s: seq<T>, count: int): (r: seq<T>)
  {
    if count <= 0 then [] else if count >= |s| then s else s[..count]
  }

  /** One page: Skip((page - 1) * pageSize).Take(pageSize). */
  function Page<T>(s: seq<T>, page: int, pageSize: int): seq<T>
  {
    Take(Skip(s, (page - 1) * pageSize), pageSize)
  }

  /** Whatever the page numbers, a page holds elements of the sequence and at most pageSize of them. */
  lemma PageWithin<T>(s: seq<T>, page: int, pageSize: int)
    ensures forall x :: x in Page(s, page, pageSize) ==> x in s
    ensures |Page(s, page, pageSize)| <= if pageSize > 0 then pageSize else 0
  {
    var skipped := Skip(s, (page - 1) * pageSize);
    assert forall x :: x in skipped ==> x in s;
  }

  /**
   * For a page and page size of at least one, the page is the slice of the
   * sequence that starts at (page - 1) * pageSize and holds at most pageSize
   * elements; it is empty exactly when that offset is past the end.
   */
  lemma PageIsSlice<T>(s: seq<T>, page: int, pageSize: int)
    requires page >= 1 && pageSize >= 1
    ensures var offset := (page - 1) * pageSize;
      && offset >= 0
      && |Page(s, page, pageSize)| <= pageSize
      && (Page(s, page, pageSize) == [] <==> offset >= |s|)
      && (offset < |s| ==> |Page(s, page, pageSize)| == if |s| - offset < pageSize then |s| - offset else pageSize)
      && (forall i :: 0 <= i < |Page(s, page, pageSize)| ==> offset + i < |s| && Page(s, page, pageSize)[i] == s[offset + i])
  {
  }

  /**
   * The table's rows in its own order, given as a key order over the keyed rows:
   * the i-th row is the one stored under the i-th key.
   */
  function InOrder(records: map<int, MedicalRecord>, order: seq<int>): (rows: seq<MedicalRecord>)
    requires forall i :: 0 <= i < |order| ==> order[i] in records
    ensures |rows| == |order|
    ensures forall i :: 0 <= i < |order| ==> rows[i] == records[order[i]]
  {
    if order == [] then [] else [records[order[0]]] + InOrder(records, order[1..])
  }
}
