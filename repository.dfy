/** The persistence adapter: one table of receipts keyed by a serial id.
    Each method stands for one SQL statement; `outage` stands for a database
    failure (lost connection, cancelled context) that the statement reports
    instead of running, and `now` for the database clock. */
module Repository {
  import opened Domain

  /** The row INSERT creates: the client's three text columns, the new id and
      both timestamps set to the insertion time. */
  function Inserted(receipt: Receipt, id: int, now: Timestamp): (row: Receipt)
    ensures row.id == id && row.createdAt == now && row.updatedAt == now
    ensures forall f :: row.FieldText(f) == receipt.FieldText(f)
  {
    Receipt(id, receipt.title, receipt.author, receipt.description, now, now)
  }

  /** The row UPDATE leaves: the three text columns taken from `receipt`, the
      update time refreshed, the id and the creation time kept. */
  function Overwritten(row: Receipt, receipt: Receipt, now: Timestamp): (r: Receipt)
    ensures r.id == row.id && r.createdAt == row.createdAt && r.updatedAt == now
    ensures forall f :: r.FieldText(f) == receipt.FieldText(f)
  {
    row.(title := receipt.title, author := receipt.author, description := receipt.description,
         updatedAt := now)
  }

  ghost predicate StrictlyAscending(list: seq<Receipt>) {
    forall i, j :: 0 <= i < j < |list| ==> list[i].id < list[j].id
  }

  /** `list` holds every row of `rows` exactly once, in ascending id order. */
  ghost predicate IsListing(list: seq<Receipt>, rows: map<int, Receipt>) {
    && StrictlyAscending(list)
    && (forall i :: 0 <= i < |list| ==> list[i].id in rows && rows[list[i].id] == list[i])
    && (forall id :: id in rows ==> exists i :: 0 <= i < |list| && list[i].id == id)
  }

  /** `list` holds every row of `rows` whose id is below `bound`, exactly once,
      in ascending id order: the state of a scan that has reached `bound`. */
  ghost predicate ListedBelow(list: seq<Receipt>, rows: map<int, Receipt>, bound: int) {
    && StrictlyAscending(list)
    && (forall i :: 0 <= i < |list| ==> list[i].id < bound)
    && (forall i :: 0 <= i < |list| ==> list[i].id in rows && rows[list[i].id] == list[i])
    && (forall id :: id in rows && id < bound ==> exists i :: 0 <= i < |list| && list[i].id == id)
  }

  /** Scanning one more id appends its row, if there is one, and keeps the scan state. */
  lemma ListedBelowStep(list: seq<Receipt>, rows: map<int, Receipt>, bound: int)
    requires ListedBelow(list, rows, bound)
    requires bound in rows ==> rows[bound].id == bound
    ensures ListedBelow(if bound in rows then list + [rows[bound]] else list, rows, bound + 1)
  {
    if bound in rows {
      var next := list + [rows[bound]];
      forall k | k in rows && k < bound + 1
        ensures exists i :: 0 <= i < |next| && next[i].id == k
      {
        if k == bound {
          assert next[|list|].id == k;
        } else {
          var i :| 0 <= i < |list| && list[i].id == k;
          assert next[i].id == k;
        }
      }
    }
  }

  class ReceiptRepository {
    /** The table, keyed by id. */
    var rows: map<int, Receipt>
    /** The next value of the id sequence; ids are never reused. */
    var nextId: int

    /** Every stored row has a positive id below the sequence and is stored under it. */
    ghost predicate Valid()
      reads this
    {
      && nextId >= 1
      && forall id :: id in rows ==> 1 <= id < nextId && rows[id].id == id
    }

    /** A repository over an existing database: the rows it already holds and
        the current value of its id sequence. */
    constructor (initial: map<int, Receipt>, next: int)
      requires next >= 1
      requires forall id :: id in initial ==> 1 <= id < next && initial[id].id == id
      ensures Valid() && rows == initial && nextId == next
    {
      rows := initial;
      nextId := next;
    }

    /** INSERT ... RETURNING id, created_at: stores a new row and writes the new
        id and the creation time back into the receipt, returned as `written`. */
    method Create(receipt: Receipt, now: Timestamp, outage: Option<nat>)
      returns (written: Receipt, err: Option<Error>)
      requires Valid()
      modifies this
      ensures Valid()
      ensures outage.Some? ==>
        && err == Some(Storage(outage.value)) && written == receipt
        && rows == old(rows) && nextId == old(nextId)
      ensures outage.None? ==>
        && err == None
        && written.id == old(nextId) && nextId == old(nextId) + 1
        && written.id >= 1 && written.id !in old(rows)
        && written == receipt.(id := written.id, createdAt := now)
        && rows == old(rows)[written.id := Inserted(receipt, written.id, now)]
    {
      if outage.Some? {
        return receipt, Some(Storage(outage.value));
      }
      var id := nextId;
      rows := rows[id := Inserted(receipt, id, now)];
      nextId := nextId + 1;
      written := receipt.(id := id, createdAt := now);
      err := None;
    }

    /** DELETE ... WHERE id = $1: zero rows affected is "Record not found". */
    method Delete(id: int, outage: Option<nat>) returns (err: Option<Error>)
      requires Valid()
      modifies this
      ensures Valid() && nextId == old(nextId)
      ensures outage.Some? ==> err == Some(Storage(outage.value)) && rows == old(rows)
      ensures outage.None? && id !in old(rows) ==> err == Some(RecordNotFound) && rows == old(rows)
      ensures outage.None? && id in old(rows) ==> err == None && rows == old(rows) - {id}
    {
      if outage.Some? {
        return Some(Storage(outage.value));
      }
      if id !in rows {
        return Some(RecordNotFound);
      }
      rows := rows - {id};
      err := None;
    }

    /** SELECT ... WHERE id = $1: the stored row, or the driver's "no rows". */
    method Get(id: int, outage: Option<nat>) returns (r: Result<Receipt>)
      requires Valid()
      ensures outage.Some? ==> r == Err(Storage(outage.value))
      ensures outage.None? ==> (r.Ok? <==> id in rows)
      ensures outage.None? && id !in rows ==> r == Err(NoRows)
      ensures r.Ok? ==> id in rows && r.value == rows[id] && r.value.id == id
    {
      if outage.Some? {
        return Err(Storage(outage.value));
      }
      if id !in rows {
        return Err(NoRows);
      }
      r := Ok(rows[id]);
    }

    /** UPDATE ... WHERE id = $4 RETURNING id: overwrites the text columns and the
        update time of the row with the receipt's id; a missing row surfaces as
        the driver's "no rows". The returned id is scanned back into the receipt,
        which holds it already, so the receipt is unchanged. */
    method Update(receipt: Receipt, now: Timestamp, outage: Option<nat>) returns (err: Option<Error>)
      requires Valid()
      modifies this
      ensures Valid() && nextId == old(nextId)
      ensures outage.Some? ==> err == Some(Storage(outage.value)) && rows == old(rows)
      ensures outage.None? && receipt.id !in old(rows) ==> err == Some(NoRows) && rows == old(rows)
      ensures outage.None? && receipt.id in old(rows) ==>
        && err == None
        && rows == old(rows)[receipt.id := Overwritten(old(rows)[receipt.id], receipt, now)]
    {
      if outage.Some? {
        return Some(Storage(outage.value));
      }
      if receipt.id !in rows {
        return Some(NoRows);
      }
      rows := rows[receipt.id := Overwritten(rows[receipt.id], receipt, now)];
      err := None;
    }

    /** SELECT ... ORDER BY id: every row, read one at a time in ascending id
        order and appended to the result; an empty table gives an empty list. */
    method GetAll(outage: Option<nat>) returns (r: Result<seq<Receipt>>)
      requires Valid()
      ensures outage.Some? ==> r == Err(Storage(outage.value))
      ensures outage.None? ==> r.Ok? && IsListing(r.value, rows)
      ensures outage.None? && rows == map[] ==> r == Ok([])
    {
      if outage.Some? {
        return Err(Storage(outage.value));
      }
      var receipts: seq<Receipt> := [];
      var id := 1;
      while id < nextId
        invariant 1 <= id <= nextId
        invariant ListedBelow(receipts, rows, id)
      {
        ListedBelowStep(receipts, rows, id);
        if id in rows {
          receipts := receipts + [rows[id]];
        }
        id := id + 1;
      }
      if receipts != [] {
        assert receipts[0].id in rows;
      }
      r := Ok(receipts);
    }
  }

  /** The first entry of a listing holds the smallest stored id. */
  lemma ListingHeadIsLeast(list: seq<Receipt>, rows: map<int, Receipt>)
    requires IsListing(list, rows) && list != []
    ensures forall id :: id in rows ==> list[0].id <= id
  {
  }

  /** Past its first entry, a listing lists the table without that entry's row. */
  lemma ListingTail(list: seq<Receipt>, rows: map<int, Receipt>)
    requires IsListing(list, rows) && list != []
    ensures IsListing(list[1..], rows - {list[0].id})
  {
  }

  /** A table determines its listing: GetAll has exactly one correct answer. */
  lemma {:induction false} ListingIsUnique(a: seq<Receipt>, b: seq<Receipt>, rows: map<int, Receipt>)
    requires IsListing(a, rows) && IsListing(b, rows)
    ensures a == b
    decreases |a|
  {
    ListingCount(a, rows);
    ListingCount(b, rows);
    if a != [] {
      ListingHeadIsLeast(a, rows);
      ListingHeadIsLeast(b, rows);
      assert a[0].id in rows && b[0].id in rows;
      assert a[0].id == b[0].id;
      assert a[0] == rows[a[0].id] == b[0];
      ListingTail(a, rows);
      ListingTail(b, rows);
      ListingIsUnique(a[1..], b[1..], rows - {a[0].id});
    }
  }

  /** The ids of a list of receipts. */
  ghost function IdSet(list: seq<Receipt>): set<int> {
    set i | 0 <= i < |list| :: list[i].id
  }

  /** A listing has one entry per stored row. */
  lemma ListingCount(list: seq<Receipt>, rows: map<int, Receipt>)
    requires IsListing(list, rows)
    ensures |list| == |rows|
  {
    assert IdSet(list) == rows.Keys by {
      forall id | id in rows ensures id in IdSet(list) {
        var i :| 0 <= i < |list| && list[i].id == id;
      }
    }
    AscendingIdCount(list);
  }

  /** Strictly ascending ids are pairwise distinct, so there are as many as entries. */
  lemma {:induction false} AscendingIdCount(list: seq<Receipt>)
    requires StrictlyAscending(list)
    ensures |IdSet(list)| == |list|
    decreases |list|
  {
    if list != [] {
      var rest := list[1..];
      AscendingIdCount(rest);
      assert IdSet(list) == {list[0].id} + IdSet(rest) by {
        forall id | id in IdSet(list) ensures id in {list[0].id} + IdSet(rest) {
          var i :| 0 <= i < |list| && list[i].id == id;
          if i > 0 { assert rest[i - 1].id == id; }
        }
      }
      assert list[0].id !in IdSet(rest);
    }
  }
}
