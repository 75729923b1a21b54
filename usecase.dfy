/** The application layer of the receipt service: field validation, id
    guards, the partial-update merge and delegation to the repository. */
module UseCase {
  import opened Domain
  import opened Validation
  import opened Repository

  /** One validator check: the condition that must hold and the key reported
      when it does not. */
  datatype Rule = Rule(ok: bool, key: Field)

  /** The checks ValidateReceipt makes, in order: two on the title, two on the
      author and one on the description. */
  function Rules(receipt: Receipt): seq<Rule> {
    [ Rule(receipt.title != [], Title),
      Rule(|receipt.title| <= MaxTextLength, Title),
      Rule(receipt.author != [], Author),
      Rule(|receipt.author| <= MaxTextLength, Author),
      Rule(receipt.description != [], Description) ]
  }

  /** The keys of the failing checks: every check is evaluated, none stops the others. */
  function FailedKeys(rules: seq<Rule>): (keys: set<Field>)
    ensures forall k :: k in keys <==> exists i :: 0 <= i < |rules| && !rules[i].ok && rules[i].key == k
    decreases |rules|
  {
    if rules == [] then {}
    else
      var rest := FailedKeys(rules[1..]);
      assert forall k :: k in rest ==> exists i :: 0 <= i < |rules| && !rules[i].ok && rules[i].key == k by {
        forall k | k in rest ensures exists i :: 0 <= i < |rules| && !rules[i].ok && rules[i].key == k {
          var i :| 0 <= i < |rules[1..]| && !rules[1..][i].ok && rules[1..][i].key == k;
          assert rules[i + 1] == rules[1..][i];
        }
      }
      (if rules[0].ok then {} else {rules[0].key}) + rest
  }

  /** The fields a receipt fails validation on: title and author when empty or
      longer than MaxTextLength code points, description when empty. */
  function Violations(receipt: Receipt): (keys: set<Field>)
    ensures Title in keys <==> receipt.title == [] || |receipt.title| > MaxTextLength
    ensures Author in keys <==> receipt.author == [] || |receipt.author| > MaxTextLength
    ensures Description in keys <==> receipt.description == []
  {
    var rules := Rules(receipt);
    assert rules[0].key == Title && rules[1].key == Title && rules[2].key == Author;
    assert rules[3].key == Author && rules[4].key == Description;
    FailedKeys(rules)
  }

  /** Runs every field check against the receipt, adding the failing keys to `v`. */
  method ValidateReceipt(v: Validator, receipt: Receipt)
    modifies v
    ensures v.failed == old(v.failed) + Violations(receipt)
  {
    v.Check(receipt.title != [], Title);
    v.Check(|receipt.title| <= MaxTextLength, Title);
    v.Check(receipt.author != [], Author);
    v.Check(|receipt.author| <= MaxTextLength, Author);
    v.Check(receipt.description != [], Description);
  }

  /** The partial-update merge: each text field takes the patch's value when
      that is non-empty and keeps the stored one otherwise; id and timestamps
      are the stored record's. */
  function Merge(stored: Receipt, patch: Receipt): (merged: Receipt)
    ensures merged.id == stored.id
    ensures merged.createdAt == stored.createdAt && merged.updatedAt == stored.updatedAt
    ensures forall f :: patch.FieldText(f) != [] ==> merged.FieldText(f) == patch.FieldText(f)
    ensures forall f :: patch.FieldText(f) == [] ==> merged.FieldText(f) == stored.FieldText(f)
  {
    var withTitle := if patch.title != [] then stored.(title := patch.title) else stored;
    var withAuthor := if patch.author != [] then withTitle.(author := patch.author) else withTitle;
    if patch.description != [] then withAuthor.(description := patch.description) else withAuthor
  }

  class ReceiptUseCase {
    const repository: ReceiptRepository

    ghost predicate Valid()
      reads this, repository
    {
      repository.Valid()
    }

    /** The use case over a given repository. */
    constructor (rep: ReceiptRepository)
      ensures repository == rep
    {
      repository := rep;
    }

    /** Rejects a receipt that fails validation with the generic validation
        error and touches nothing; otherwise inserts it and returns what the
        repository writes back. */
    method Create(receipt: Receipt, now: Timestamp, outage: Option<nat>)
      returns (written: Receipt, err: Option<Error>)
      requires Valid()
      modifies repository
      ensures Valid()
      ensures Violations(receipt) != {} ==>
        && err == Some(ValidationFailed) && written == receipt
        && repository.rows == old(repository.rows) && repository.nextId == old(repository.nextId)
      ensures Violations(receipt) == {} && outage.Some? ==>
        && err == Some(Storage(outage.value)) && written == receipt
        && repository.rows == old(repository.rows) && repository.nextId == old(repository.nextId)
      ensures Violations(receipt) == {} && outage.None? ==>
        && err == None
        && written.id == old(repository.nextId) && repository.nextId == old(repository.nextId) + 1
        && written.id >= 1 && written.id !in old(repository.rows)
        && written == receipt.(id := written.id, createdAt := now)
        && repository.rows == old(repository.rows)[written.id := Inserted(receipt, written.id, now)]
    {
      var v := new Validator();
      ValidateReceipt(v, receipt);
      if !v.Valid() {
        return receipt, Some(ValidationFailed);
      }
      written, err := repository.Create(receipt, now, outage);
    }

    /** Rejects an id below 1 without querying storage; otherwise deletes the row. */
    method Delete(id: int, outage: Option<nat>) returns (err: Option<Error>)
      requires Valid()
      modifies repository
      ensures Valid() && repository.nextId == old(repository.nextId)
      ensures id < 1 ==> err == Some(RecordNotFound) && repository.rows == old(repository.rows)
      ensures id >= 1 && outage.Some? ==>
        err == Some(Storage(outage.value)) && repository.rows == old(repository.rows)
      ensures id >= 1 && outage.None? && id !in old(repository.rows) ==>
        err == Some(RecordNotFound) && repository.rows == old(repository.rows)
      ensures outage.None? && id in old(repository.rows) ==>
        err == None && repository.rows == old(repository.rows) - {id}
    {
      if id < 1 {
        return Some(RecordNotFound);
      }
      err := repository.Delete(id, outage);
    }

    /** Rejects an id below 1 without querying storage; a missing row is
        "Record not found", any other storage error passes through unchanged. */
    method Get(id: int, outage: Option<nat>) returns (r: Result<Receipt>)
      requires Valid()
      ensures id < 1 ==> r == Err(RecordNotFound)
      ensures id >= 1 && outage.Some? ==> r == Err(Storage(outage.value))
      ensures id >= 1 && outage.None? && id !in repository.rows ==> r == Err(RecordNotFound)
      ensures id >= 1 && outage.None? && id in repository.rows ==> r == Ok(repository.rows[id])
    {
      if id < 1 {
        return Err(RecordNotFound);
      }
      var got := repository.Get(id, outage);
      if got.Err? {
        if got.error == NoRows {
          return Err(RecordNotFound);
        }
        return Err(got.error);
      }
      r := Ok(got.value);
    }

    /** Fetches the stored record (two round trips: `readOutage` affects the
        read, `writeOutage` the write), merges the patch into that copy and
        stores the merge without validating it. The caller's patch is only
        read, never written. */
    method Update(id: int, patch: Receipt, now: Timestamp, readOutage: Option<nat>, writeOutage: Option<nat>)
      returns (err: Option<Error>)
      requires Valid()
      modifies repository
      ensures Valid() && repository.nextId == old(repository.nextId)
      ensures id < 1 ==> err == Some(RecordNotFound) && repository.rows == old(repository.rows)
      ensures id >= 1 && readOutage.Some? ==>
        err == Some(Storage(readOutage.value)) && repository.rows == old(repository.rows)
      ensures id >= 1 && readOutage.None? && id !in old(repository.rows) ==>
        err == Some(RecordNotFound) && repository.rows == old(repository.rows)
      ensures readOutage.None? && id in old(repository.rows) && writeOutage.Some? ==>
        err == Some(Storage(writeOutage.value)) && repository.rows == old(repository.rows)
      ensures readOutage.None? && id in old(repository.rows) && writeOutage.None? ==>
        var stored := old(repository.rows)[id];
        err == None && repository.rows == old(repository.rows)[id := Overwritten(stored, Merge(stored, patch), now)]
    {
      if id < 1 {
        return Some(RecordNotFound);
      }
      var got := Get(id, readOutage);
      if got.Err? {
        return Some(got.error);
      }
      var rec := got.value;
      if patch.title != [] {
        rec := rec.(title := patch.title);
      }
      if patch.author != [] {
        rec := rec.(author := patch.author);
      }
      if patch.description != [] {
        rec := rec.(description := patch.description);
      }
      assert rec == Merge(got.value, patch);
      err := repository.Update(rec, now, writeOutage);
    }

    /** Every stored record in ascending id order; storage errors pass through. */
    method GetAll(outage: Option<nat>) returns (r: Result<seq<Receipt>>)
      requires Valid()
      ensures outage.Some? ==> r == Err(Storage(outage.value))
      ensures outage.None? ==> r.Ok? && IsListing(r.value, repository.rows)
      ensures outage.None? && repository.rows == map[] ==> r == Ok([])
    {
      var receipts := repository.GetAll(outage);
      if receipts.Err? {
        return Err(receipts.error);
      }
      r := Ok(receipts.value);
    }
  }

  /** A receipt is accepted exactly when title and author are non-empty and at
      most MaxTextLength code points long and the description is non-empty. */
  lemma ValidIff(receipt: Receipt)
    ensures Violations(receipt) == {} <==>
      && 0 < |receipt.title| <= MaxTextLength
      && 0 < |receipt.author| <= MaxTextLength
      && receipt.description != []
  {
  }

  /** An empty receipt is reported on all three fields, not just the first. */
  lemma EmptyReceiptFailsEveryField(stamp: Timestamp)
    ensures Violations(Receipt(0, [], [], [], stamp, stamp)) == {Title, Author, Description}
  {
  }

  /** A receipt holding only a description fails on title and author. */
  lemma DescriptionOnlyFails(description: Text)
    requires description != []
    ensures Violations(Receipt(0, [], [], description, 0, 0)) == {Title, Author}
  {
  }

  /** Applying the same patch twice stores the same record as applying it once. */
  lemma MergeIdempotent(stored: Receipt, patch: Receipt)
    ensures Merge(Merge(stored, patch), patch) == Merge(stored, patch)
  {
  }

  /** A patch with only a title changes the title and nothing else. */
  lemma TitleOnlyPatch(stored: Receipt, title: Text)
    requires title != []
    ensures Merge(stored, Receipt(0, title, [], [], 0, 0)) == stored.(title := title)
  {
  }

  /** The merge is not validated: the merge of a valid record with an
      over-long title fails validation on title. */
  lemma MergeSkipsValidation(stored: Receipt, title: Text)
    requires Violations(stored) == {}
    requires |title| > MaxTextLength
    ensures Violations(Merge(stored, Receipt(0, title, [], [], 0, 0))) == {Title}
  {
  }

  /** Update stores the merge without validating it: a valid row patched with
      an over-long title is kept with that title and now fails validation. */
  method UpdateStoresInvalidMerge(app: ReceiptUseCase, id: int, title: Text, now: Timestamp)
    returns (err: Option<Error>)
    requires app.Valid() && id in app.repository.rows
    requires Violations(app.repository.rows[id]) == {} && |title| > MaxTextLength
    modifies app.repository
    ensures err == None
    ensures id in app.repository.rows && app.repository.rows[id].title == title
    ensures Violations(app.repository.rows[id]) == {Title}
  {
    ghost var stored := app.repository.rows[id];
    var patch := Receipt(0, title, [], [], 0, 0);
    MergeSkipsValidation(stored, title);
    err := app.Update(id, patch, now, None, None);
    assert app.repository.rows[id] == Overwritten(stored, Merge(stored, patch), now);
    assert forall f :: app.repository.rows[id].FieldText(f) == Merge(stored, patch).FieldText(f);
  }

  /** Creating a valid receipt and reading it back by the returned id gives
      the client's text fields, the new id and the insertion time. */
  method CreateThenGet(app: ReceiptUseCase, receipt: Receipt, now: Timestamp) returns (got: Result<Receipt>)
    requires app.Valid() && Violations(receipt) == {}
    modifies app.repository
    ensures got.Ok?
    ensures forall f :: got.value.FieldText(f) == receipt.FieldText(f)
    ensures got.value.id >= 1 && got.value.createdAt == now && got.value.updatedAt == now
  {
    var written, err := app.Create(receipt, now, None);
    got := app.Get(written.id, None);
  }

  /** Deleting an id a second time reports "Record not found". */
  method DeleteTwice(app: ReceiptUseCase, id: int) returns (first: Option<Error>, second: Option<Error>)
    requires app.Valid()
    modifies app.repository
    ensures id in old(app.repository.rows) ==> first == None
    ensures second == Some(RecordNotFound)
    ensures app.repository.rows == old(app.repository.rows) - {id}
  {
    first := app.Delete(id, None);
    second := app.Delete(id, None);
  }
}
