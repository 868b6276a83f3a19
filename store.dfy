/** The database as the controllers use it: two collections, each a sequence
    of documents in insertion order with a unique key (the unique index on
    the id field), and the three operations the controllers issue on them:
    `find` by a list of keys, an ordered `insertMany`, and `updateMany` on a
    list of keys. */
module Store {
  import opened Common
  import opened Models

  /** No two documents share a key. */
  ghost predicate UniqueKeys<D>(docs: seq<D>, key: D -> string)
  {
    forall i, j :: 0 <= i < j < |docs| ==> key(docs[i]) != key(docs[j])
  }

  /** Unique keys are keys that form a list without repeats. */
  lemma UniqueKeysIsDistinctKeys<D>(docs: seq<D>, key: D -> string)
    ensures UniqueKeys(docs, key) <==> Distinct(MapSeq(docs, key))
  {
    var keys := MapSeq(docs, key);
    if Distinct(keys) {
      forall i, j | 0 <= i < j < |docs|
        ensures key(docs[i]) != key(docs[j])
      {
        assert keys[i] != keys[j];
      }
    }
  }

  /** `find({key: {$in: ids}})`: the documents whose key is among `ids`, in
      stored order. */
  function Matching<D(!new)>(docs: seq<D>, key: D -> string, ids: seq<string>): (found: seq<D>)
    ensures |found| <= |docs|
    ensures forall d :: d in found <==> d in docs && key(d) in ids
  {
    if |docs| == 0 then []
    else
      var last := docs[|docs| - 1];
      Matching(docs[..|docs| - 1], key, ids) + (if key(last) in ids then [last] else [])
  }

  /** Order and multiplicity: `find` over a split collection is the find over
      its first part followed by the find over its second part, and a single
      document is found exactly when its key is listed. */
  lemma {:induction false} MatchingAppend<D(!new)>(xs: seq<D>, ys: seq<D>, key: D -> string, ids: seq<string>)
    ensures Matching(xs + ys, key, ids) == Matching(xs, key, ids) + Matching(ys, key, ids)
    decreases |ys|
  {
    if |ys| == 0 {
      assert xs + ys == xs;
    } else {
      var n := |ys| - 1;
      LastOfAppend(xs, ys);
      MatchingLast(xs + ys, key, ids);
      MatchingLast(ys, key, ids);
      MatchingAppend(xs, ys[..n], key, ids);
      Regroup(Matching(xs + ys, key, ids), Matching(xs + ys[..n], key, ids), Matching(xs, key, ids), Matching(ys[..n], key, ids),
        if key(ys[n]) in ids then [ys[n]] else [], Matching(ys, key, ids));
    }
  }

  /** One step: the documents found in a non-empty collection are those found
      in all but its last document, followed by that one when its key is
      listed. */
  lemma MatchingLast<D(!new)>(docs: seq<D>, key: D -> string, ids: seq<string>)
    requires |docs| > 0
    ensures Matching(docs, key, ids) == Matching(docs[..|docs| - 1], key, ids) + (if key(docs[|docs| - 1]) in ids then [docs[|docs| - 1]] else [])
  {
  }

  lemma MatchingOne<D(!new)>(d: D, key: D -> string, ids: seq<string>)
    ensures Matching([d], key, ids) == if key(d) in ids then [d] else []
  {
    assert [d][..0] == [];
  }

  /** What an ordered `insertMany` leaves: documents are appended one by one
      until one's key is already stored (the batch's own earlier documents
      included); that one fails with a duplicate-key error and the rest are
      not attempted. */
  function Inserted<D>(docs: seq<D>, key: D -> string, batch: seq<D>): (seq<D>, Option<string>)
    decreases |batch|
  {
    if |batch| == 0 then (docs, None)
    else if key(batch[0]) in MapSeq(docs, key) then (docs, Some(key(batch[0])))
    else Inserted(docs + [batch[0]], key, batch[1..])
  }

  /** `updateMany({key: {$in: ids}}, change)`: every document whose key is among
      `ids` is rewritten by `change`, the others are kept, and the order stays. */
  function Updated<D>(docs: seq<D>, key: D -> string, ids: seq<string>, change: D -> D): (updated: seq<D>)
    ensures |updated| == |docs|
    ensures forall i :: 0 <= i < |docs| ==> updated[i] == if key(docs[i]) in ids then change(docs[i]) else docs[i]
  {
    if |docs| == 0 then []
    else
      var last := docs[|docs| - 1];
      Updated(docs[..|docs| - 1], key, ids, change) + [if key(last) in ids then change(last) else last]
  }

  /** `reduce((sum, d) => sum + amount(d), 0)` over the documents. */
  function Total<D>(docs: seq<D>, amount: D -> int): int
  {
    if |docs| == 0 then 0 else Total(docs[..|docs| - 1], amount) + amount(docs[|docs| - 1])
  }

  lemma TotalAppendOne<D>(docs: seq<D>, d: D, amount: D -> int)
    ensures Total(docs + [d], amount) == Total(docs, amount) + amount(d)
  {
    assert (docs + [d])[..|docs|] == docs;
  }

  /** `find({status: s})`: the documents with status `s`, in stored order. */
  function WithStatus<D(!new)>(docs: seq<D>, status: D -> Status, s: Status): (found: seq<D>)
    ensures |found| <= |docs|
    ensures forall d :: d in found <==> d in docs && status(d) == s
  {
    if |docs| == 0 then []
    else
      var last := docs[|docs| - 1];
      WithStatus(docs[..|docs| - 1], status, s) + (if status(last) == s then [last] else [])
  }

  lemma {:induction false} TotalNonNegative<D>(docs: seq<D>, amount: D -> int)
    requires forall i :: 0 <= i < |docs| ==> amount(docs[i]) >= 0
    ensures Total(docs, amount) >= 0
  {
    if |docs| > 0 {
      TotalNonNegative(docs[..|docs| - 1], amount);
    }
  }

  /** A selection is found by which stored keys it names: ids that match no
      stored document, and ids named twice, change nothing. */
  lemma {:induction false} MatchingDependsOnStoredKeys<D(!new)>(docs: seq<D>, key: D -> string, ids: seq<string>, ids': seq<string>)
    requires forall i :: 0 <= i < |docs| ==> (key(docs[i]) in ids <==> key(docs[i]) in ids')
    ensures Matching(docs, key, ids) == Matching(docs, key, ids')
  {
    if |docs| > 0 {
      MatchingDependsOnStoredKeys(docs[..|docs| - 1], key, ids, ids');
    }
  }

  /** A selection that names no stored key finds nothing. */
  lemma {:induction false} MatchingNoneListed<D(!new)>(docs: seq<D>, key: D -> string, ids: seq<string>)
    requires forall i :: 0 <= i < |docs| ==> key(docs[i]) !in ids
    ensures Matching(docs, key, ids) == []
  {
    if |docs| > 0 {
      MatchingNoneListed(docs[..|docs| - 1], key, ids);
    }
  }

  /** An empty selection finds nothing. */
  lemma {:induction false} MatchingNothing<D(!new)>(docs: seq<D>, key: D -> string)
    ensures Matching(docs, key, []) == []
  {
    if |docs| > 0 {
      MatchingNothing(docs[..|docs| - 1], key);
    }
  }

  /** What `find` returns from a collection with unique keys has unique keys. */
  lemma {:induction false} MatchingKeepsUniqueKeys<D(!new)>(docs: seq<D>, key: D -> string, ids: seq<string>)
    requires UniqueKeys(docs, key)
    ensures UniqueKeys(Matching(docs, key, ids), key)
  {
    if |docs| > 0 {
      var init, last := docs[..|docs| - 1], docs[|docs| - 1];
      MatchingKeepsUniqueKeys(init, key, ids);
      var prior := Matching(init, key, ids);
      forall i | 0 <= i < |prior|
        ensures key(prior[i]) != key(last)
      {
        assert prior[i] in init;
        var j :| 0 <= j < |init| && init[j] == prior[i];
        assert docs[j] == prior[i];
      }
    }
  }

  /** The ordered insert, one document at a time. */
  method InsertMany<D>(docs: seq<D>, key: D -> string, batch: seq<D>) returns (stored: seq<D>, failed: Option<string>)
    ensures (stored, failed) == Inserted(docs, key, batch)
  {
    stored := docs;
    var i := 0;
    while i < |batch|
      invariant 0 <= i <= |batch|
      invariant Inserted(docs, key, batch) == Inserted(stored, key, batch[i..])
    {
      assert batch[i..][0] == batch[i] && batch[i..][1..] == batch[i + 1..];
      if key(batch[i]) in MapSeq(stored, key) {
        return stored, Some(key(batch[i]));
      }
      stored := stored + [batch[i]];
      i := i + 1;
    }
    failed := None;
  }

  /** The bulk update, one document at a time in place. */
  method UpdateMany<D>(docs: seq<D>, key: D -> string, ids: seq<string>, change: D -> D) returns (updated: seq<D>)
    ensures updated == Updated(docs, key, ids, change)
  {
    updated := docs;
    var i := 0;
    while i < |updated|
      invariant 0 <= i <= |updated| == |docs|
      invariant forall j :: 0 <= j < i ==> updated[j] == if key(docs[j]) in ids then change(docs[j]) else docs[j]
      invariant forall j :: i <= j < |docs| ==> updated[j] == docs[j]
    {
      if key(updated[i]) in ids {
        updated := updated[i := change(updated[i])];
      }
      i := i + 1;
    }
  }

  /** An ordered insert keeps what was stored and appends a prefix of the
      batch: the whole batch exactly when it reports no failure, and only
      documents whose keys were new, so the keys stay unique. */
  lemma {:induction false} InsertedAppendsPrefix<D>(docs: seq<D>, key: D -> string, batch: seq<D>)
    ensures var (stored, failed) := Inserted(docs, key, batch);
            exists k :: 0 <= k <= |batch| && stored == docs + batch[..k] && (failed.None? <==> k == |batch|)
    ensures UniqueKeys(docs, key) ==> UniqueKeys(Inserted(docs, key, batch).0, key)
    decreases |batch|
  {
    if |batch| == 0 {
      assert docs + batch[..0] == docs;
    } else if key(batch[0]) in MapSeq(docs, key) {
      assert docs + batch[..0] == docs;
    } else {
      var next := docs + [batch[0]];
      InsertedAppendsPrefix(next, key, batch[1..]);
      var (stored, failed) := Inserted(next, key, batch[1..]);
      var k :| 0 <= k <= |batch[1..]| && stored == next + batch[1..][..k] && (failed.None? <==> k == |batch[1..]|);
      assert next + batch[1..][..k] == docs + batch[..k + 1];
      if UniqueKeys(docs, key) {
        forall i | 0 <= i < |docs|
          ensures key(docs[i]) != key(batch[0])
        {
          assert MapSeq(docs, key)[i] == key(docs[i]);
        }
        assert UniqueKeys(next, key);
      }
    }
  }

  /** An ordered insert fails exactly when two batch documents share a key or
      a batch document's key is already stored. */
  lemma {:induction false} InsertedFailsIff<D>(docs: seq<D>, key: D -> string, batch: seq<D>)
    ensures Inserted(docs, key, batch).1.None? <==>
              UniqueKeys(batch, key) && forall i :: 0 <= i < |batch| ==> key(batch[i]) !in MapSeq(docs, key)
    decreases |batch|
  {
    if |batch| > 0 {
      var next := docs + [batch[0]];
      InsertedFailsIff(next, key, batch[1..]);
      assert MapSeq(next, key) == MapSeq(docs, key) + [key(batch[0])];
      forall i | 1 <= i < |batch|
        ensures batch[i] == batch[1..][i - 1]
      {
      }
    }
  }

  /** When no batch key is stored yet, an ordered insert succeeds exactly
      when the batch's keys are pairwise distinct. */
  lemma InsertingNewKeysSucceedsIff<D>(docs: seq<D>, key: D -> string, batch: seq<D>)
    requires forall i :: 0 <= i < |batch| ==> key(batch[i]) !in MapSeq(docs, key)
    ensures Inserted(docs, key, batch).1.None? <==> Distinct(MapSeq(batch, key))
  {
    InsertedFailsIff(docs, key, batch);
    UniqueKeysIsDistinctKeys(batch, key);
  }

  /** The database: the two collections, each with unique keys. */
  class Database {
    var invoices: seq<Invoice>
    var transactions: seq<Transaction>

    ghost predicate Valid()
      reads this
    {
      UniqueKeys(invoices, InvoiceKey) && UniqueKeys(transactions, TransactionKey)
    }

    constructor ()
      ensures Valid() && invoices == [] && transactions == []
    {
      invoices := [];
      transactions := [];
    }

    /** `Invoice.insertMany(batch)`. */
    method InsertInvoices(batch: seq<Invoice>) returns (failed: Option<string>)
      requires Valid()
      modifies this
      ensures Valid()
      ensures (invoices, failed) == Inserted(old(invoices), InvoiceKey, batch)
      ensures transactions == old(transactions)
    {
      InsertedAppendsPrefix(invoices, InvoiceKey, batch);
      invoices, failed := InsertMany(invoices, InvoiceKey, batch);
    }

    /** `Transaction.insertMany(batch)`. */
    method InsertTransactions(batch: seq<Transaction>) returns (failed: Option<string>)
      requires Valid()
      modifies this
      ensures Valid()
      ensures (transactions, failed) == Inserted(old(transactions), TransactionKey, batch)
      ensures invoices == old(invoices)
    {
      InsertedAppendsPrefix(transactions, TransactionKey, batch);
      transactions, failed := InsertMany(transactions, TransactionKey, batch);
    }

    /** `Invoice.updateMany({invoiceId: {$in: ids}}, {$change: ...})`; the
        update must not change the key. */
    method UpdateInvoices(ids: seq<string>, change: Invoice -> Invoice)
      requires Valid()
      requires forall inv :: InvoiceKey(change(inv)) == InvoiceKey(inv)
      modifies this
      ensures Valid()
      ensures invoices == Updated(old(invoices), InvoiceKey, ids, change)
      ensures transactions == old(transactions)
    {
      invoices := UpdateMany(invoices, InvoiceKey, ids, change);
    }

    /** `Transaction.updateMany({transactionId: {$in: ids}}, {$change: ...})`. */
    method UpdateTransactions(ids: seq<string>, change: Transaction -> Transaction)
      requires Valid()
      requires forall txn :: TransactionKey(change(txn)) == TransactionKey(txn)
      modifies this
      ensures Valid()
      ensures transactions == Updated(old(transactions), TransactionKey, ids, change)
      ensures invoices == old(invoices)
    {
      transactions := UpdateMany(transactions, TransactionKey, ids, change);
    }
  }
}
