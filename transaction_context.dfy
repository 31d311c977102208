/** The two state updaters of the client's transaction list
    (context/TransactionContext.tsx). Each computes the next list from the
    previous one; the React state cell is then replaced whole. The random id
    and the creation time the client draws are parameters. */
module TransactionContext {
  import opened SeqUtil

  /** `Omit<Transaction, 'id' | 'timestamp'>`: what the caller supplies. */
  datatype TransactionDraft = TransactionDraft(description: string, amount: int, kind: string, category: string)

  datatype Transaction = Transaction(
    id: string, description: string, amount: int, kind: string, category: string, timestamp: nat)

  /** `addTransaction`: the draft, completed with a fresh id and timestamp,
      goes in front of the previous list, which follows unchanged. */
  function AddTransaction(prev: seq<Transaction>, draft: TransactionDraft, id: string, now: nat): (next: seq<Transaction>)
    ensures |next| == |prev| + 1
    ensures next[0].id == id && next[0].timestamp == now
    ensures next[0].description == draft.description && next[0].amount == draft.amount
    ensures next[0].kind == draft.kind && next[0].category == draft.category
    ensures next[1..] == prev
  {
    [Transaction(id, draft.description, draft.amount, draft.kind, draft.category, now)] + prev
  }

  /** `deleteTransaction`: `prev.filter(t => t.id !== id)`. */
  function DeleteTransaction(prev: seq<Transaction>, id: string): (next: seq<Transaction>)
    ensures |next| <= |prev|
    ensures forall t :: t in next <==> t in prev && t.id != id
  {
    Filter(prev, (t: Transaction) => t.id != id)
  }

  /** The elements that remain keep their relative order. */
  lemma DeleteKeepsOrder(prev: seq<Transaction>, id: string)
    ensures Subseq(DeleteTransaction(prev, id), prev)
  {
    FilterIsSubseq(prev, (t: Transaction) => t.id != id);
  }

  /** Deleting an id no element has leaves the list as it was. */
  lemma DeleteAbsent(prev: seq<Transaction>, id: string)
    requires forall i :: 0 <= i < |prev| ==> prev[i].id != id
    ensures DeleteTransaction(prev, id) == prev
  {
    FilterAllKept(prev, (t: Transaction) => t.id != id);
  }

  /** Deleting twice is deleting once. */
  lemma DeleteIdempotent(prev: seq<Transaction>, id: string)
    ensures DeleteTransaction(DeleteTransaction(prev, id), id) == DeleteTransaction(prev, id)
  {
    FilterIdempotent(prev, (t: Transaction) => t.id != id);
  }

  /** The list shrinks exactly when some element has the id. */
  lemma DeleteShrinksIffPresent(prev: seq<Transaction>, id: string)
    ensures |DeleteTransaction(prev, id)| < |prev| <==> exists i :: 0 <= i < |prev| && prev[i].id == id
  {
    if forall i :: 0 <= i < |prev| ==> prev[i].id != id {
      DeleteAbsent(prev, id);
    } else {
      var i :| 0 <= i < |prev| && prev[i].id == id;
      FilterSkipsOne(prev, (t: Transaction) => t.id != id, i);
    }
  }

  /** With a fresh id, deleting the transaction just added restores the list. */
  lemma DeleteUndoesAdd(prev: seq<Transaction>, draft: TransactionDraft, id: string, now: nat)
    requires forall i :: 0 <= i < |prev| ==> prev[i].id != id
    ensures DeleteTransaction(AddTransaction(prev, draft, id, now), id) == prev
  {
    DeleteAbsent(prev, id);
  }
}
