/** The client's category list (context/CategoryContext.tsx): three pure
    updaters applied after a successful request, and the provider's state
    (`categories`, `isLoading`, the session it reads) as a small class whose
    methods sequence the guards and updates of the async functions. The
    server's answer is a parameter of each method. */
module CategoryContext {
  import opened SeqUtil

  /** `interface Category { id; name; type }`. */
  datatype Category = Category(id: nat, name: string, kind: string)

  // ------------------------------------------------------------ name order

  /** The order the list is sorted by: lexicographic on characters, standing
      for `a.name.localeCompare(b.name) <= 0`. */
  predicate NameLe(a: string, b: string)
  {
    a == [] || (b != [] && (a[0] < b[0] || (a[0] == b[0] && NameLe(a[1..], b[1..]))))
  }

  lemma {:induction false} NameLeTotal(a: string, b: string)
    ensures NameLe(a, b) || NameLe(b, a)
  {
    if a != [] && b != [] && a[0] == b[0] {
      NameLeTotal(a[1..], b[1..]);
    }
  }

  lemma {:induction false} NameLeTransitive(a: string, b: string, c: string)
    requires NameLe(a, b) && NameLe(b, c)
    ensures NameLe(a, c)
  {
    if a != [] && a[0] == b[0] && b[0] == c[0] {
      NameLeTransitive(a[1..], b[1..], c[1..]);
    }
  }

  lemma {:induction false} NameLeAntisymmetric(a: string, b: string)
    requires NameLe(a, b) && NameLe(b, a)
    ensures a == b
  {
    if a != [] {
      NameLeAntisymmetric(a[1..], b[1..]);
      assert a == [a[0]] + a[1..] && b == [b[0]] + b[1..];
    }
  }

  ghost predicate SortedByName(s: seq<Category>)
  {
    forall i, j :: 0 <= i < j < |s| ==> NameLe(s[i].name, s[j].name)
  }

  /** Puts `c` into a sorted list after every entry whose name is not
      greater, so that entries with equal names keep their order. */
  function InsertByName(c: Category, s: seq<Category>): (r: seq<Category>)
    requires SortedByName(s)
    ensures multiset(r) == multiset(s) + multiset{c}
    ensures SortedByName(r)
  {
    if s == [] then [c]
    else if NameLe(s[0].name, c.name) then
      var rest := InsertByName(c, s[1..]);
      assert s == [s[0]] + s[1..];
      HeadBelowRest(s, c, rest);
      [s[0]] + rest
    else
      NameLeTotal(c.name, s[0].name);
      BelowSorted(c, s);
      [c] + s
  }

  /** Helper for InsertByName: the head of `s` stays first. */
  lemma HeadBelowRest(s: seq<Category>, c: Category, rest: seq<Category>)
    requires s != [] && SortedByName(s) && NameLe(s[0].name, c.name)
    requires multiset(rest) == multiset(s[1..]) + multiset{c} && SortedByName(rest)
    ensures SortedByName([s[0]] + rest)
  {
    var r := [s[0]] + rest;
    forall j | 0 <= j < |rest| ensures NameLe(s[0].name, rest[j].name) {
      assert rest[j] in multiset(rest);
      if rest[j] != c {
        assert rest[j] in s[1..];
        var k :| 0 <= k < |s[1..]| && s[1..][k] == rest[j];
        assert s[k + 1] == rest[j];
      }
    }
    forall i, j | 0 <= i < j < |r| ensures NameLe(r[i].name, r[j].name) {
      if i == 0 {
        assert r[j] == rest[j - 1];
      } else {
        assert r[i] == rest[i - 1] && r[j] == rest[j - 1];
      }
    }
  }

  /** Helper for InsertByName: an entry not above the head of a sorted list
      can go in front of it. */
  lemma BelowSorted(c: Category, s: seq<Category>)
    requires s != [] && SortedByName(s) && NameLe(c.name, s[0].name)
    ensures SortedByName([c] + s)
  {
    var r := [c] + s;
    forall j | 0 < j < |r| ensures NameLe(c.name, r[j].name) {
      if j > 1 { NameLeTransitive(c.name, s[0].name, s[j - 1].name); }
    }
    forall i, j | 0 <= i < j < |r| ensures NameLe(r[i].name, r[j].name) {
      if i > 0 { assert r[i] == s[i - 1] && r[j] == s[j - 1]; }
    }
  }

  /** `Array.prototype.sort` with the name comparator: a stable insertion sort. */
  function SortByName(s: seq<Category>): (r: seq<Category>)
    ensures multiset(r) == multiset(s)
    ensures SortedByName(r)
  {
    if s == [] then []
    else
      assert s == s[..|s| - 1] + [s[|s| - 1]];
      InsertByName(s[|s| - 1], SortByName(s[..|s| - 1]))
  }

  /** Sorting an already sorted list leaves it as it is. */
  lemma {:induction false} SortSorted(s: seq<Category>)
    requires SortedByName(s)
    ensures SortByName(s) == s
  {
    if s != [] {
      var init := s[..|s| - 1];
      assert SortedByName(init) by {
        forall i, j | 0 <= i < j < |init| ensures NameLe(init[i].name, init[j].name) {
          assert init[i] == s[i] && init[j] == s[j];
        }
      }
      SortSorted(init);
      InsertLast(s[|s| - 1], init);
      assert init + [s[|s| - 1]] == s;
    }
  }

  /** Helper for SortSorted: an entry not below any entry goes last. */
  lemma {:induction false} InsertLast(c: Category, s: seq<Category>)
    requires SortedByName(s)
    requires forall i :: 0 <= i < |s| ==> NameLe(s[i].name, c.name)
    ensures InsertByName(c, s) == s + [c]
  {
    if s != [] {
      assert SortedByName(s[1..]) by {
        forall i, j | 0 <= i < j < |s[1..]| ensures NameLe(s[1..][i].name, s[1..][j].name) {
          assert s[1..][i] == s[i + 1] && s[1..][j] == s[j + 1];
        }
      }
      assert forall i :: 0 <= i < |s[1..]| ==> NameLe(s[1..][i].name, c.name) by {
        forall i | 0 <= i < |s[1..]| ensures NameLe(s[1..][i].name, c.name) {
          assert s[1..][i] == s[i + 1];
        }
      }
      InsertLast(c, s[1..]);
      assert [s[0]] + (s[1..] + [c]) == s + [c];
    }
  }

  // ------------------------------------------------------------ updaters

  /** `addCategory` on success: `[...prev, newCategory].sort(byName)`. */
  function WithAdded(prev: seq<Category>, added: Category): (next: seq<Category>)
    ensures |next| == |prev| + 1
    ensures multiset(next) == multiset(prev) + multiset{added}
    ensures SortedByName(next)
  {
    assert multiset(prev + [added]) == multiset(prev) + multiset{added};
    var next := SortByName(prev + [added]);
    assert |next| == |multiset(next)| == |prev + [added]|;
    next
  }

  /** When the list is already sorted, adding inserts the new entry in place;
      the other entries keep their order. */
  lemma WithAddedToSorted(prev: seq<Category>, added: Category)
    requires SortedByName(prev)
    ensures WithAdded(prev, added) == InsertByName(added, prev)
  {
    SortSorted(prev);
    assert (prev + [added])[..|prev|] == prev;
  }

  /** `updateCategory` on success: `prev.map(c => c.id === updated.id ? updated : c)`. */
  function WithReplaced(prev: seq<Category>, updated: Category): (next: seq<Category>)
    ensures |next| == |prev|
    ensures forall i :: 0 <= i < |prev| && prev[i].id == updated.id ==> next[i] == updated
    ensures forall i :: 0 <= i < |prev| && prev[i].id != updated.id ==> next[i] == prev[i]
  {
    Map(prev, (c: Category) => if c.id == updated.id then updated else c)
  }

  /** Replacing twice with the same entry is replacing once, and replacing
      an id the list does not hold changes nothing. */
  lemma WithReplacedLaws(prev: seq<Category>, updated: Category)
    ensures WithReplaced(WithReplaced(prev, updated), updated) == WithReplaced(prev, updated)
    ensures (forall i :: 0 <= i < |prev| ==> prev[i].id != updated.id) ==> WithReplaced(prev, updated) == prev
  {
  }

  /** `deleteCategory` on success: `prev.filter(c => c.id !== id)`. */
  function WithoutCategory(prev: seq<Category>, id: nat): (next: seq<Category>)
    ensures |next| <= |prev|
    ensures forall c :: c in next <==> c in prev && c.id != id
  {
    Filter(prev, (c: Category) => c.id != id)
  }

  /** The remaining entries keep their relative order, and a list sorted by
      name stays sorted. */
  lemma WithoutCategoryKeepsOrder(prev: seq<Category>, id: nat)
    ensures Subseq(WithoutCategory(prev, id), prev)
    ensures SortedByName(prev) ==> SortedByName(WithoutCategory(prev, id))
  {
    FilterIsSubseq(prev, (c: Category) => c.id != id);
    if SortedByName(prev) {
      assert Chained(prev, NameOrdered);
      FilterChained(prev, (c: Category) => c.id != id, NameOrdered);
    }
  }

  predicate NameOrdered(a: Category, b: Category) { NameLe(a.name, b.name) }

  // ------------------------------------------------------------ provider state

  /** How a request of `addCategory` or `updateCategory` comes back. */
  datatype Reply =
    | Success(category: Category)  // `response.ok`, and the body is the category
    | JsonError                    // not ok, with a JSON `{ error }` body
    | TextError                    // not ok, with the plain status text of `res.sendStatus`
    | NetworkError                 // `fetch` itself rejected

  /** What the returned promise does: resolve to a boolean, or reject. */
  datatype Outcome = Resolved(value: bool) | Rejected

  /** The promise's fate once the request was sent: true on success, false
      after alerting a JSON error, and a rejection when `response.json()`
      cannot parse a status text or `fetch` failed, neither being caught. */
  function OutcomeOf(reply: Reply): (o: Outcome)
    ensures o == Resolved(true) <==> reply.Success?
    ensures o == Resolved(false) <==> reply == JsonError
    ensures o == Rejected <==> reply == TextError || reply == NetworkError
  {
    match reply
    case Success(_) => Resolved(true)
    case JsonError => Resolved(false)
    case TextError => Rejected
    case NetworkError => Rejected
  }

  class CategoryStore {
    var categories: seq<Category>
    var isLoading: bool
    /** The token of the signed-in user, from the authentication context. */
    const session: Option<string>

    /** `useState<Category[]>([])` and `useState(true)`. */
    constructor (session: Option<string>)
      ensures categories == [] && isLoading && this.session == session
    {
      this.session := session;
      categories := [];
      isLoading := true;
    }

    /** `fetchCategories`: without a session the list is emptied; otherwise
        the list becomes the fetched one, or stays as it was when the request
        threw. Loading is over either way. */
    method Load(fetched: Option<seq<Category>>)
      modifies this`categories, this`isLoading
      ensures !isLoading
      ensures session.None? ==> categories == []
      ensures session.Some? && fetched.Some? ==> categories == fetched.value
      ensures session.Some? && fetched.None? ==> categories == old(categories)
    {
      if session.None? {
        categories := [];
        isLoading := false;
        return;
      }
      isLoading := true;
      if fetched.Some? {
        categories := fetched.value;
      }
      isLoading := false;
    }

    /** `addCategory`. With no session it resolves to false at once;
        otherwise the outcome follows the server's reply. */
    method Add(name: string, kind: string, reply: Reply) returns (outcome: Outcome)
      modifies this`categories
      ensures session.None? ==> outcome == Resolved(false)
      ensures session.Some? ==> outcome == OutcomeOf(reply)
      ensures outcome == Resolved(true) <==> session.Some? && reply.Success?
      ensures outcome == Resolved(true) ==> categories == WithAdded(old(categories), reply.category)
      ensures outcome != Resolved(true) ==> categories == old(categories)
    {
      if session.None? {
        return Resolved(false);
      }
      if reply.Success? {
        categories := WithAdded(categories, reply.category);
      }
      outcome := OutcomeOf(reply);
    }

    /** `updateCategory`. With no session it resolves to false at once;
        otherwise the outcome follows the server's reply. */
    method Update(id: nat, newName: string, reply: Reply) returns (outcome: Outcome)
      modifies this`categories
      ensures session.None? ==> outcome == Resolved(false)
      ensures session.Some? ==> outcome == OutcomeOf(reply)
      ensures outcome == Resolved(true) <==> session.Some? && reply.Success?
      ensures outcome == Resolved(true) ==> categories == WithReplaced(old(categories), reply.category)
      ensures outcome != Resolved(true) ==> categories == old(categories)
    {
      if session.None? {
        return Resolved(false);
      }
      if reply.Success? {
        categories := WithReplaced(categories, reply.category);
      }
      outcome := OutcomeOf(reply);
    }

    /** `deleteCategory`; `responseOk` is false both for a non-ok answer and
        for a request that threw. */
    method Delete(id: nat, responseOk: bool) returns (ok: bool)
      modifies this`categories
      ensures ok <==> session.Some? && responseOk
      ensures ok ==> categories == WithoutCategory(old(categories), id)
      ensures !ok ==> categories == old(categories)
    {
      if session.None? {
        return false;
      }
      if responseOk {
        categories := WithoutCategory(categories, id);
        return true;
      } else {
        return false;
      }
    }
  }
}
