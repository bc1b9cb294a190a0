/**
  The five association handlers of the document-management backend over an
  in-memory store: the documents collection (in collection order) and the
  users collection (keyed by id). Approve and disassociate read a document's
  association list, change it step by step and write the whole list back, as
  the handlers do with `$set`. Associate scans the list for its largest
  priority and writes back the list with one record appended, which is what
  the handler's `$push` leaves in the database.
 */
module DocumentStore {
  import opened Workflow

  /** A document's metadata: its id, the stored file's path and its association list. */
  datatype Document = Document(id: DocId, filePath: string, assocs: seq<Assoc>)

  /** Which referenced entity was missing (the handlers' 404 answers). */
  datatype NotFound = DocumentNotFound | UserNotFound

  /** Outcome of a handler that only confirms. */
  datatype Outcome = Pass | Fail(error: NotFound)

  /** Outcome of a handler that answers with a value. */
  datatype Result<T> = Success(value: T) | Failure(error: NotFound)

  // ---------------------------------------------------------------------------
  // The documents collection
  // ---------------------------------------------------------------------------

  /** Document ids are unique in the collection. */
  predicate DistinctIds(docs: seq<Document>)
  {
    forall i, j :: 0 <= i < j < |docs| ==> docs[i].id != docs[j].id
  }

  /** The collection holds a document with this id. */
  predicate HasDoc(docs: seq<Document>, id: DocId)
  {
    exists i :: 0 <= i < |docs| && docs[i].id == id
  }

  /** Position of the first document with this id, or `|docs|` (a point lookup by id). */
  function DocIndex(docs: seq<Document>, id: DocId): (k: nat)
    ensures k <= |docs|
    ensures k < |docs| ==> docs[k].id == id
    ensures forall i :: 0 <= i < k ==> docs[i].id != id
    ensures k < |docs| <==> HasDoc(docs, id)
  {
    if docs == [] then 0
    else if docs[0].id == id then 0
    else 1 + DocIndex(docs[1..], id)
  }

  /** The first-match characterisation determines the position. */
  lemma DocIndexUnique(docs: seq<Document>, id: DocId, k: nat)
    requires k <= |docs|
    requires k < |docs| ==> docs[k].id == id
    requires forall i :: 0 <= i < k ==> docs[i].id != id
    ensures DocIndex(docs, id) == k
  {
  }

  /** The collection with the association list of document `id` replaced by `l`. */
  function WithAssocs(docs: seq<Document>, id: DocId, l: seq<Assoc>): (r: seq<Document>)
    requires HasDoc(docs, id)
    ensures |r| == |docs|
    ensures DocIndex(r, id) == DocIndex(docs, id) && r[DocIndex(docs, id)].assocs == l
    ensures forall i :: 0 <= i < |docs| ==> r[i].id == docs[i].id && r[i].filePath == docs[i].filePath
    ensures forall i :: 0 <= i < |docs| && i != DocIndex(docs, id) ==> r[i] == docs[i]
    ensures DistinctIds(docs) ==> DistinctIds(r)
  {
    var k := DocIndex(docs, id);
    var r := docs[k := docs[k].(assocs := l)];
    DocIndexUnique(r, id, k);
    r
  }

  /** Every document's priorities increase in list order (what Associate alone produces). */
  predicate AllIncreasing(docs: seq<Document>)
  {
    forall i :: 0 <= i < |docs| ==> Increasing(docs[i].assocs)
  }

  /** Replacing one list by an increasing one keeps every list increasing. */
  lemma WithAssocsIncreasing(docs: seq<Document>, id: DocId, l: seq<Assoc>)
    requires HasDoc(docs, id) && AllIncreasing(docs) && Increasing(l)
    ensures AllIncreasing(WithAssocs(docs, id, l))
  {
    var r := WithAssocs(docs, id, l);
    forall i | 0 <= i < |r| ensures Increasing(r[i].assocs) {
      if i != DocIndex(docs, id) {
        assert r[i] == docs[i];
      }
    }
  }

  /** The association list of document `id`. */
  function AssocsOf(docs: seq<Document>, id: DocId): (l: seq<Assoc>)
    requires HasDoc(docs, id)
    ensures exists k :: 0 <= k < |docs| && docs[k].id == id && docs[k].assocs == l &&
                        forall i :: 0 <= i < k ==> docs[i].id != id
  {
    docs[DocIndex(docs, id)].assocs
  }

  /** The error a mutating handler reports: the document is checked first, then the user. */
  function Check(docs: seq<Document>, users: map<UserId, User>, docId: DocId, userId: UserId): (r: Outcome)
    ensures r == Pass <==> HasDoc(docs, docId) && userId in users
    ensures r == Fail(DocumentNotFound) <==> !HasDoc(docs, docId)
  {
    if !HasDoc(docs, docId) then Fail(DocumentNotFound)
    else if userId !in users then Fail(UserNotFound)
    else Pass
  }

  // ---------------------------------------------------------------------------
  // The documents a user may act on
  // ---------------------------------------------------------------------------

  /** The document has a record for `u` and passes `u`'s visibility gate. */
  predicate Gate(d: Document, u: UserId)
  {
    HasUser(d.assocs, u) && Visible(d.assocs, u)
  }

  /** The documents passing `u`'s gate, in collection order. */
  function VisibleDocuments(docs: seq<Document>, u: UserId): (r: seq<Document>)
    ensures |r| <= |docs|
    ensures forall d :: d in r <==> d in docs && Gate(d, u)
  {
    if docs == [] then []
    else
      var front := docs[..|docs| - 1];
      var d := docs[|docs| - 1];
      assert docs == front + [d];
      VisibleDocuments(front, u) + (if Gate(d, u) then [d] else [])
  }

  /** The visible documents of two collections one after the other, in that order: collection order is kept. */
  lemma {:induction false} VisibleDocumentsConcat(a: seq<Document>, b: seq<Document>, u: UserId)
    ensures VisibleDocuments(a + b, u) == VisibleDocuments(a, u) + VisibleDocuments(b, u)
    decreases |b|
  {
    if b == [] {
      assert a + b == a;
    } else {
      var b' := b[..|b| - 1];
      assert (a + b)[..|a + b| - 1] == a + b';
      assert (a + b)[|a + b| - 1] == b[|b| - 1];
      VisibleDocumentsConcat(a, b', u);
    }
  }

  /** Each document appears at most once among the visible ones. */
  lemma {:induction false} VisibleDocumentsDistinct(docs: seq<Document>, u: UserId)
    requires DistinctIds(docs)
    ensures DistinctIds(VisibleDocuments(docs, u))
  {
    if docs != [] {
      var front := docs[..|docs| - 1];
      var d := docs[|docs| - 1];
      assert DistinctIds(front) by {
        forall i, j | 0 <= i < j < |front| ensures front[i].id != front[j].id {
          assert front[i] == docs[i] && front[j] == docs[j];
        }
      }
      VisibleDocumentsDistinct(front, u);
      var r := VisibleDocuments(docs, u);
      var rf := VisibleDocuments(front, u);
      if Gate(d, u) {
        forall e | e in rf ensures e.id != d.id {
          var i :| 0 <= i < |front| && front[i] == e;
          assert docs[i] == e;
        }
        forall i, j | 0 <= i < j < |r| ensures r[i].id != r[j].id {
          if j == |rf| {
            assert r[i] == rf[i] && r[i] in rf;
          } else {
            assert r[i] == rf[i] && r[j] == rf[j];
          }
        }
      }
    }
  }

  /** Approving a user never removes a document from what another user may act on. */
  lemma ApproveKeepsGate(d: Document, u: UserId, v: UserId)
    requires Gate(d, v)
    ensures Gate(d.(assocs := ApproveAll(d.assocs, u)), v)
  {
    ApproveKeepsVisible(d.assocs, u, v);
  }

  // ---------------------------------------------------------------------------
  // The scans over one association list
  // ---------------------------------------------------------------------------

  /** The running maximum of the priorities, starting from 0. */
  method ScanMaxPriority(l: seq<Assoc>) returns (maxPriority: int)
    ensures maxPriority == MaxPriority(l)
  {
    maxPriority := 0;
    var i := 0;
    while i < |l|
      invariant 0 <= i <= |l|
      invariant maxPriority == MaxPriority(l[..i])
    {
      assert l[..i + 1][..i] == l[..i];
      if l[i].priority > maxPriority {
        maxPriority := l[i].priority;
      }
      i := i + 1;
    }
    assert l[..i] == l;
  }

  // ---------------------------------------------------------------------------
  // The two loops of the visibility gate
  // ---------------------------------------------------------------------------

  /** The priority of the first record of `u`, found by a scan that stops at the first match. */
  method FirstPriority(l: seq<Assoc>, u: UserId) returns (p: int)
    requires HasUser(l, u)
    ensures p == PriorityOf(l, u)
  {
    var i := 0;
    while i < |l|
      invariant 0 <= i <= FirstIndex(l, u)
    {
      if l[i].userId == u {
        p := l[i].priority;
        return;
      }
      i := i + 1;
    }
    assert false;
  }

  /** Whether every record below priority `p` is approved; the scan stops at the first blocker. */
  method AllApprovedBelow(l: seq<Assoc>, p: int) returns (allApproved: bool)
    ensures allApproved <==> ApprovedBelow(l, p)
  {
    allApproved := true;
    var i := 0;
    while i < |l|
      invariant 0 <= i <= |l|
      invariant forall j :: 0 <= j < i && l[j].priority < p ==> l[j].approved
    {
      if l[i].priority < p && !l[i].approved {
        allApproved := false;
        break;
      }
      i := i + 1;
    }
  }

  // ---------------------------------------------------------------------------
  // The store
  // ---------------------------------------------------------------------------

  class Store {
    /** The documents collection, in collection order. */
    var documents: seq<Document>
    /** The users collection, keyed by id. */
    var users: map<UserId, User>

    ghost predicate Valid()
      reads this
    {
      DistinctIds(documents)
    }

    /** Every document's priorities increase in list order. */
    ghost predicate ChainOrdered()
      reads this
    {
      AllIncreasing(documents)
    }

    constructor (users0: map<UserId, User>, documents0: seq<Document>)
      requires DistinctIds(documents0)
      ensures Valid()
      ensures users == users0 && documents == documents0
    {
      users := users0;
      documents := documents0;
    }

    /** Associate a user with a document: append an unapproved record one above the largest priority. */
    method Associate(docId: DocId, userId: UserId) returns (r: Outcome)
      requires Valid()
      modifies this
      ensures Valid() && users == old(users)
      ensures r == Check(old(documents), users, docId, userId)
      ensures r.Fail? ==> documents == old(documents)
      ensures r.Pass? ==> documents == WithAssocs(old(documents), docId, Associated(AssocsOf(old(documents), docId), userId))
      ensures old(ChainOrdered()) ==> ChainOrdered()
    {
      var k := DocIndex(documents, docId);
      if k == |documents| {
        return Fail(DocumentNotFound);
      }
      if userId !in users {
        return Fail(UserNotFound);
      }
      var list := documents[k].assocs;
      var maxPriority := ScanMaxPriority(list);
      var priority := maxPriority + 1;
      var newList := list + [Assoc(userId, false, priority)];
      assert newList == Associated(list, userId);
      if AllIncreasing(documents) {
        AssociatedIncreasing(list, userId);
        WithAssocsIncreasing(documents, docId, newList);
      }
      documents := WithAssocs(documents, docId, newList);
      r := Pass;
    }

    /** Approve a document for a user: every record of that user becomes approved. */
    method Approve(docId: DocId, userId: UserId) returns (r: Outcome)
      requires Valid()
      modifies this
      ensures Valid() && users == old(users)
      ensures r == Check(old(documents), users, docId, userId)
      ensures r.Fail? ==> documents == old(documents)
      ensures r.Pass? ==> documents == WithAssocs(old(documents), docId, ApproveAll(AssocsOf(old(documents), docId), userId))
      ensures old(ChainOrdered()) ==> ChainOrdered()
    {
      var k := DocIndex(documents, docId);
      if k == |documents| {
        return Fail(DocumentNotFound);
      }
      if userId !in users {
        return Fail(UserNotFound);
      }
      var list := documents[k].assocs;
      ghost var before := list;
      var i := 0;
      while i < |list|
        invariant 0 <= i <= |list| && |list| == |before|
        invariant forall j :: 0 <= j < i ==> list[j] == ApproveAll(before, userId)[j]
        invariant forall j :: i <= j < |list| ==> list[j] == before[j]
      {
        if list[i].userId == userId {
          list := list[i := list[i].(approved := true)];
        }
        i := i + 1;
      }
      assert list == ApproveAll(before, userId);
      if AllIncreasing(documents) {
        ApproveIncreasing(before, userId);
        WithAssocsIncreasing(documents, docId, list);
      }
      documents := WithAssocs(documents, docId, list);
      r := Pass;
    }

    /** Disassociate a user from a document: only the first record of that user is deleted. */
    method Disassociate(docId: DocId, userId: UserId) returns (r: Outcome)
      requires Valid()
      modifies this
      ensures Valid() && users == old(users)
      ensures r == Check(old(documents), users, docId, userId)
      ensures r.Fail? ==> documents == old(documents)
      ensures r.Pass? ==> documents == WithAssocs(old(documents), docId, RemoveFirst(AssocsOf(old(documents), docId), userId))
      ensures old(ChainOrdered()) ==> ChainOrdered()
    {
      var k := DocIndex(documents, docId);
      if k == |documents| {
        return Fail(DocumentNotFound);
      }
      if userId !in users {
        return Fail(UserNotFound);
      }
      var list := documents[k].assocs;
      ghost var before := list;
      var i := 0;
      while i < |list|
        invariant 0 <= i <= |list| && list == before
        invariant forall j :: 0 <= j < i ==> list[j].userId != userId
      {
        if list[i].userId == userId {
          FirstIndexUnique(before, userId, i);
          RemoveFirstSplits(before, userId);
          list := list[..i] + list[i + 1..];
          break;
        }
        i := i + 1;
      }
      assert list == RemoveFirst(before, userId);
      if AllIncreasing(documents) {
        RemoveFirstIncreasing(before, userId);
        WithAssocsIncreasing(documents, docId, list);
      }
      documents := WithAssocs(documents, docId, list);
      r := Pass;
    }

    /** The users of a document, in list order, with each record's approval status. */
    method AssociatedUsers(docId: DocId) returns (r: Result<seq<AssociatedUser>>)
      ensures !HasDoc(documents, docId) ==> r == Failure(DocumentNotFound)
      ensures HasDoc(documents, docId) ==> r == Success(Listing(AssocsOf(documents, docId), users))
    {
      var k := DocIndex(documents, docId);
      if k == |documents| {
        return Failure(DocumentNotFound);
      }
      var list := documents[k].assocs;
      var listed := [];
      var i := 0;
      while i < |list|
        invariant 0 <= i <= |list|
        invariant listed == Listing(list[..i], users)
      {
        assert list[..i + 1][..i] == list[..i];
        var a := list[i];
        if a.userId in users {
          listed := listed + [AssociatedUser(a.userId, users[a.userId], a.approved)];
        }
        i := i + 1;
      }
      assert list[..i] == list;
      r := Success(listed);
    }

    /** The documents a user may act on now, in collection order. */
    method AssociatedDocuments(userId: UserId) returns (r: Result<seq<Document>>)
      requires Valid()
      ensures userId !in users ==> r == Failure(UserNotFound)
      ensures userId in users ==> r == Success(VisibleDocuments(documents, userId))
      ensures r.Success? ==> DistinctIds(r.value)
    {
      if userId !in users {
        return Failure(UserNotFound);
      }
      var found := [];
      var i := 0;
      while i < |documents|
        invariant 0 <= i <= |documents|
        invariant found == VisibleDocuments(documents[..i], userId)
      {
        assert documents[..i + 1][..i] == documents[..i];
        var d := documents[i];
        if HasUser(d.assocs, userId) {
          var p := FirstPriority(d.assocs, userId);
          var allApproved := AllApprovedBelow(d.assocs, p);
          if allApproved {
            found := found + [d];
          }
        }
        i := i + 1;
      }
      assert documents[..i] == documents;
      VisibleDocumentsDistinct(documents, userId);
      r := Success(found);
    }
  }
}
