# Sequential approval workflow of the Document Management System

This project models the association logic of the Document Management System
backend, a FastAPI service over MongoDB, and proves properties of that model.
Each document has an ordered list of association records
`{user_id, approval_status, priority}`. Five request handlers work on these
lists:

- **associate** adds an unapproved record for a user. Its priority is one
  more than the largest positive priority already on the document, and 1
  when the document has no record with a positive priority (the running
  maximum starts from 0).
- **approve** marks every record of a user as approved.
- **disassociate** deletes the first record of a user.
- **associated users** lists a document's users with their approval status.
  It skips records whose user no longer exists.
- **associated documents** returns the documents a user may act on now. A
  user may act once every record with a strictly lower priority than the
  user's own is approved.

The model is in two modules:

- `Workflow` (`workflow.dfy`) holds the association-list logic as values:
  a datatype per record and a function per operation. Lemmas state what the
  operations promise about visibility, ordering, idempotence and round trips.
- `DocumentStore` (`store.dfy`) holds the handlers. A `Store` class has the
  documents collection as a field `documents: seq<Document>` (collection
  order) and the users collection as a field `users: map<UserId, User>`. The
  mutating handlers are methods that look the document and the user up and
  report which one is missing. Approve and disassociate change a copy of the
  association list with a loop and write the whole list back, as the source
  does with `$set`. Associate only loops to find the largest priority; the
  source then appends the new record with `$push`, and the model writes back
  the list with the record appended. The two agree as long as no other
  request writes the same document in between. The two read-only handlers
  are methods with loops that build their answer.
- Each method is proved equal to a specification function: the list
  operations of `Workflow` (`Associated`, `ApproveAll`, `RemoveFirst`,
  `Listing`, `MaxPriority`, `PriorityOf`, `ApprovedBelow`) and the
  collection-level functions of `DocumentStore` (`Check` for the error
  outcome, `WithAssocs` for the write-back, `VisibleDocuments` for the
  documents a user may act on).

The database is replaced by these two in-memory collections. `find_one` by id
is the first document with that id (`DocIndex`), and `update_one` replaces
that document's list (`WithAssocs`). Ids are opaque strings.

Facts about the code that the model keeps:

- The approval status is a boolean. A new record starts with `False`, not an
  unset "pending" state. No handler here rejects or resets a status.
- Priority is assigned automatically as `max(existing priorities) + 1`,
  starting from 0. The caller does not supply it.
- There is no explicit "priority 1 is always visible" branch. That outcome
  only follows from the strict `<` in the gate (`MinimumPriorityVisible`).
- The listing of a document's users carries the user record and the approval
  status only. It carries no priority.
- Nothing prevents a user from being associated twice. The gate uses the
  priority of the user's first record. Disassociate removes only that first
  record, and the duplicate survives (`RemoveFirstKeepsDuplicate`).

## Model

| member | source | states |
|---|---|---|
| `Workflow.HasUser` | DMS-Main.py:156 | the document query's filter: the list holds a record for the user. `FirstIndex` states that it holds exactly when the first-match index is inside the list |
| `Workflow.PriorityOf` | DMS-Main.py:158-162 | the user's priority is the priority of a record of that user with no earlier record of that user, the one the scan stops at |
| `Workflow.ApprovedBelow` | DMS-Main.py:164-169 | every record whose priority is strictly below the given one is approved; `AllApprovedBelow` is the scan proved equal to it |
| `Workflow.Visible` | DMS-Main.py:164-169 | the gate: every record strictly below the user's first-record priority is approved. Its properties are the visibility lemmas below |
| `Workflow.FirstIndex` | DMS-Main.py:158-162 | the index of the first record of a user: every earlier record belongs to someone else, and the index is the list length exactly when the user has no record |
| `Workflow.VisibleIgnoresNonPredecessors` | DMS-Main.py:164-169 | visibility for a user depends only on the approvals of records with priority strictly below the user's. Records with an equal or higher priority, ties included, never block |
| `Workflow.MinimumPriorityVisible` | DMS-Main.py:165-169 | a user whose priority is the smallest on the list always sees the document |
| `Workflow.VisibleInChain` | DMS-Main.py:164-169 | when priorities increase in list order, a user sees the document iff every record before the user's first record is approved |
| `Workflow.MaxPriority` | DMS-Main.py:94-97 | the scan result is at least 0, at least every priority, and either 0 or one of the priorities |
| `Workflow.Associated` | DMS-Main.py:99-103 | associate appends exactly one record at the end and keeps every existing record. The new record is unapproved, for the given user, and has a priority above every existing one: 1 when no existing priority is positive (an empty list included), otherwise one more than the largest existing priority |
| `Workflow.AssociatedIncreasing` | DMS-Main.py:94-103 | associate keeps priorities strictly increasing in list order |
| `Workflow.AssociatedNumbered` | DMS-Main.py:94-100 | associate continues the numbering 1, 2, 3, ... of a numbered list |
| `Workflow.AssociateAll` | DMS-Main.py:83-105 | repeated associate calls for a sequence of users; the list grows by one record per call |
| `Workflow.AssociateAllAppends` | DMS-Main.py:102-103 | repeated associate appends one unapproved record per call, in call order, after the unchanged old records |
| `Workflow.AssociateAllNumbers` | DMS-Main.py:94-100 | starting from a document with no associations, repeated associate gives priorities 1, 2, 3, ...: distinct and strictly increasing |
| `Workflow.AssociateKeepsVisibility` | DMS-Main.py:100-103 | appending a record leaves every existing user's priority and visibility unchanged |
| `Workflow.NewcomerVisibility` | DMS-Main.py:164-169 | a user associated for the first time sees the document iff every earlier record is approved |
| `Workflow.ApproveAll` | DMS-Main.py:139-141 | approve keeps length, order, users and priorities. Every record of the user becomes approved, because the loop has no break. Every other record keeps its status |
| `Workflow.ApproveIdempotent` | DMS-Main.py:139-141 | approving the same user twice gives the same list as approving once |
| `Workflow.ApproveAbsentNoOp` | DMS-Main.py:139-141 | approving a user who has no record leaves the list unchanged |
| `Workflow.ApproveIncreasing` | DMS-Main.py:139-141 | approve keeps priorities strictly increasing |
| `Workflow.ApproveKeepsVisible` | DMS-Main.py:139-141 | approval never hides a document: a user who saw it before still sees it, at the same priority |
| `Workflow.ApproveUnblocksNext` | DMS-Main.py:139-141 | in an increasing chain where everyone before position k has approved, approval by the user at k makes the document visible to the next user in the chain |
| `Workflow.RemoveFirst` | DMS-Main.py:192-195 | disassociate deletes only the first record of the user and keeps the rest in their order. The length drops by one when a record exists; otherwise the list is unchanged |
| `Workflow.RemoveFirstSplits` | DMS-Main.py:192-195 | the result is the part before the first record of the user followed by the part after it |
| `Workflow.RemoveFirstKeepsDuplicate` | DMS-Main.py:192-195 | a second record of the same user survives disassociate |
| `Workflow.RemoveFirstIncreasing` | DMS-Main.py:192-195 | disassociate keeps priorities strictly increasing |
| `Workflow.RemoveFirstKeepsFirstOf` | DMS-Main.py:192-195 | removing a record of one user keeps the first record of every other user as that user's first |
| `Workflow.RemoveFirstApprovedBelow` | DMS-Main.py:192-195 | removing a record keeps every remaining record below a priority approved |
| `Workflow.RemoveFirstKeepsVisible` | DMS-Main.py:192-195 | disassociating one user never hides the document from another user who saw it, and leaves that user's priority unchanged |
| `Workflow.Listing` | DMS-Main.py:115-122 | the listing has at most one entry per record. Every entry's user exists and carries that user's stored record |
| `Workflow.ListingComplete` | DMS-Main.py:117-122 | when every record's user exists, the listing has one entry per record, in list order, with that record's user and approval status |
| `Workflow.ListingConcat` | DMS-Main.py:117-122 | the listing of two lists one after the other is the two listings one after the other, for all inputs |
| `Workflow.ListingAt` | DMS-Main.py:117-122 | at any record, the listing is the entries of the records before it, then that record's own entry (present exactly when its user exists), then the entries of the records after it |
| `Workflow.ListingSkipsDangling` | DMS-Main.py:118-119 | a record whose user is missing contributes nothing: the listing equals that of the list without the record |
| `Workflow.ListingKeepsResolved` | DMS-Main.py:118-122 | a record whose user exists contributes exactly one entry, with that user's stored record and the record's approval status, in its list position |
| `Workflow.ListingAfterAssociate` | DMS-Main.py:117-122 | after associating an existing user, the listing gains exactly one entry at the end: that user, unapproved |
| `DocumentStore.DocIndex` | DMS-Main.py:85 | the position of the first document with the id, or the collection size exactly when none has it |
| `DocumentStore.WithAssocs` | DMS-Main.py:143 | writing a document's list back changes that document's list only. Ids, file paths and the other documents stay as they were, and ids stay distinct |
| `DocumentStore.AssocsOf` | DMS-Main.py:137 | the association list of the first document with the id, the one `find_one` returns |
| `DocumentStore.Check` | DMS-Main.py:85-91 | a mutating handler proceeds iff both the document and the user exist. It reports a missing document first, then a missing user |
| `DocumentStore.VisibleDocuments` | DMS-Main.py:154-174 | a document is among the results iff it is in the collection, has a record for the user and passes the user's gate. There are never more results than documents |
| `DocumentStore.Gate` | DMS-Main.py:156-171 | a document is returned when it has a record for the user (the query) and passes the user's gate (the `all_approved` flag) |
| `DocumentStore.VisibleDocumentsConcat` | DMS-Main.py:156-174 | the visible documents of two collections one after the other are the two results one after the other, so the result keeps collection order |
| `DocumentStore.VisibleDocumentsDistinct` | DMS-Main.py:156-174 | with distinct document ids, each document appears at most once among the results |
| `DocumentStore.ApproveKeepsGate` | DMS-Main.py:139-143 | approving any user never removes a document from what another user may act on |
| `DocumentStore.ScanMaxPriority` | DMS-Main.py:94-97 | the running-maximum loop computes the largest priority, starting from 0 |
| `DocumentStore.FirstPriority` | DMS-Main.py:158-162 | the scan that stops at the first match returns the priority of the user's first record |
| `DocumentStore.AllApprovedBelow` | DMS-Main.py:165-169 | the scan that stops at the first blocker returns true iff every record strictly below the priority is approved |
| `DocumentStore.Store.constructor` | DMS-Main.py:13-16 | the store starts with the given users and documents collections, whose document ids are distinct |
| `DocumentStore.Store.Associate` | DMS-Main.py:83-105 | on a missing document or user, reports which and changes nothing. Otherwise it replaces that document's list by the associated list and leaves every other document and the users alone. Keeps ids distinct and keeps increasing chains increasing |
| `DocumentStore.Store.Approve` | DMS-Main.py:127-145 | the same error cases. Otherwise it replaces the document's list by the approved list and changes nothing else |
| `DocumentStore.Store.Disassociate` | DMS-Main.py:180-199 | the same error cases. Otherwise it replaces the document's list by the list without the user's first record. A user with no record leaves it unchanged and the handler still succeeds |
| `DocumentStore.Store.AssociatedUsers` | DMS-Main.py:109-124 | reports a missing document. Otherwise it returns the listing of the document's records, skipping records whose user is missing |
| `DocumentStore.Store.AssociatedDocuments` | DMS-Main.py:148-176 | reports a missing user. Otherwise it returns, in collection order, exactly the documents that have a record for the user and pass the user's gate, with distinct ids |

## Left out

- HTTP routing, status codes and the confirmation message strings are transport concerns. The model returns a plain outcome naming the missing entity.
- `get_everything` and its `print` are left out, because they only list database names.
- The MongoDB client and its query operators (`find`, `find_one`, `$push`, `$set`) are replaced by the two in-memory collections.
- Ids are opaque strings. The handlers parse them with `ObjectId(...)`, and that parsing, with the exception it raises on a malformed id, is not modelled.
- The documents query by associated user becomes the `HasUser` test on each document in collection order.
- Converting `_id` to text in answers is not modelled. A listed user carries its id as a field.
- File upload, file listing and file deletion on the filesystem are left out as I/O. So is the upload timestamp, which is nondeterministic. Documents therefore enter the model only through the store's constructor.
- Bulk user import and user listing are left out, because they pass straight through to the database. Users enter the model only through the constructor.
- `DocumentStore.Store.Associate` writes back the list with the new record appended, where the source appends with `$push`. The two give the same document only when no other request writes that document in between, which holds because concurrency is not modelled.
- Concurrency is not modelled. Two approve or disassociate requests on the same document can both read the list and overwrite each other's write. Each method here runs alone.
- The gate's "no priority found" case is not reached. The documents query only returns documents with a record for the user, so `FirstPriority` requires such a record.
