/**
  The sequential approval workflow of the document-management backend, on
  values: a document's ordered list of association records and the
  operations the request handlers perform on it.

  A record links one user to one document with a priority (lower runs
  earlier in the approval chain) and a boolean approval status. A user may
  act on a document once every record with a strictly lower priority is
  approved.
 */
module Workflow {

  /** Identifiers are opaque strings (the hexadecimal text of a database id). */
  type UserId = string
  type DocId = string

  /** A user record as it is imported in bulk; read-only in this model. */
  datatype User = User(name: string, designation: string, office: string, email: string, password: string)

  /** One association record `{user_id, approval_status, priority}`. */
  datatype Assoc = Assoc(userId: UserId, approved: bool, priority: int)

  /** One entry of the listing of a document's users: the resolved user and the record's status. */
  datatype AssociatedUser = AssociatedUser(id: UserId, user: User, approved: bool)

  // ---------------------------------------------------------------------------
  // Lookup of a user's records
  // ---------------------------------------------------------------------------

  /** The list holds at least one record for `u`. */
  predicate HasUser(l: seq<Assoc>, u: UserId)
  {
    exists i :: 0 <= i < |l| && l[i].userId == u
  }

  /** Position of the first record for `u`, or `|l|` when there is none. */
  function FirstIndex(l: seq<Assoc>, u: UserId): (k: nat)
    ensures k <= |l|
    ensures k < |l| ==> l[k].userId == u
    ensures forall i :: 0 <= i < k ==> l[i].userId != u
    ensures k < |l| <==> HasUser(l, u)
  {
    FirstIndexFrom(l, u, 0)
  }

  /** Position of the first record for `u` at or after `from`, or `|l|`. */
  function FirstIndexFrom(l: seq<Assoc>, u: UserId, from: nat): (k: nat)
    requires from <= |l|
    ensures from <= k <= |l|
    ensures k < |l| ==> l[k].userId == u
    ensures forall i :: from <= i < k ==> l[i].userId != u
    decreases |l| - from
  {
    if from == |l| then from
    else if l[from].userId == u then from
    else FirstIndexFrom(l, u, from + 1)
  }

  /** The first-match characterisation determines the index. */
  lemma FirstIndexUnique(l: seq<Assoc>, u: UserId, k: nat)
    requires k <= |l|
    requires k < |l| ==> l[k].userId == u
    requires forall i :: 0 <= i < k ==> l[i].userId != u
    ensures FirstIndex(l, u) == k
  {
  }

  /** Two lists with the same users at the same positions have the same first match. */
  lemma FirstIndexSameUsers(l: seq<Assoc>, m: seq<Assoc>, u: UserId)
    requires |l| == |m|
    requires forall i :: 0 <= i < |l| ==> l[i].userId == m[i].userId
    ensures FirstIndex(l, u) == FirstIndex(m, u)
  {
    FirstIndexUnique(m, u, FirstIndex(l, u));
  }

  /** The priority of the first record for `u`: the user's place in the chain. */
  function PriorityOf(l: seq<Assoc>, u: UserId): (p: int)
    requires HasUser(l, u)
    ensures exists k :: 0 <= k < |l| && l[k].userId == u && l[k].priority == p &&
                        forall i :: 0 <= i < k ==> l[i].userId != u
  {
    l[FirstIndex(l, u)].priority
  }

  // ---------------------------------------------------------------------------
  // The visibility gate
  // ---------------------------------------------------------------------------

  /** Every record whose priority is strictly below `p` is approved. */
  predicate ApprovedBelow(l: seq<Assoc>, p: int)
  {
    forall i :: 0 <= i < |l| && l[i].priority < p ==> l[i].approved
  }

  /** The document is actionable for `u`: everyone scheduled strictly ahead of `u` approved. */
  predicate Visible(l: seq<Assoc>, u: UserId)
    requires HasUser(l, u)
  {
    ApprovedBelow(l, PriorityOf(l, u))
  }

  /** Priorities strictly increase in list order (the shape Associate builds). */
  predicate Increasing(l: seq<Assoc>)
  {
    forall i, j :: 0 <= i < j < |l| ==> l[i].priority < l[j].priority
  }

  /**
    Only the records strictly below `u`'s priority matter: two lists that
    agree on users and priorities, and on approvals below that priority,
    give `u` the same visibility. In particular a record whose priority
    equals `u`'s never blocks `u`.
   */
  lemma VisibleIgnoresNonPredecessors(l: seq<Assoc>, m: seq<Assoc>, u: UserId)
    requires HasUser(l, u)
    requires |l| == |m|
    requires forall i :: 0 <= i < |l| ==> l[i].userId == m[i].userId && l[i].priority == m[i].priority
    requires forall i :: 0 <= i < |l| && l[i].priority < PriorityOf(l, u) ==> l[i].approved == m[i].approved
    ensures HasUser(m, u) && PriorityOf(m, u) == PriorityOf(l, u)
    ensures Visible(m, u) <==> Visible(l, u)
  {
    FirstIndexSameUsers(l, m, u);
  }

  /** A user holding the smallest priority of the list always sees the document. */
  lemma MinimumPriorityVisible(l: seq<Assoc>, u: UserId)
    requires HasUser(l, u)
    requires forall i :: 0 <= i < |l| ==> PriorityOf(l, u) <= l[i].priority
    ensures Visible(l, u)
  {
  }

  /** In an increasing chain the records below position `k`'s priority are exactly those before `k`. */
  lemma PredecessorsBefore(l: seq<Assoc>, k: nat)
    requires Increasing(l) && k < |l|
    ensures forall i :: 0 <= i < |l| ==> (l[i].priority < l[k].priority <==> i < k)
  {
  }

  /**
    In a chain built by Associate (priorities increasing in list order) the
    gate is positional: `u` sees the document exactly when every record
    before `u`'s first record is approved.
   */
  lemma VisibleInChain(l: seq<Assoc>, u: UserId)
    requires Increasing(l)
    requires HasUser(l, u)
    ensures Visible(l, u) <==> forall i :: 0 <= i < FirstIndex(l, u) ==> l[i].approved
  {
    PredecessorsBefore(l, FirstIndex(l, u));
  }

  // ---------------------------------------------------------------------------
  // Associate: append a record at the end of the chain
  // ---------------------------------------------------------------------------

  /** The largest priority in the list, or 0 when none is positive (the loop starts from 0). */
  function MaxPriority(l: seq<Assoc>): (m: int)
    ensures 0 <= m
    ensures forall i :: 0 <= i < |l| ==> l[i].priority <= m
    ensures m == 0 || exists i :: 0 <= i < |l| && l[i].priority == m
  {
    if l == [] then 0
    else
      var m' := MaxPriority(l[..|l| - 1]);
      assert forall i :: 0 <= i < |l| - 1 ==> l[..|l| - 1][i] == l[i];
      if l[|l| - 1].priority > m' then l[|l| - 1].priority else m'
  }

  /** The list after associating `u`: one unapproved record for `u` after all others. */
  function Associated(l: seq<Assoc>, u: UserId): (r: seq<Assoc>)
    ensures |r| == |l| + 1 && r[..|l|] == l
    ensures r[|l|].userId == u && !r[|l|].approved
    ensures r[|l|].priority >= 1
    ensures forall i :: 0 <= i < |l| ==> l[i].priority < r[|l|].priority
    ensures r[|l|].priority == 1 || exists i :: 0 <= i < |l| && l[i].priority == r[|l|].priority - 1
  {
    l + [Assoc(u, false, MaxPriority(l) + 1)]
  }

  /** Associate keeps a chain increasing. */
  lemma AssociatedIncreasing(l: seq<Assoc>, u: UserId)
    requires Increasing(l)
    ensures Increasing(Associated(l, u))
  {
    var r := Associated(l, u);
    forall i, j | 0 <= i < j < |r| ensures r[i].priority < r[j].priority {
      assert r[i] == l[i];
      if j < |l| { assert r[j] == l[j]; }
    }
  }

  /** Associating users one after another, as repeated calls do. */
  function AssociateAll(l: seq<Assoc>, us: seq<UserId>): (r: seq<Assoc>)
    ensures |r| == |l| + |us|
    decreases |us|
  {
    if us == [] then l else AssociateAll(Associated(l, us[0]), us[1..])
  }

  /** Priorities are 1, 2, 3, ... in list order. */
  predicate Numbered(l: seq<Assoc>)
  {
    forall i :: 0 <= i < |l| ==> l[i].priority == i + 1
  }

  /** Associate continues the numbering 1, 2, 3, ... */
  lemma AssociatedNumbered(l: seq<Assoc>, u: UserId)
    requires Numbered(l)
    ensures Numbered(Associated(l, u))
  {
    var r := Associated(l, u);
    if |l| > 0 {
      assert l[|l| - 1].priority == |l|;
      var i :| 0 <= i < |l| && l[i].priority == r[|l|].priority - 1;
    }
    forall i | 0 <= i < |l| ensures r[i] == l[i] {
      assert r[..|l|][i] == r[i];
    }
  }

  /** Repeated Associate appends one unapproved record per call, in call order, after the old records. */
  lemma {:induction false} AssociateAllAppends(l: seq<Assoc>, us: seq<UserId>)
    ensures |AssociateAll(l, us)| == |l| + |us|
    ensures AssociateAll(l, us)[..|l|] == l
    ensures forall i :: 0 <= i < |us| ==>
      AssociateAll(l, us)[|l| + i].userId == us[i] && !AssociateAll(l, us)[|l| + i].approved
    decreases |us|
  {
    if us != [] {
      var l' := Associated(l, us[0]);
      AssociateAllAppends(l', us[1..]);
      var r := AssociateAll(l, us);
      assert r == AssociateAll(l', us[1..]);
      assert r[..|l|] == r[..|l'|][..|l|];
      forall i | 0 <= i < |us| ensures r[|l| + i].userId == us[i] && !r[|l| + i].approved {
        if i == 0 {
          assert r[|l|] == r[..|l'|][|l|];
        } else {
          assert r[|l| + i] == r[|l'| + (i - 1)];
          assert us[1..][i - 1] == us[i];
        }
      }
    }
  }

  /**
    Starting from a document with no associations (or any numbered list),
    repeated Associate numbers the records 1, 2, 3, ...: the priorities are
    distinct and strictly increasing.
   */
  lemma {:induction false} AssociateAllNumbers(l: seq<Assoc>, us: seq<UserId>)
    requires Numbered(l)
    ensures Numbered(AssociateAll(l, us)) && Increasing(AssociateAll(l, us))
    decreases |us|
  {
    if us != [] {
      AssociatedNumbered(l, us[0]);
      AssociateAllNumbers(Associated(l, us[0]), us[1..]);
    }
  }

  /** A record appended by Associate does not change visibility for any user already on the list. */
  lemma AssociateKeepsVisibility(l: seq<Assoc>, u: UserId, v: UserId)
    requires HasUser(l, v)
    ensures HasUser(Associated(l, u), v)
    ensures PriorityOf(Associated(l, u), v) == PriorityOf(l, v)
    ensures Visible(Associated(l, u), v) <==> Visible(l, v)
  {
    var r := Associated(l, u);
    var k := FirstIndex(l, v);
    assert r[k] == l[k];
    FirstIndexUnique(r, v, k);
  }

  /** A user associated for the first time sees the document iff every earlier record is approved. */
  lemma NewcomerVisibility(l: seq<Assoc>, u: UserId)
    requires !HasUser(l, u)
    ensures HasUser(Associated(l, u), u)
    ensures Visible(Associated(l, u), u) <==> forall i :: 0 <= i < |l| ==> l[i].approved
  {
    var r := Associated(l, u);
    FirstIndexUnique(r, u, |l|);
    if Visible(r, u) {
      forall i | 0 <= i < |l| ensures l[i].approved {
        assert r[i] == l[i];
      }
    }
  }

  // ---------------------------------------------------------------------------
  // Approve: set the status of every record of a user
  // ---------------------------------------------------------------------------

  /** The list after approving `u`: every record of `u` approved, nothing else touched. */
  function ApproveAll(l: seq<Assoc>, u: UserId): (r: seq<Assoc>)
    ensures |r| == |l|
    ensures forall i :: 0 <= i < |l| ==>
      r[i].userId == l[i].userId && r[i].priority == l[i].priority &&
      r[i].approved == (l[i].approved || l[i].userId == u)
  {
    if l == [] then []
    else
      var a := l[|l| - 1];
      var front := ApproveAll(l[..|l| - 1], u);
      assert forall i :: 0 <= i < |l| - 1 ==> l[..|l| - 1][i] == l[i];
      front + [if a.userId == u then a.(approved := true) else a]
  }

  /** Approving twice is the same as approving once. */
  lemma ApproveIdempotent(l: seq<Assoc>, u: UserId)
    ensures ApproveAll(ApproveAll(l, u), u) == ApproveAll(l, u)
  {
    var once := ApproveAll(l, u);
    var twice := ApproveAll(once, u);
    forall i | 0 <= i < |l| ensures twice[i] == once[i] {
      assert twice[i].approved == once[i].approved;
    }
  }

  /** Approving a user with no record changes nothing. */
  lemma ApproveAbsentNoOp(l: seq<Assoc>, u: UserId)
    requires !HasUser(l, u)
    ensures ApproveAll(l, u) == l
  {
    var r := ApproveAll(l, u);
    forall i | 0 <= i < |l| ensures r[i] == l[i] {
      assert l[i].userId != u;
    }
  }

  /** Approve keeps a chain increasing. */
  lemma ApproveIncreasing(l: seq<Assoc>, u: UserId)
    requires Increasing(l)
    ensures Increasing(ApproveAll(l, u))
  {
  }

  /** Approval never hides a document: whoever saw it before still sees it. */
  lemma ApproveKeepsVisible(l: seq<Assoc>, u: UserId, v: UserId)
    requires HasUser(l, v) && Visible(l, v)
    ensures HasUser(ApproveAll(l, u), v)
    ensures PriorityOf(ApproveAll(l, u), v) == PriorityOf(l, v)
    ensures Visible(ApproveAll(l, u), v)
  {
    FirstIndexSameUsers(l, ApproveAll(l, u), v);
  }

  /**
    The sequential hand-over: in a chain where everyone before position `k`
    has approved, approval by the user at `k` makes the document visible to
    the user at `k + 1` (whose first record that is).
   */
  lemma ApproveUnblocksNext(l: seq<Assoc>, k: nat)
    requires Increasing(l)
    requires k + 1 < |l|
    requires FirstIndex(l, l[k + 1].userId) == k + 1
    requires forall i :: 0 <= i < k ==> l[i].approved
    ensures HasUser(ApproveAll(l, l[k].userId), l[k + 1].userId)
    ensures Visible(ApproveAll(l, l[k].userId), l[k + 1].userId)
  {
    var u, v := l[k].userId, l[k + 1].userId;
    var r := ApproveAll(l, u);
    FirstIndexSameUsers(l, r, v);
    assert PriorityOf(r, v) == l[k + 1].priority;
    PredecessorsBefore(l, k + 1);
    forall i | 0 <= i < |r| && r[i].priority < l[k + 1].priority ensures r[i].approved {
      assert i < k + 1;
    }
  }

  // ---------------------------------------------------------------------------
  // Disassociate: delete the first record of a user
  // ---------------------------------------------------------------------------

  /** The list after disassociating `u`: its first record removed, the rest in order. */
  function RemoveFirst(l: seq<Assoc>, u: UserId): (r: seq<Assoc>)
    ensures FirstIndex(l, u) < |l| ==>
      (|r| == |l| - 1 && forall i :: 0 <= i < |r| ==> r[i] == l[if i < FirstIndex(l, u) then i else i + 1])
    ensures FirstIndex(l, u) == |l| ==> r == l
  {
    if l == [] then []
    else if l[0].userId == u then l[1..]
    else
      var rest := RemoveFirst(l[1..], u);
      FirstIndexUnique(l, u, 1 + FirstIndex(l[1..], u));
      [l[0]] + rest
  }

  /** Disassociate splits the list around the first record of `u` and keeps both sides. */
  lemma RemoveFirstSplits(l: seq<Assoc>, u: UserId)
    requires HasUser(l, u)
    ensures RemoveFirst(l, u) == l[..FirstIndex(l, u)] + l[FirstIndex(l, u) + 1..]
  {
    var k := FirstIndex(l, u);
    var r, s := RemoveFirst(l, u), l[..k] + l[k + 1..];
    forall i | 0 <= i < |r| ensures r[i] == s[i] {
      if i < k { assert s[i] == l[i]; } else { assert s[i] == l[k + 1..][i - k]; }
    }
  }

  /** A second record for the same user survives Disassociate. */
  lemma RemoveFirstKeepsDuplicate(l: seq<Assoc>, u: UserId, i: nat, j: nat)
    requires i < j < |l|
    requires l[i].userId == u && l[j].userId == u
    ensures HasUser(RemoveFirst(l, u), u)
  {
    var k := FirstIndex(l, u);
    var r := RemoveFirst(l, u);
    assert k <= i;
    assert r[j - 1] == l[j];
  }

  /** Disassociate keeps a chain increasing (it keeps a sub-sequence). */
  lemma RemoveFirstIncreasing(l: seq<Assoc>, u: UserId)
    requires Increasing(l)
    ensures Increasing(RemoveFirst(l, u))
  {
    var k := FirstIndex(l, u);
    if k < |l| {
      var r := RemoveFirst(l, u);
      forall i, j | 0 <= i < j < |r| ensures r[i].priority < r[j].priority {
        assert r[i] == l[if i < k then i else i + 1];
        assert r[j] == l[if j < k then j else j + 1];
      }
    }
  }

  /** Removing a record of `u` leaves the first record of any other user `v` in place as `v`'s first. */
  lemma RemoveFirstKeepsFirstOf(l: seq<Assoc>, u: UserId, v: UserId)
    requires u != v && HasUser(l, v)
    ensures HasUser(RemoveFirst(l, u), v)
    ensures RemoveFirst(l, u)[FirstIndex(RemoveFirst(l, u), v)] == l[FirstIndex(l, v)]
  {
    var k := FirstIndex(l, u);
    var kv := FirstIndex(l, v);
    var r := RemoveFirst(l, u);
    if k < |l| {
      var kr := if kv < k then kv else kv - 1;
      assert r[kr] == l[kv];
      forall i | 0 <= i < kr ensures r[i].userId != v {
        assert r[i] == l[if i < k then i else i + 1];
      }
      FirstIndexUnique(r, v, kr);
    }
  }

  /** Removing a record keeps every remaining record below `p` approved. */
  lemma RemoveFirstApprovedBelow(l: seq<Assoc>, u: UserId, p: int)
    requires ApprovedBelow(l, p)
    ensures ApprovedBelow(RemoveFirst(l, u), p)
  {
    var k := FirstIndex(l, u);
    var r := RemoveFirst(l, u);
    if k < |l| {
      forall i | 0 <= i < |r| && r[i].priority < p ensures r[i].approved {
        assert r[i] == l[if i < k then i else i + 1];
      }
    }
  }

  /** Removing another user's record never hides the document from `v`. */
  lemma RemoveFirstKeepsVisible(l: seq<Assoc>, u: UserId, v: UserId)
    requires u != v
    requires HasUser(l, v) && Visible(l, v)
    ensures HasUser(RemoveFirst(l, u), v)
    ensures PriorityOf(RemoveFirst(l, u), v) == PriorityOf(l, v)
    ensures Visible(RemoveFirst(l, u), v)
  {
    RemoveFirstKeepsFirstOf(l, u, v);
    RemoveFirstApprovedBelow(l, u, PriorityOf(l, v));
  }

  // ---------------------------------------------------------------------------
  // Listing the users of a document
  // ---------------------------------------------------------------------------

  /** One entry per record whose user exists, in list order; dangling records are skipped. */
  function Listing(l: seq<Assoc>, users: map<UserId, User>): (r: seq<AssociatedUser>)
    ensures |r| <= |l|
    ensures forall j :: 0 <= j < |r| ==> r[j].id in users && r[j].user == users[r[j].id]
  {
    if l == [] then []
    else Listing(l[..|l| - 1], users) + Resolve(l[|l| - 1], users)
  }

  /** The entry one record contributes: its resolved user and status, or nothing when the user is missing. */
  function Resolve(a: Assoc, users: map<UserId, User>): seq<AssociatedUser>
  {
    if a.userId in users then [AssociatedUser(a.userId, users[a.userId], a.approved)] else []
  }

  /** The listing of two lists one after the other is the two listings one after the other. */
  lemma {:induction false} ListingConcat(a: seq<Assoc>, b: seq<Assoc>, users: map<UserId, User>)
    ensures Listing(a + b, users) == Listing(a, users) + Listing(b, users)
    decreases |b|
  {
    if b == [] {
      assert a + b == a;
    } else {
      var b' := b[..|b| - 1];
      assert (a + b)[..|a + b| - 1] == a + b';
      assert (a + b)[|a + b| - 1] == b[|b| - 1];
      ListingConcat(a, b', users);
    }
  }

  /**
    The listing, seen at any record: the entries of the records before it,
    then that record's own entry (present exactly when its user exists), then
    the entries of the records after it.
   */
  lemma ListingAt(l: seq<Assoc>, users: map<UserId, User>, i: nat)
    requires i < |l|
    ensures Listing(l, users) == Listing(l[..i], users) + Resolve(l[i], users) + Listing(l[i + 1..], users)
  {
    assert l == l[..i] + [l[i]] + l[i + 1..];
    ListingConcat(l[..i] + [l[i]], l[i + 1..], users);
    ListingConcat(l[..i], [l[i]], users);
    assert [l[i]][..0] == [];
  }

  /** A record whose user is missing contributes nothing: the listing is that of the list without it. */
  lemma ListingSkipsDangling(l: seq<Assoc>, users: map<UserId, User>, i: nat)
    requires i < |l| && l[i].userId !in users
    ensures Listing(l, users) == Listing(l[..i] + l[i + 1..], users)
  {
    ListingAt(l, users, i);
    ListingConcat(l[..i], l[i + 1..], users);
  }

  /** A record whose user exists contributes exactly its entry, between the entries of its neighbours. */
  lemma ListingKeepsResolved(l: seq<Assoc>, users: map<UserId, User>, i: nat)
    requires i < |l| && l[i].userId in users
    ensures Listing(l, users) ==
      Listing(l[..i], users) + [AssociatedUser(l[i].userId, users[l[i].userId], l[i].approved)] + Listing(l[i + 1..], users)
  {
    ListingAt(l, users, i);
  }

  /** When every record's user exists the listing has one entry per record, position by position. */
  lemma {:induction false} ListingComplete(l: seq<Assoc>, users: map<UserId, User>)
    requires forall i :: 0 <= i < |l| ==> l[i].userId in users
    ensures |Listing(l, users)| == |l|
    ensures forall i :: 0 <= i < |l| ==>
      Listing(l, users)[i] == AssociatedUser(l[i].userId, users[l[i].userId], l[i].approved)
  {
    if l != [] {
      var front := l[..|l| - 1];
      forall i | 0 <= i < |front| ensures front[i] == l[i] && front[i].userId in users { }
      ListingComplete(front, users);
    }
  }

  /** Associate followed by a listing shows the new user last, with approval status false. */
  lemma ListingAfterAssociate(l: seq<Assoc>, users: map<UserId, User>, u: UserId)
    requires u in users
    ensures Listing(Associated(l, u), users) == Listing(l, users) + [AssociatedUser(u, users[u], false)]
  {
    var r := Associated(l, u);
    assert r[..|r| - 1] == l;
  }
}
