/** The request handlers. Login is a pure check of its input; the create,
    status-update and delete handlers change the shared table and are methods
    of ActivityRegistry, which owns it. A handler's outcome is either its
    result or the HTTP status code of the error it raises. */
module Api {
  import opened Database
  import opened Listing

  datatype Reply<T> = Ok(value: T) | Error(code: int)

  const BAD_REQUEST: int := 400
  const UNAUTHORIZED: int := 401
  const NOT_FOUND: int := 404
  const INTERNAL_ERROR: int := 500

  const ADMIN_PASSWORD: string := "1234"

  const ALLOWED_TYPES: seq<string> := ["image/jpeg", "image/png", "application/pdf"]

  /** The multipart file part: its client-declared name and content type
      (either may be absent) and its bytes. */
  datatype Upload = Upload(filename: Option<string>, contentType: Option<string>, content: seq<bv8>)

  /** The content-type test of the create handler: an absent type is not in the list. */
  predicate AllowedType(contentType: Option<string>) {
    contentType.Some? && contentType.value in ALLOWED_TYPES
  }

  /** POST /api/admin/login: success exactly for the fixed password, 401 otherwise. */
  function AdminLogin(password: string): (r: Reply<bool>)
    ensures r.Ok? <==> password == ADMIN_PASSWORD
    ensures r.Ok? ==> r.value
    ensures r.Error? ==> r.code == UNAUTHORIZED
  {
    if password == ADMIN_PASSWORD then Ok(true) else Error(UNAUTHORIZED)
  }

  class ActivityRegistry {
    var table: Table

    ghost predicate Valid()
      reads this
    {
      Database.Valid(table)
    }

    /** A freshly initialised database: the table exists and is empty. */
    constructor ()
      ensures Valid() && table == map[]
    {
      table := map[];
    }

    /** POST /api/requests. A disallowed or missing content type raises a 400
        inside the handler's try block; its catch-all rolls back and re-raises
        it as a 500, so the caller sees 500 and the table is unchanged.
        Otherwise one "pending" row is inserted under a fresh id, which is
        returned. */
    method CreateRequest(fullName: string, groupName: string, supervisor: string,
                         activity: string, file: Upload, now: nat) returns (r: Reply<int>)
      requires Valid()
      modifies this
      ensures Valid()
      ensures r.Ok? <==> AllowedType(file.contentType)
      ensures r.Error? ==> r.code == INTERNAL_ERROR && table == old(table)
      ensures r.Ok? ==>
        && r.value !in old(table)
        && r.value == NextId(old(table))
        && table.Keys == old(table).Keys + {r.value}
        && (forall k :: k in old(table) ==> table[k] == old(table)[k])
        && table[r.value] == ActivityRequest(
             r.value, fullName, Some(groupName), Some(supervisor), activity,
             file.filename, Some(Base64Of(file.content)), file.contentType,
             PENDING, now)
    {
      if !AllowedType(file.contentType) {
        r := Error(INTERNAL_ERROR);
        return;
      }
      var content := Base64Of(file.content);
      var draft := NewRequest(
        fullName, Some(groupName), Some(supervisor), activity,
        file.filename, Some(content), file.contentType, Some(PENDING), None);
      var id := NextId(table);
      var row := Materialize(draft, id, now);
      assert row.status == PENDING && row.id == id;
      table := table[id := row];
      r := Ok(id);
    }

    /** PUT /api/admin/requests/{id}. The lookup comes first, so a missing id
        is 404 whatever the status; then a status other than "approved" or
        "rejected" is 400; otherwise the status is overwritten, whatever it
        was before. */
    method UpdateRequestStatus(requestId: int, status: string) returns (r: Reply<()>)
      requires Valid()
      modifies this
      ensures Valid()
      ensures requestId !in old(table) ==> r == Error(NOT_FOUND) && table == old(table)
      ensures requestId in old(table) && status != APPROVED && status != REJECTED ==>
        r == Error(BAD_REQUEST) && table == old(table)
      ensures r.Ok? <==> requestId in old(table) && (status == APPROVED || status == REJECTED)
      ensures r.Ok? ==> table == SetStatus(old(table), requestId, status)
      ensures forall k :: k in table ==> k in old(table) && table[k].createdAt == old(table)[k].createdAt
    {
      if requestId !in table {
        r := Error(NOT_FOUND);
        return;
      }
      if status != APPROVED && status != REJECTED {
        r := Error(BAD_REQUEST);
        return;
      }
      table := SetStatus(table, requestId, status);
      r := Ok(());
    }

    /** DELETE /api/admin/requests/{id}: 404 for a missing id, otherwise the
        row is removed. */
    method DeleteRequest(requestId: int) returns (r: Reply<()>)
      requires Valid()
      modifies this
      ensures Valid()
      ensures r.Ok? <==> requestId in old(table)
      ensures r.Error? ==> r.code == NOT_FOUND && table == old(table)
      ensures r.Ok? ==> table == Remove(old(table), requestId) && requestId !in table
    {
      if requestId !in table {
        r := Error(NOT_FOUND);
        return;
      }
      table := Remove(table, requestId);
      r := Ok(());
    }
  }

  /** A deleted request stays gone for the handlers that look it up: a second
      delete and any status update of the same id answer 404. */
  method DeletedRequestIsNotFound(registry: ActivityRegistry, requestId: int, status: string)
    returns (deleted: Reply<()>, updated: Reply<()>, deletedAgain: Reply<()>)
    requires registry.Valid()
    modifies registry
    ensures registry.Valid()
    ensures deleted.Ok? <==> requestId in old(registry.table)
    ensures updated == Error(NOT_FOUND) && deletedAgain == Error(NOT_FOUND)
  {
    deleted := registry.DeleteRequest(requestId);
    updated := registry.UpdateRequestStatus(requestId, status);
    deletedAgain := registry.DeleteRequest(requestId);
  }

  /** Two submissions, A before B, are listed pending as [B, A]; approving A
      leaves [B] pending and lists A as approved. */
  method SubmitAndApprove(registry: ActivityRegistry, file: Upload, t1: nat, t2: nat)
    returns (a: int, b: int)
    requires registry.Valid() && registry.table == map[]
    requires AllowedType(file.contentType) && t1 < t2
    modifies registry
    ensures registry.Valid()
    ensures a in registry.table && b in registry.table
    ensures GetPendingRequests(registry.table) == [registry.table[b]]
    ensures GetApprovedRequests(registry.table) == [registry.table[a]]
  {
    var ra := registry.CreateRequest("A", "", "", "activity", file, t1);
    a := ra.value;
    ghost var afterA := registry.table;
    assert afterA.Keys == {a} && afterA[a].createdAt == t1;
    var rb := registry.CreateRequest("B", "", "", "activity", file, t2);
    b := rb.value;
    ghost var afterB := registry.table;
    assert afterB.Keys == {a, b} && a != b;
    assert afterB[a].status == PENDING && afterB[b].status == PENDING;
    assert afterB[a].createdAt == t1 && afterB[b].createdAt == t2;
    TwoPendingListedNewestFirst(afterB, a, b);
    var ru := registry.UpdateRequestStatus(a, APPROVED);
    assert registry.table.Keys == {a, b};
    assert registry.table[a].status == APPROVED && registry.table[b].status == PENDING;
    OneApprovedOnePending(registry.table, a, b);
  }

  lemma OneApprovedOnePending(t: Table, a: int, b: int)
    requires Database.Valid(t) && t.Keys == {a, b}
    requires t[a].status == APPROVED && t[b].status == PENDING
    ensures GetPendingRequests(t) == [t[b]]
    ensures GetApprovedRequests(t) == [t[a]]
  {
    assert forall j :: j in t && t[j].status == PENDING <==> j == b;
    assert forall j :: j in t && t[j].status == APPROVED <==> j == a;
    OnlyMatchListed(t, PENDING, b);
    OnlyMatchListed(t, APPROVED, a);
  }
}
