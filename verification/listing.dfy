/** The two read-only admin queries: all rows with a given status, newest
    first. The engine's scan, filter and ORDER BY are modelled as a scan of
    the keys in ascending order, a filter, and an insertion sort on created_at. */
module Listing {
  import opened Database

  /** Non-increasing creation time: ORDER BY created_at DESC. */
  predicate NewestFirst(rows: seq<ActivityRequest>) {
    forall i, j :: 0 <= i < j < |rows| ==> rows[i].createdAt >= rows[j].createdAt
  }

  predicate DistinctIds(rows: seq<ActivityRequest>) {
    forall i, j :: 0 <= i < j < |rows| ==> rows[i].id != rows[j].id
  }

  /** The rows stored under `ids`, in that order, whose status is `s`. */
  function RowsWithStatus(t: Table, ids: seq<int>, s: string): (r: seq<ActivityRequest>)
    requires Valid(t)
    requires forall i :: 0 <= i < |ids| ==> ids[i] in t
    requires forall i, j :: 0 <= i < j < |ids| ==> ids[i] < ids[j]
    ensures forall x :: x in r ==> x.status == s && x.id in ids && t[x.id] == x
    ensures forall i :: 0 <= i < |ids| && t[ids[i]].status == s ==> t[ids[i]] in r
    ensures forall i, j :: 0 <= i < j < |r| ==> r[i].id < r[j].id
  {
    if |ids| == 0 then []
    else
      var rest := RowsWithStatus(t, ids[1..], s);
      assert forall x :: x in rest ==> x.id in ids[1..];
      if t[ids[0]].status == s then [t[ids[0]]] + rest else rest
  }

  /** Places `x` in a newest-first sequence, before the first row that is not
      newer than it. */
  function InsertByAge(x: ActivityRequest, rows: seq<ActivityRequest>): (r: seq<ActivityRequest>)
    requires NewestFirst(rows)
    ensures NewestFirst(r)
    ensures multiset(r) == multiset(rows) + multiset{x}
    ensures forall y :: y in r <==> y == x || y in rows
  {
    if |rows| == 0 || rows[0].createdAt <= x.createdAt then [x] + rows
    else
      var rest := InsertByAge(x, rows[1..]);
      assert rows == [rows[0]] + rows[1..];
      assert forall y :: y in rows[1..] ==> rows[0].createdAt >= y.createdAt;
      PrependNewest(rows[0], rest);
      [rows[0]] + rest
  }

  lemma PrependNewest(head: ActivityRequest, rows: seq<ActivityRequest>)
    requires NewestFirst(rows)
    requires forall y :: y in rows ==> head.createdAt >= y.createdAt
    ensures NewestFirst([head] + rows)
  {
    var r := [head] + rows;
    forall i, j | 0 <= i < j < |r| ensures r[i].createdAt >= r[j].createdAt {
      assert r[j] == rows[j - 1];
      if i > 0 { assert r[i] == rows[i - 1]; }
    }
  }

  lemma {:induction false} InsertByAgeKeepsIdsDistinct(x: ActivityRequest, rows: seq<ActivityRequest>)
    requires NewestFirst(rows) && DistinctIds(rows)
    requires forall y :: y in rows ==> y.id != x.id
    ensures DistinctIds(InsertByAge(x, rows))
  {
    if |rows| == 0 || rows[0].createdAt <= x.createdAt {
      var r := [x] + rows;
      forall i, j | 0 <= i < j < |r| ensures r[i].id != r[j].id {
        if i > 0 { assert r[i] == rows[i - 1] && r[j] == rows[j - 1]; }
        else { assert r[j] in rows; }
      }
    } else {
      var tail := rows[1..];
      InsertByAgeKeepsIdsDistinct(x, tail);
      var rest := InsertByAge(x, tail);
      forall y | y in rest ensures y.id != rows[0].id {
        if y != x {
          var k :| 0 <= k < |tail| && tail[k] == y;
          assert rows[k + 1] == y;
        }
      }
      var r := [rows[0]] + rest;
      assert r == InsertByAge(x, rows);
      forall i, j | 0 <= i < j < |r| ensures r[i].id != r[j].id {
        if i > 0 { assert r[i] == rest[i - 1] && r[j] == rest[j - 1]; }
        else { assert r[j] in rest; }
      }
    }
  }

  /** Orders rows by created_at, newest first. */
  function SortNewestFirst(rows: seq<ActivityRequest>): (r: seq<ActivityRequest>)
    ensures NewestFirst(r)
    ensures multiset(r) == multiset(rows)
    ensures forall y :: y in r <==> y in rows
  {
    if |rows| == 0 then []
    else
      assert rows == [rows[0]] + rows[1..];
      InsertByAge(rows[0], SortNewestFirst(rows[1..]))
  }

  lemma {:induction false} SortKeepsIdsDistinct(rows: seq<ActivityRequest>)
    requires DistinctIds(rows)
    ensures DistinctIds(SortNewestFirst(rows))
  {
    if |rows| > 0 {
      var tail := rows[1..];
      assert DistinctIds(tail) by {
        forall i, j | 0 <= i < j < |tail| ensures tail[i].id != tail[j].id {
          assert tail[i] == rows[i + 1] && tail[j] == rows[j + 1];
        }
      }
      SortKeepsIdsDistinct(tail);
      forall y | y in SortNewestFirst(tail) ensures y.id != rows[0].id {
        var k :| 0 <= k < |tail| && tail[k] == y;
        assert rows[k + 1] == y;
      }
      InsertByAgeKeepsIdsDistinct(rows[0], SortNewestFirst(tail));
    }
  }

  /** Every row with status `s`, each once, newest first. */
  function ListByStatus(t: Table, s: string): (r: seq<ActivityRequest>)
    requires Valid(t)
    ensures forall x :: x in r <==> x.id in t && t[x.id] == x && x.status == s
    ensures NewestFirst(r)
    ensures DistinctIds(r)
  {
    var ids := Ascending(t.Keys);
    var matching := RowsWithStatus(t, ids, s);
    assert forall k :: k in t ==> k in ids;
    SortKeepsIdsDistinct(matching);
    SortNewestFirst(matching)
  }

  /** GET /api/admin/requests/pending */
  function GetPendingRequests(t: Table): (r: seq<ActivityRequest>)
    requires Valid(t)
    ensures forall k :: k in t ==> (t[k] in r <==> t[k].status == PENDING)
    ensures forall x :: x in r ==> x.id in t && t[x.id] == x
    ensures NewestFirst(r) && DistinctIds(r)
  {
    ListByStatus(t, PENDING)
  }

  /** GET /api/admin/requests/approved */
  function GetApprovedRequests(t: Table): (r: seq<ActivityRequest>)
    requires Valid(t)
    ensures forall k :: k in t ==> (t[k] in r <==> t[k].status == APPROVED)
    ensures forall x :: x in r ==> x.id in t && t[x.id] == x
    ensures NewestFirst(r) && DistinctIds(r)
  {
    ListByStatus(t, APPROVED)
  }

  /** A rejected request shows up in neither admin list. */
  lemma RejectedIsListedNowhere(t: Table, id: int)
    requires Valid(t) && id in t && t[id].status == REJECTED
    ensures t[id] !in GetPendingRequests(t)
    ensures t[id] !in GetApprovedRequests(t)
  {
  }

  /** Of two pending requests, the one created later is listed earlier. */
  lemma NewerPendingListedFirst(t: Table, older: int, newer: int)
    requires Valid(t) && older in t && newer in t
    requires t[older].status == PENDING && t[newer].status == PENDING
    requires t[older].createdAt < t[newer].createdAt
    ensures var r := GetPendingRequests(t);
      exists i, j :: 0 <= i < j < |r| && r[i] == t[newer] && r[j] == t[older]
  {
    var r := GetPendingRequests(t);
    var i :| 0 <= i < |r| && r[i] == t[newer];
    var j :| 0 <= j < |r| && r[j] == t[older];
    assert i != j;
    assert i < j;
  }

  /** A newest-first sequence with distinct ids that holds `older` and `newer`
      and nothing else is [newer, older]. */
  lemma TwoRowsNewestFirst(r: seq<ActivityRequest>, older: ActivityRequest, newer: ActivityRequest)
    requires NewestFirst(r) && DistinctIds(r)
    requires older in r && newer in r && older.createdAt < newer.createdAt
    requires forall n :: 0 <= n < |r| ==> r[n] == older || r[n] == newer
    ensures r == [newer, older]
  {
    var i :| 0 <= i < |r| && r[i] == newer;
    var j :| 0 <= j < |r| && r[j] == older;
    forall n | 0 <= n < |r| ensures (r[n] == newer && n == i) || (r[n] == older && n == j) {
      if r[n] == newer { assert r[n].id == r[i].id; } else { assert r[n].id == r[j].id; }
    }
    assert i != j;
    var first, last, penultimate := r[0], r[|r| - 1], r[|r| - 2];
    assert first == newer || first == older;
    assert last == newer || last == older;
    assert penultimate == newer || penultimate == older;
    assert i < j;
  }

  /** When exactly two requests are pending, A and then a later B, the pending
      list is [B, A]. */
  lemma TwoPendingListedNewestFirst(t: Table, a: int, b: int)
    requires Valid(t) && a in t && b in t
    requires t[a].createdAt < t[b].createdAt
    requires forall k :: k in t && t[k].status == PENDING <==> k == a || k == b
    ensures GetPendingRequests(t) == [t[b], t[a]]
  {
    var r := GetPendingRequests(t);
    forall n | 0 <= n < |r| ensures r[n] == t[a] || r[n] == t[b] {
      assert r[n] in r;
    }
    TwoRowsNewestFirst(r, t[a], t[b]);
  }

  /** When one request alone has status `s`, the list for `s` is that request. */
  lemma OnlyMatchListed(t: Table, s: string, k: int)
    requires Valid(t) && k in t
    requires forall j :: j in t && t[j].status == s <==> j == k
    ensures ListByStatus(t, s) == [t[k]]
  {
    var r := ListByStatus(t, s);
    assert t[k] in r;
    var i :| 0 <= i < |r| && r[i] == t[k];
    forall n | 0 <= n < |r| ensures r[n] == r[i] && n == i {
      assert r[n] in r;
      assert r[n].id == r[i].id;
    }
    var first, last := r[0], r[|r| - 1];
    assert first == t[k] && last == t[k];
  }

  /** Approving a pending request moves it from the pending list to the
      approved list and leaves every other request where it was. */
  lemma ApprovalMovesRequest(t: Table, id: int)
    requires Valid(t) && id in t && t[id].status == PENDING
    ensures var t' := SetStatus(t, id, APPROVED);
      && t'[id] !in GetPendingRequests(t') && t'[id] in GetApprovedRequests(t')
      && t[id] !in GetPendingRequests(t')
      && forall k :: k in t && k != id ==>
           (t'[k] in GetPendingRequests(t') <==> t[k] in GetPendingRequests(t))
           && (t'[k] in GetApprovedRequests(t') <==> t[k] in GetApprovedRequests(t))
  {
  }

  /** A status update to "approved" or "rejected" never adds to the pending
      list: no request is ever sent back to review. */
  lemma UpdateNeverAddsPending(t: Table, id: int, s: string)
    requires Valid(t) && id in t
    requires s == APPROVED || s == REJECTED
    ensures forall x :: x in GetPendingRequests(SetStatus(t, id, s)) ==>
      x in GetPendingRequests(t) && x.id != id
  {
  }

  /** A deleted request is listed nowhere. */
  lemma RemovedRequestIsListedNowhere(t: Table, id: int)
    requires Valid(t) && id in t
    ensures forall x :: x in GetPendingRequests(Remove(t, id)) ==> x.id != id
    ensures forall x :: x in GetApprovedRequests(Remove(t, id)) ==> x.id != id
  {
  }
}
