/** The persistence layer: the one stored entity, the defaults its columns
    apply at insertion, and the table operations the request handlers commit.
    The SQL engine is abstracted as a map from primary key to row. */
module Database {

  datatype Option<T> = None | Some(value: T)

  /** The text stored in the file_content column: the base64 encoding of the
      uploaded bytes. The encoding itself is kept opaque. */
  datatype Base64Text = Base64Of(bytes: seq<bv8>)

  const PENDING: string := "pending"
  const APPROVED: string := "approved"
  const REJECTED: string := "rejected"

  /** The three values the status column takes in this system. */
  predicate KnownStatus(s: string) {
    s == PENDING || s == APPROVED || s == REJECTED
  }

  /** A stored row of the activity_requests table. full_name and activity are
      non-nullable columns, so they are plain strings; the nullable columns
      without a default are options. created_at is a caller-supplied clock
      reading. */
  datatype ActivityRequest = ActivityRequest(
    id: int,
    fullName: string,
    groupName: Option<string>,
    supervisor: Option<string>,
    activity: string,
    fileName: Option<string>,
    fileContent: Option<Base64Text>,
    fileType: Option<string>,
    status: string,
    createdAt: nat)

  /** The keyword arguments of the ActivityRequest constructor before the row is
      flushed: a column left out is None and gets its default at insertion. */
  datatype NewRequest = NewRequest(
    fullName: string,
    groupName: Option<string>,
    supervisor: Option<string>,
    activity: string,
    fileName: Option<string>,
    fileContent: Option<Base64Text>,
    fileType: Option<string>,
    status: Option<string>,
    createdAt: Option<nat>)

  /** Two rows that agree on every column except, perhaps, status. */
  predicate SameExceptStatus(a: ActivityRequest, b: ActivityRequest) {
    && a.id == b.id && a.fullName == b.fullName && a.groupName == b.groupName
    && a.supervisor == b.supervisor && a.activity == b.activity
    && a.fileName == b.fileName && a.fileContent == b.fileContent
    && a.fileType == b.fileType && a.createdAt == b.createdAt
  }

  /** The row that an insert of `n` stores under key `id` at clock reading
      `now`: status defaults to "pending", created_at to the current time. */
  function Materialize(n: NewRequest, id: int, now: nat): (r: ActivityRequest)
    ensures r.id == id
    ensures n.status == None ==> r.status == PENDING
    ensures n.status.Some? ==> r.status == n.status.value
    ensures n.createdAt == None ==> r.createdAt == now
    ensures n.createdAt.Some? ==> r.createdAt == n.createdAt.value
    ensures r.fullName == n.fullName && r.activity == n.activity
    ensures r.groupName == n.groupName && r.supervisor == n.supervisor
    ensures r.fileName == n.fileName && r.fileContent == n.fileContent && r.fileType == n.fileType
  {
    ActivityRequest(
      id, n.fullName, n.groupName, n.supervisor, n.activity,
      n.fileName, n.fileContent, n.fileType,
      match n.status case Some(s) => s case None => PENDING,
      match n.createdAt case Some(c) => c case None => now)
  }

  /** The table, keyed by the primary key. */
  type Table = map<int, ActivityRequest>

  /** Each row sits under its own id (so no two rows share an id) and carries
      one of the three statuses. */
  ghost predicate Valid(t: Table) {
    forall k :: k in t ==> t[k].id == k && KnownStatus(t[k].status)
  }

  predicate IsLeast(m: int, s: set<int>) {
    m in s && forall k :: k in s ==> m <= k
  }

  lemma {:induction false} LeastExists(s: set<int>)
    requires s != {}
    ensures exists m :: IsLeast(m, s)
    decreases |s|
  {
    if forall y :: y !in s {
      assert false;
    }
    var x :| x in s;
    var rest := s - {x};
    if rest == {} {
      assert s == {x};
      assert IsLeast(x, s);
    } else {
      LeastExists(rest);
      var m :| IsLeast(m, rest);
      var least := if x < m then x else m;
      forall k | k in s ensures least <= k {
        assert k == x || k in rest;
      }
      assert IsLeast(least, s);
    }
  }

  /** The keys of a table in ascending order: the order of a scan by rowid. */
  function Ascending(s: set<int>): (r: seq<int>)
    ensures |r| == |s|
    ensures forall k :: k in s <==> k in r
    ensures forall i, j :: 0 <= i < j < |r| ==> r[i] < r[j]
    decreases |s|
  {
    if s == {} then []
    else
      LeastExists(s);
      var m :| IsLeast(m, s);
      [m] + Ascending(s - {m})
  }

  /** The key the engine gives a row inserted without an explicit id: the id
      column is an INTEGER PRIMARY KEY, an alias of SQLite's rowid, which is one
      more than the largest key in the table, or 1 in an empty table. */
  function NextId(t: Table): (r: int)
    ensures r !in t
    ensures forall k :: k in t ==> k < r
    ensures t == map[] ==> r == 1
    ensures t != map[] ==> r - 1 in t
  {
    var ids := Ascending(t.Keys);
    if |ids| == 0 then 1
    else
      assert ids[|ids| - 1] in t.Keys;
      ids[|ids| - 1] + 1
  }

  /** Assigning the status attribute of the row under `id` and committing. */
  function SetStatus(t: Table, id: int, s: string): (r: Table)
    requires id in t
    ensures r.Keys == t.Keys
    ensures r[id].status == s && SameExceptStatus(r[id], t[id])
    ensures forall k :: k in t && k != id ==> r[k] == t[k]
    ensures Valid(t) && KnownStatus(s) ==> Valid(r)
  {
    t[id := t[id].(status := s)]
  }

  /** Deleting the row under `id` and committing. */
  function Remove(t: Table, id: int): (r: Table)
    requires id in t
    ensures r.Keys == t.Keys - {id}
    ensures forall k :: k in r ==> r[k] == t[k]
    ensures Valid(t) ==> Valid(r)
  {
    t - {id}
  }

  /** Ids are not monotone: once the row with the largest id is deleted, the
      next insert is handed that same id again (when its predecessor id is still
      present). A 404 for a deleted id therefore lasts only until such an insert. */
  lemma DeletedNewestIdIsReissued(t: Table, id: int)
    requires id in t && id - 1 in t
    requires forall k :: k in t ==> k <= id
    ensures NextId(Remove(t, id)) == id
  {
    var rest := Remove(t, id);
    assert id - 1 in rest;
    var next := NextId(rest);
    assert next - 1 in t && next - 1 != id;
  }
}
