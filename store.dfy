/** The durable message repository that the hub and the HTTP routes share: a map
    from record id to record, with a flag per operation standing for whether the
    database answered. */
module Store {
  import opened Messages

  /** Every stored record sits under its own repository-assigned id, has the
      required author, and has no liker twice. */
  ghost predicate WellFormed(records: map<MessageId, Message>) {
    forall k :: k in records ==>
      && records[k].id == k
      && k.StoreId?
      && records[k].username != ""
      && Distinct(records[k].likes)
  }

  /** The message collection. */
  class Database {
    var records: map<MessageId, Message>

    ghost predicate Valid()
      reads this
    {
      WellFormed(records)
    }

    constructor ()
      ensures Valid() && records == map[]
    {
      records := map[];
    }
  }

  /** What `Message.findById(id)` yields: a thrown error (the database is down,
      or the id is not a repository id and cannot be cast), no record, or the record. */
  datatype Lookup = Failed | NotFound | Found(msg: Message)

  function FindById(records: map<MessageId, Message>, id: MessageId, dbUp: bool): (r: Lookup)
    ensures r.Found? <==> dbUp && id.StoreId? && id in records
    ensures r.Found? ==> r.msg == records[id]
    ensures r.Failed? <==> !dbUp || id.LocalId?
  {
    if !dbUp || id.LocalId? then Failed
    else if id in records then Found(records[id])
    else NotFound
  }

  /** Whether `Message.create` succeeds for a record under the fresh id `id`:
      the database answers, the id is not taken, and validation passes. */
  predicate CreateSucceeds(records: map<MessageId, Message>, id: MessageId, username: string, dbUp: bool) {
    dbUp && id !in records && username != ""
  }

  /** `m` is the record stored under its own id. */
  predicate Stored(records: map<MessageId, Message>, m: Message) {
    m.id in records && records[m.id] == m
  }

  predicate SortedByTime(s: seq<Message>) {
    forall i, j :: 0 <= i < j < |s| ==> s[i].createdAt <= s[j].createdAt
  }

  /** Inserts `m` after every record of `s` that is not newer than it. */
  function InsertByTime(m: Message, s: seq<Message>): (r: seq<Message>)
    requires SortedByTime(s)
    ensures SortedByTime(r)
    ensures multiset(r) == multiset(s) + multiset{m}
    ensures |r| == |s| + 1
  {
    if s == [] || m.createdAt < s[0].createdAt then [m] + s
    else
      var rest := InsertByTime(m, s[1..]);
      assert s == [s[0]] + s[1..];
      forall k | 0 <= k < |rest| ensures s[0].createdAt <= rest[k].createdAt {
        assert rest[k] in multiset(rest);
      }
      [s[0]] + rest
  }

  /** The repository's `sort({ createdAt: 1 })`: the records in ascending
      creation time. */
  function SortByTime(s: seq<Message>): (r: seq<Message>)
    ensures SortedByTime(r)
    ensures multiset(r) == multiset(s)
    ensures |r| == |s|
  {
    if s == [] then []
    else
      assert s == [s[0]] + s[1..];
      InsertByTime(s[0], SortByTime(s[1..]))
  }

  /** A sequence with no repeated element has each element once in its multiset. */
  lemma {:induction false} DistinctMultiplicity(s: seq<Message>, x: Message)
    requires Distinct(s)
    ensures multiset(s)[x] <= 1
  {
    if s != [] {
      assert s == [s[0]] + s[1..];
      assert Distinct(s[1..]) by {
        forall i, j | 0 <= i < j < |s[1..]| ensures s[1..][i] != s[1..][j] {
          assert s[1..][i] == s[i + 1] && s[1..][j] == s[j + 1];
        }
      }
      DistinctMultiplicity(s[1..], x);
      if x == s[0] {
        assert x !in s[1..] by {
          forall k | 0 <= k < |s[1..]| ensures s[1..][k] != x {
            assert s[1..][k] == s[k + 1];
          }
        }
      }
    }
  }

  /** Reordering keeps a sequence free of repeats. */
  lemma DistinctPermutation(a: seq<Message>, b: seq<Message>)
    requires Distinct(a) && multiset(a) == multiset(b)
    ensures Distinct(b)
  {
    forall i, j | 0 <= i < j < |b| ensures b[i] != b[j] {
      if b[i] == b[j] {
        var x := b[i];
        assert b == b[..j] + b[j..];
        assert x in b[..j] && x in b[j..] by {
          assert b[..j][i] == x && b[j..][0] == x;
        }
        assert multiset(b)[x] == multiset(b[..j])[x] + multiset(b[j..])[x];
        DistinctMultiplicity(a, x);
        assert false;
      }
    }
  }

  /** `msgs` is what `find({}).sort({ createdAt: 1 }).limit(limit)` returns:
      distinct stored records, in ascending creation time, as many as the limit
      allows, and none of the records left out is older than one taken. */
  ghost predicate IsOldestPage(records: map<MessageId, Message>, limit: nat, msgs: seq<Message>) {
    && |msgs| == (if |records| < limit then |records| else limit)
    && SortedByTime(msgs)
    && Distinct(msgs)
    && (forall i :: 0 <= i < |msgs| ==> Stored(records, msgs[i]))
    && (forall k, i :: k in records && records[k] !in msgs && 0 <= i < |msgs| ==>
          msgs[i].createdAt <= records[k].createdAt)
  }

  /** Every stored record, each exactly once, in no particular order: the
      collection scan underneath the history query. */
  predicate Enumerates(records: map<MessageId, Message>, all: seq<Message>) {
    && |all| == |records|
    && Distinct(all)
    && (forall i :: 0 <= i < |all| ==> Stored(records, all[i]))
    && (forall k :: k in records ==> records[k] in all)
  }

  method ScanAll(db: Database) returns (all: seq<Message>)
    requires db.Valid()
    ensures Enumerates(db.records, all)
  {
    var keys := db.records.Keys;
    all := [];
    while keys != {}
      invariant keys <= db.records.Keys
      invariant |all| + |keys| == |db.records.Keys|
      invariant forall k :: k in db.records && k !in keys ==> db.records[k] in all
      invariant forall i :: 0 <= i < |all| ==>
        all[i].id in db.records && all[i].id !in keys && db.records[all[i].id] == all[i]
      invariant Distinct(all)
      decreases |keys|
    {
      var k :| k in keys;
      all := all + [db.records[k]];
      keys := keys - {k};
    }
    assert |db.records| == |db.records.Keys|;
  }

  /** Every record of a prefix of a reordering of the store is a stored record. */
  lemma PrefixStored(records: map<MessageId, Message>, all: seq<Message>, sorted: seq<Message>, n: nat)
    requires forall i :: 0 <= i < |all| ==> Stored(records, all[i])
    requires multiset(sorted) == multiset(all) && n <= |sorted|
    ensures forall i :: 0 <= i < n ==> Stored(records, sorted[i])
  {
    forall i | 0 <= i < n ensures Stored(records, sorted[i]) {
      assert sorted[i] in multiset(all);
    }
  }

  /** A stored record left out of a sorted prefix is not older than any record in it. */
  lemma PrefixOldest(records: map<MessageId, Message>, all: seq<Message>, sorted: seq<Message>, n: nat)
    requires forall k :: k in records ==> records[k] in all
    requires multiset(sorted) == multiset(all) && SortedByTime(sorted) && n <= |sorted|
    ensures forall k, i :: k in records && records[k] !in sorted[..n] && 0 <= i < n ==>
              sorted[i].createdAt <= records[k].createdAt
  {
    forall k, i | k in records && records[k] !in sorted[..n] && 0 <= i < n
      ensures sorted[i].createdAt <= records[k].createdAt
    {
      var x := records[k];
      assert x in multiset(sorted);
      var j :| 0 <= j < |sorted| && sorted[j] == x;
    }
  }

  /** Keeping the first `limit` records of a sorted enumeration of the store
      gives the oldest page. */
  lemma OldestPageOfSorted(records: map<MessageId, Message>, all: seq<Message>, sorted: seq<Message>, limit: nat)
    requires Enumerates(records, all)
    requires SortedByTime(sorted) && multiset(sorted) == multiset(all) && |sorted| == |all|
    ensures IsOldestPage(records, limit, sorted[..if |all| < limit then |all| else limit])
  {
    DistinctPermutation(all, sorted);
    var n := if |all| < limit then |all| else limit;
    var msgs := sorted[..n];
    PrefixStored(records, all, sorted, n);
    PrefixOldest(records, all, sorted, n);
    assert forall i :: 0 <= i < n ==> msgs[i] == sorted[i];
  }

  /** The connect-time history query against the repository. */
  method FindOldest(db: Database, limit: nat) returns (msgs: seq<Message>)
    requires db.Valid()
    ensures IsOldestPage(db.records, limit, msgs)
  {
    var all := ScanAll(db);
    var sorted := SortByTime(all);
    OldestPageOfSorted(db.records, all, sorted, limit);
    msgs := sorted[..if |all| < limit then |all| else limit];
  }

  /** `fallbackMessages.slice(-n)`: the last `n` records (all of them when fewer),
      in insertion order. `slice(-0)` is the whole array, so `n` is positive. */
  function LastN<T>(s: seq<T>, n: nat): (r: seq<T>)
    requires n > 0
    ensures |r| == if |s| < n then |s| else n
    ensures r == s[|s| - |r|..]
  {
    if |s| <= n then s else s[|s| - n..]
  }
}
