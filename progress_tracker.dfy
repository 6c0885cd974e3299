/** ProgressTrackerService: the `progress` table, one metric row per
    (user, subject) pair, kept under the composite unique key
    `user_id_subject_id`. The row's own uuid and its timestamps are not
    modelled. */
module ProgressTracker {
  import opened Common

  /** The composite unique key `user_id_subject_id`. */
  datatype Key = Key(userId: Id, subjectId: Id)

  datatype Metric = Metric(
    userId: Id,
    subjectId: Id,
    completedTopics: int,
    accuracyRate: real,
    timeSpent: int)

  /** The request body of addMetrix: the subject and the three figures. */
  datatype MetricBody = MetricBody(subjectId: Id, completedTopics: int, accuracyRate: real, timeSpent: int)

  /** The request body of updateMetrix: the three figures only. */
  datatype MetricValues = MetricValues(completedTopics: int, accuracyRate: real, timeSpent: int)

  /** What deleteMetrix answers with. */
  datatype Deleted = Deleted(message: string, data: Metric)

  type Table = map<Key, Metric>

  function KeyOf(m: Metric): Key { Key(m.userId, m.subjectId) }

  /** Every row sits under the key made of its own user and subject. */
  predicate KeysMatch(t: Table) {
    forall k :: k in t ==> KeyOf(t[k]) == k
  }

  /** `findUnique({ where: { user_id_subject_id } })`: the row, or null. */
  function Lookup(t: Table, userId: Id, subjectId: Id): (r: Option<Metric>)
    requires KeysMatch(t)
    ensures r.None? <==> forall m :: m in t.Values ==> KeyOf(m) != Key(userId, subjectId)
    ensures r.Some? ==> r.value in t.Values && KeyOf(r.value) == Key(userId, subjectId)
  {
    var k := Key(userId, subjectId);
    if k in t then Some(t[k]) else None
  }

  /** `{ user_id: userId, ...body }`. */
  function Created(userId: Id, body: MetricBody): Metric {
    Metric(userId, body.subjectId, body.completedTopics, body.accuracyRate, body.timeSpent)
  }

  /** `{ user_id: userId, subject_id: subjectId, ...body }`, the row both
      branches of the upsert write. */
  function Upserted(userId: Id, subjectId: Id, values: MetricValues): Metric {
    Metric(userId, subjectId, values.completedTopics, values.accuracyRate, values.timeSpent)
  }

  /** The table after `upsert`: the key holds the new row whether or not it
      held one before; every other key is as it was. */
  function Upsert(t: Table, userId: Id, subjectId: Id, values: MetricValues): (r: Table)
    ensures Key(userId, subjectId) in r && r[Key(userId, subjectId)] == Upserted(userId, subjectId, values)
    ensures forall k :: k != Key(userId, subjectId) ==> (k in r <==> k in t)
    ensures forall k :: k in t && k != Key(userId, subjectId) ==> r[k] == t[k]
    ensures |r| == if Key(userId, subjectId) in t then |t| else |t| + 1
  {
    t[Key(userId, subjectId) := Upserted(userId, subjectId, values)]
  }

  /** The upsert keeps every row under its own key. */
  lemma UpsertKeepsKeysMatch(t: Table, userId: Id, subjectId: Id, values: MetricValues)
    requires KeysMatch(t)
    ensures KeysMatch(Upsert(t, userId, subjectId, values))
  {
  }

  /** Sending the same update twice leaves the table as sending it once. */
  lemma UpsertIdempotent(t: Table, userId: Id, subjectId: Id, values: MetricValues)
    ensures Upsert(Upsert(t, userId, subjectId, values), userId, subjectId, values)
         == Upsert(t, userId, subjectId, values)
  {
  }

  /** After an upsert, the lookup of that key finds exactly the row written. */
  lemma LookupAfterUpsert(t: Table, userId: Id, subjectId: Id, values: MetricValues)
    requires KeysMatch(t)
    ensures KeysMatch(Upsert(t, userId, subjectId, values))
    ensures Lookup(Upsert(t, userId, subjectId, values), userId, subjectId) == Some(Upserted(userId, subjectId, values))
  {
    UpsertKeepsKeysMatch(t, userId, subjectId, values);
  }

  /** Creating a row under a free key and then deleting that key gives back
      the table as it was. */
  lemma CreateThenDeleteRestores(t: Table, userId: Id, body: MetricBody)
    requires Key(userId, body.subjectId) !in t
    ensures t[Key(userId, body.subjectId) := Created(userId, body)] - {Key(userId, body.subjectId)} == t
  {
    var k := Key(userId, body.subjectId);
    var r := t[k := Created(userId, body)] - {k};
    assert r.Keys == t.Keys;
  }

  function DeleteMessage(subjectId: Id): string {
    "Metric with subjectId " + subjectId + " was deleted"
  }

  /** `r` lists the rows under the keys in `listed`, each once. */
  ghost predicate ListsRows(t: Table, r: seq<Metric>, listed: set<Key>)
    requires listed <= t.Keys
  {
    && (forall i :: 0 <= i < |r| ==> KeyOf(r[i]) in listed && t[KeyOf(r[i])] == r[i])
    && (forall k :: k in listed ==> t[k] in r)
    && (forall i, j :: 0 <= i < j < |r| ==> r[i] != r[j])
  }

  /** Listing the row of one more key keeps the listing exact. */
  lemma ListOneMore(t: Table, r: seq<Metric>, listed: set<Key>, k: Key)
    requires KeysMatch(t) && listed <= t.Keys && ListsRows(t, r, listed)
    requires k in t && k !in listed
    ensures ListsRows(t, r + [t[k]], listed + {k})
  {
    var r', listed' := r + [t[k]], listed + {k};
    forall i | 0 <= i < |r'| ensures KeyOf(r'[i]) in listed' && t[KeyOf(r'[i])] == r'[i] {
      if i < |r| {
        assert r'[i] == r[i];
      }
    }
    forall i, j | 0 <= i < j < |r'| ensures r'[i] != r'[j] {
      assert r'[i] == r[i] && KeyOf(r[i]) in listed;
      if j < |r| {
        assert r'[j] == r[j];
      }
    }
    forall k' | k' in listed' ensures t[k'] in r' {
      if k' != k {
        assert t[k'] in r;
      }
    }
  }

  /** A listing of every key holds every row once and nothing else. */
  lemma ListedAll(t: Table, r: seq<Metric>)
    requires ListsRows(t, r, t.Keys)
    ensures forall m :: m in r <==> m in t.Values
    ensures forall i, j :: 0 <= i < j < |r| ==> r[i] != r[j]
  {
    forall m | m in t.Values ensures m in r {
      var k :| k in t && t[k] == m;
    }
    forall m | m in r ensures m in t.Values {
      var i :| 0 <= i < |r| && r[i] == m;
    }
  }

  /** The store's enumeration of a table: every row once, in the order its
      keys are picked. */
  method ListRows(t: Table) returns (r: seq<Metric>)
    requires KeysMatch(t)
    ensures |r| == |t|
    ensures forall m :: m in r <==> m in t.Values
    ensures forall i, j :: 0 <= i < j < |r| ==> r[i] != r[j]
  {
    r := [];
    var remaining := t.Keys;
    while remaining != {}
      invariant remaining <= t.Keys
      invariant ListsRows(t, r, t.Keys - remaining)
      invariant |r| + |remaining| == |t.Keys|
      decreases |remaining|
    {
      var k :| k in remaining;
      assert ListsRows(t, r + [t[k]], t.Keys - (remaining - {k})) by {
        ListOneMore(t, r, t.Keys - remaining, k);
        assert t.Keys - remaining + {k} == t.Keys - (remaining - {k});
      }
      r := r + [t[k]];
      remaining := remaining - {k};
    }
    assert ListsRows(t, r, t.Keys) by {
      assert t.Keys - remaining == t.Keys;
    }
    assert |r| == |t|;
    ListedAll(t, r);
  }

  /** The service over its table. */
  class ProgressService {
    var progress: Table

    ghost predicate Valid()
      reads this
    {
      KeysMatch(progress)
    }

    constructor (initial: Table)
      requires KeysMatch(initial)
      ensures Valid() && progress == initial
    {
      progress := initial;
    }

    /** `findMany()`: every stored row once, in whatever order the store
        hands them out; an empty table gives the empty list. */
    method GetMetrix() returns (r: seq<Metric>)
      requires Valid()
      ensures |r| == |progress|
      ensures forall m :: m in r <==> m in progress.Values
      ensures forall i, j :: 0 <= i < j < |r| ==> r[i] != r[j]
    {
      r := ListRows(progress);
    }

    /** `findUnique` by the composite key: the stored row, or null. */
    function GetMetrixById(userId: Id, subjectId: Id): (r: Option<Metric>)
      requires Valid()
      reads this
      ensures r.Some? <==> Key(userId, subjectId) in progress
      ensures r.Some? ==> r.value == progress[Key(userId, subjectId)]
    {
      Lookup(progress, userId, subjectId)
    }

    /** Refuses a second row for the same (user, subject) and writes nothing;
        otherwise adds the one row `{ user_id, ...body }` and returns it. */
    method AddMetrix(userId: Id, body: MetricBody) returns (r: Result<Metric>)
      requires Valid()
      modifies this
      ensures Valid()
      ensures Key(userId, body.subjectId) in old(progress) ==>
                r == Err(Forbidden(MetricAlreadyExists)) && progress == old(progress)
      ensures Key(userId, body.subjectId) !in old(progress) ==>
                && r == Ok(Created(userId, body))
                && progress == old(progress)[Key(userId, body.subjectId) := Created(userId, body)]
                && |progress| == |old(progress)| + 1
    {
      var metricExists := GetMetrixById(userId, body.subjectId);
      if metricExists.Some? {
        return Err(Forbidden(MetricAlreadyExists));
      }
      var created := Created(userId, body);
      progress := progress[Key(userId, body.subjectId) := created];
      r := Ok(created);
    }

    /** The upsert: the key ends up holding `{ user_id, subject_id, ...body }`
        whether or not it existed; the written row is returned. */
    method UpdateMetrix(userId: Id, subjectId: Id, values: MetricValues) returns (r: Metric)
      requires Valid()
      modifies this
      ensures Valid()
      ensures progress == Upsert(old(progress), userId, subjectId, values)
      ensures r == Upserted(userId, subjectId, values)
    {
      UpsertKeepsKeysMatch(progress, userId, subjectId, values);
      progress := Upsert(progress, userId, subjectId, values);
      r := Upserted(userId, subjectId, values);
    }

    /** `delete` by the composite key: a missing row makes the store throw and
        nothing changes; otherwise the row is removed and returned with the
        confirmation message. */
    method DeleteMetrix(userId: Id, subjectId: Id) returns (r: Result<Deleted>)
      requires Valid()
      modifies this
      ensures Valid()
      ensures Key(userId, subjectId) !in old(progress) ==>
                r == Err(Thrown(RecordNotFound)) && progress == old(progress)
      ensures Key(userId, subjectId) in old(progress) ==>
                && r == Ok(Deleted(DeleteMessage(subjectId), old(progress)[Key(userId, subjectId)]))
                && progress == old(progress) - {Key(userId, subjectId)}
                && |progress| == |old(progress)| - 1
    {
      var k := Key(userId, subjectId);
      if k !in progress {
        return Err(Thrown(RecordNotFound));
      }
      var deleted := progress[k];
      progress := progress - {k};
      r := Ok(Deleted(DeleteMessage(subjectId), deleted));
    }
  }
}
