/**
 The job object store: grouping a listing by job, and expiring old jobs.  The
 bucket is a set of keys.

 Grouping and expiry are written against any naming of objects that reads back
 exactly what it names (Exact); JobKeys' naming is one.
 */
module JobStore {
  import opened Options
  import opened JobKeys

  /** What a listing found under one job's prefix. */
  datatype JobObjects = JobObjects(created: bool, meta: bool, events: seq<string>)

  type Index = map<JobRef, JobObjects>

  const NO_OBJECTS := JobObjects(false, false, [])

  function Add(objs: JobObjects, kind: Kind, key: string): JobObjects {
    match kind
    case CreatedObject => objs.(created := true)
    case MetaObject => objs.(meta := true)
    case EventObject => objs.(events := objs.events + [key])
  }

  // ----- Sorting -----

  ghost predicate Sorted(keys: seq<string>) {
    forall i, j :: 0 <= i < j < |keys| ==> LexLeq(keys[i], keys[j])
  }

  function Insert(key: string, keys: seq<string>): (r: seq<string>)
    ensures multiset(r) == multiset(keys) + multiset{key}
  {
    if keys == [] then [key]
    else if LexLeq(key, keys[0]) then [key] + keys
    else
      assert keys == [keys[0]] + keys[1..];
      [keys[0]] + Insert(key, keys[1..])
  }

  function Sort(keys: seq<string>): (r: seq<string>)
    ensures multiset(r) == multiset(keys)
  {
    if keys == [] then []
    else
      assert keys == [keys[0]] + keys[1..];
      Insert(keys[0], Sort(keys[1..]))
  }

  lemma {:induction false} InsertSorted(key: string, keys: seq<string>)
    requires Sorted(keys)
    ensures Sorted(Insert(key, keys))
  {
    if keys != [] {
      LexTotal(key, keys[0]);
      if LexLeq(key, keys[0]) {
        forall j | 0 <= j < |keys| ensures LexLeq(key, keys[j]) {
          if j > 0 {
            LexTransitive(key, keys[0], keys[j]);
          }
        }
      } else {
        InsertSorted(key, keys[1..]);
        var rest := Insert(key, keys[1..]);
        forall j | 0 <= j < |rest| ensures LexLeq(keys[0], rest[j]) {
          assert rest[j] in multiset(rest);
          assert rest[j] == key || rest[j] in keys[1..];
        }
      }
    }
  }

  lemma {:induction false} SortSorts(keys: seq<string>)
    ensures Sorted(Sort(keys))
  {
    if keys != [] {
      SortSorts(keys[1..]);
      InsertSorted(keys[0], Sort(keys[1..]));
    }
  }

  /** The key is one written for an event of `ref` received at `ns`. */
  ghost predicate StampedAt(ref: JobRef, key: string, ns: int) {
    -TIME_LIMIT <= ns < TIME_LIMIT && exists suffix :: '/' !in suffix && key == EventKey(ref, ns, suffix)
  }

  /** A job's events, once sorted by key, are in the order they were received, except
      that those before 1970 come first, in reverse, and no time is read of them. */
  lemma SortedByTime(ref: JobRef, events: seq<string>, i: nat, j: nat, m: int, n: int)
    requires i < j < |Sort(events)| && StampedAt(ref, Sort(events)[i], m) && StampedAt(ref, Sort(events)[j], n)
    ensures if m < 0 && n < 0 then n <= m else m <= n
    ensures EventTime(Sort(events)[i]) == if m >= 0 then Some(m) else None
    ensures EventTime(Sort(events)[j]) == if n >= 0 then Some(n) else None
  {
    var sorted := Sort(events);
    SortSorts(events);
    var x :| '/' !in x && sorted[i] == EventKey(ref, m, x);
    var y :| '/' !in y && sorted[j] == EventKey(ref, n, y);
    assert LexLeq(sorted[i], sorted[j]);
    EventTimeInverts(ref, m, x);
    EventTimeInverts(ref, n, y);
    EventKeysSortByTime(ref, m, x, n, y);
  }

  lemma SortKeepsMembers(keys: seq<string>)
    ensures forall key :: key in Sort(keys) <==> key in keys
  {
    assert forall key :: key in Sort(keys) <==> key in multiset(Sort(keys));
    assert forall key :: key in keys <==> key in multiset(keys);
  }

  // ----- Grouping -----

  /** How a key is read: the job and kind of object it names. */
  type Reader = string -> Option<(JobRef, Kind)>

  /** How a key is dated: the receive time it carries, if any. */
  type Clock = string -> Option<int>

  /** The reader finds an object exactly where it is stored, for valid jobs only. */
  ghost predicate Exact(read: Reader) {
    && (forall key :: read(key).Some? ==> ValidRef(read(key).value.0))
    && (forall key, ref :: ExactAt(read, key, ref))
  }

  ghost predicate ExactAt(read: Reader, key: string, ref: JobRef) {
    ValidRef(ref) ==>
      && (read(key) == Some((ref, CreatedObject)) <==> key == CreatedKey(ref))
      && (read(key) == Some((ref, MetaObject)) <==> key == MetaKey(ref))
  }

  lemma JobKeysExactAt(key: string, ref: JobRef)
    ensures ExactAt(ParseKey, key, ref)
  {
    if ValidRef(ref) {
      ParseKeyExact(key, ref);
    }
  }

  lemma JobKeysExact()
    ensures Exact(ParseKey)
  {
    forall key, ref ensures ExactAt(ParseKey, key, ref) {
      JobKeysExactAt(key, ref);
    }
  }

  ghost predicate Of(read: Reader, ref: JobRef, key: string) {
    read(key).Some? && read(key).value.0 == ref
  }

  /** What the keys hold of job `ref`, events in listing order. */
  ghost function ObjectsOf(read: Reader, keys: seq<string>, ref: JobRef): JobObjects {
    if keys == [] then NO_OBJECTS
    else
      var objs, key := ObjectsOf(read, keys[..|keys| - 1], ref), keys[|keys| - 1];
      if Of(read, ref, key) then Add(objs, read(key).value.1, key) else objs
  }

  ghost predicate Mentions(read: Reader, keys: seq<string>, ref: JobRef) {
    exists key :: key in keys && Of(read, ref, key)
  }

  /** A job's group holds its own objects, all of them, and no other job's. */
  lemma {:induction false} ObjectsExact(read: Reader, keys: seq<string>, ref: JobRef)
    requires Exact(read) && ValidRef(ref)
    ensures ObjectsOf(read, keys, ref).created <==> CreatedKey(ref) in keys
    ensures ObjectsOf(read, keys, ref).meta <==> MetaKey(ref) in keys
    ensures forall key :: key in ObjectsOf(read, keys, ref).events <==> key in keys && read(key) == Some((ref, EventObject))
  {
    if keys != [] {
      var front, key := keys[..|keys| - 1], keys[|keys| - 1];
      ObjectsExact(read, front, ref);
      assert keys == front + [key];
      assert ExactAt(read, key, ref);
    }
  }

  /** Each event is listed as often as its key is, and no other. */
  lemma {:induction false} EventsCounted(read: Reader, keys: seq<string>, ref: JobRef, key: string)
    ensures multiset(ObjectsOf(read, keys, ref).events)[key] ==
            if read(key) == Some((ref, EventObject)) then multiset(keys)[key] else 0
  {
    if keys != [] {
      var front, last := keys[..|keys| - 1], keys[|keys| - 1];
      EventsCounted(read, front, ref, key);
      assert keys == front + [last];
    }
  }

  lemma MentionsMore(read: Reader, keys: seq<string>, k: nat, ref: JobRef)
    requires k < |keys|
    ensures Mentions(read, keys[..k + 1], ref) <==> Mentions(read, keys[..k], ref) || Of(read, ref, keys[k])
    ensures ObjectsOf(read, keys[..k + 1], ref) ==
              if Of(read, ref, keys[k]) then Add(ObjectsOf(read, keys[..k], ref), read(keys[k]).value.1, keys[k])
              else ObjectsOf(read, keys[..k], ref)
  {
    assert keys[..k + 1] == keys[..k] + [keys[k]];
    assert keys[..k + 1][..k] == keys[..k];
    assert keys[k] in keys[..k + 1];
  }

  /** The index holds exactly the jobs the keys mention, each with its objects. */
  ghost predicate Groups(read: Reader, keys: seq<string>, idx: Index) {
    && (forall ref :: ref in idx <==> Mentions(read, keys, ref))
    && (forall ref :: (if ref in idx then idx[ref] else NO_OBJECTS) == ObjectsOf(read, keys, ref))
  }

  lemma GroupsMore(read: Reader, keys: seq<string>, k: nat, idx: Index)
    requires k < |keys| && Groups(read, keys[..k], idx)
    ensures read(keys[k]).None? ==> Groups(read, keys[..k + 1], idx)
    ensures read(keys[k]).Some? ==>
              var (ref, kind) := read(keys[k]).value;
              Groups(read, keys[..k + 1], idx[ref := Add(if ref in idx then idx[ref] else NO_OBJECTS, kind, keys[k])])
  {
    forall ref {
      MentionsMore(read, keys, k, ref);
    }
  }

  /** Group the keys of a listing by job, each job's events sorted. */
  method IndexJobs(read: Reader, keys: seq<string>) returns (idx: Index)
    ensures forall ref :: ref in idx <==> Mentions(read, keys, ref)
    ensures forall ref :: ref in idx ==> idx[ref] == InOrder(ObjectsOf(read, keys, ref))
  {
    idx := map[];
    for k := 0 to |keys|
      invariant Groups(read, keys[..k], idx)
    {
      GroupsMore(read, keys, k, idx);
      var parsed := read(keys[k]);
      if parsed.None? {
        continue;
      }
      var (ref, kind) := parsed.value;
      var objs := if ref in idx then idx[ref] else NO_OBJECTS;
      idx := idx[ref := Add(objs, kind, keys[k])];
    }
    assert keys[..|keys|] == keys;
    idx := SortEvents(idx);
  }

  function InOrder(objs: JobObjects): JobObjects {
    objs.(events := Sort(objs.events))
  }

  method SortEvents(grouped: Index) returns (idx: Index)
    ensures idx == map ref | ref in grouped :: InOrder(grouped[ref])
  {
    idx := grouped;
    var todo := idx.Keys;
    while todo != {}
      invariant todo <= idx.Keys == grouped.Keys
      invariant forall ref :: ref in idx ==> idx[ref] == if ref in todo then grouped[ref] else InOrder(grouped[ref])
    {
      var ref :| ref in todo;
      idx := idx[ref := InOrder(idx[ref])];
      todo := todo - {ref};
    }
  }

  // ----- Expiry -----

  ghost predicate Dated(clock: Clock, events: seq<string>) {
    exists key :: key in events && clock(key).Some?
  }

  /** `t` is the newest receive time among the keys that carry one. */
  ghost predicate IsNewest(clock: Clock, events: seq<string>, t: int) {
    && (exists key :: key in events && clock(key) == Some(t))
    && (forall key :: key in events && clock(key).Some? ==> clock(key).value <= t)
  }

  method NewestEvent(clock: Clock, events: seq<string>) returns (last: Option<int>)
    ensures last.Some? <==> Dated(clock, events)
    ensures last.Some? ==> IsNewest(clock, events, last.value)
  {
    last := None;
    for k := 0 to |events|
      invariant last.Some? <==> Dated(clock, events[..k])
      invariant last.Some? ==> IsNewest(clock, events[..k], last.value)
    {
      assert events[..k + 1] == events[..k] + [events[k]];
      assert events[k] in events[..k + 1];
      var t := clock(events[k]);
      if t.Some? && (last.None? || t.value > last.value) {
        last := t;
      }
    }
    assert events[..|events|] == events;
  }

  /** When a job was last written to; `createdAt` is what its metadata says, if it
      can be read. */
  method LastActivity(clock: Clock, objs: JobObjects, createdAt: Option<int>) returns (last: Option<int>)
    ensures Dated(clock, objs.events) ==> last.Some? && IsNewest(clock, objs.events, last.value)
    ensures !Dated(clock, objs.events) ==> last == if objs.meta then createdAt else None
  {
    last := NewestEvent(clock, objs.events);
    if last.None? && objs.meta {
      last := createdAt;
    }
  }

  /** All its dated events, or failing any its creation, are older than the cutoff. */
  ghost predicate Expired(clock: Clock, objs: JobObjects, createdAt: Option<int>, cutoff: int) {
    if Dated(clock, objs.events)
    then forall key :: key in objs.events && clock(key).Some? ==> clock(key).value < cutoff
    else objs.meta && createdAt.Some? && createdAt.value < cutoff
  }

  /** The keys a job's group was made from. */
  ghost predicate OwnKey(ref: JobRef, objs: JobObjects, key: string) {
    || (objs.created && key == CreatedKey(ref))
    || (objs.meta && key == MetaKey(ref))
    || key in objs.events
  }

  /** A job's log objects, in the order they are deleted. */
  function LogKeys(ref: JobRef, objs: JobObjects): (keys: seq<string>)
    ensures forall key :: key in keys <==> (objs.created && key == CreatedKey(ref)) || key in objs.events
  {
    if objs.created then [CreatedKey(ref)] + objs.events else objs.events
  }

  /** `k` is how many of the keys come before the first that cannot be deleted. */
  ghost predicate DeletableUpTo(keys: seq<string>, deletable: string -> bool, k: nat) {
    k <= |keys| && (forall j :: 0 <= j < k ==> deletable(keys[j])) && (k < |keys| ==> !deletable(keys[k]))
  }

  /** What a delete of the first `k` of `keys` leaves. */
  ghost function Less(bucket: set<string>, keys: seq<string>, k: nat): set<string>
    requires k <= |keys|
  {
    bucket - set key | key in keys[..k]
  }

  /** Delete a job's log objects, then its metadata.  `deletable` says which deletes
      the store carries out; a failed one of a log object ends the attempt, with the
      metadata in place, and one of the metadata goes unnoticed. */
  method DeleteJobObjects(bucket: set<string>, ref: JobRef, objs: JobObjects, deletable: string -> bool)
    returns (bucket': set<string>, ok: bool)
    ensures bucket' <= bucket
    ensures forall key :: key in bucket && key !in bucket' ==> OwnKey(ref, objs, key)
    ensures ok <==> forall key :: key in LogKeys(ref, objs) ==> deletable(key)
    ensures ok ==> forall key :: key in LogKeys(ref, objs) ==> key !in bucket'
    ensures ok && objs.meta && deletable(MetaKey(ref)) ==> MetaKey(ref) !in bucket'
    ensures !ok ==> exists k: nat :: k < |LogKeys(ref, objs)| && DeletableUpTo(LogKeys(ref, objs), deletable, k)
                                     && bucket' == Less(bucket, LogKeys(ref, objs), k)
    ensures objs.created && !deletable(CreatedKey(ref)) ==> bucket' == bucket
    ensures !ok && MetaKey(ref) in bucket && MetaKey(ref) !in LogKeys(ref, objs) ==> MetaKey(ref) in bucket'
    ensures (forall key :: OwnKey(ref, objs, key) ==> deletable(key)) ==>
              ok && forall key :: key in bucket' ==> !OwnKey(ref, objs, key)
  {
    var logKeys := LogKeys(ref, objs);
    ghost var k;
    bucket', ok, k := DeleteAll(bucket, logKeys, deletable);
    if !ok {
      assert objs.created ==> logKeys[0] == CreatedKey(ref);
      assert k == 0 ==> bucket' == bucket;
      return;
    }
    if objs.meta && deletable(MetaKey(ref)) {
      bucket' := bucket' - {MetaKey(ref)};
    }
  }

  method DeleteAll(bucket: set<string>, logKeys: seq<string>, deletable: string -> bool)
    returns (left: set<string>, ok: bool, ghost k: nat)
    ensures DeletableUpTo(logKeys, deletable, k) && left == Less(bucket, logKeys, k)
    ensures ok <==> k == |logKeys|
    ensures ok <==> forall key :: key in logKeys ==> deletable(key)
    ensures ok ==> forall key :: key in logKeys ==> key !in left
  {
    left := bucket;
    for i := 0 to |logKeys|
      invariant forall j :: 0 <= j < i ==> deletable(logKeys[j])
      invariant left == Less(bucket, logKeys, i)
    {
      assert logKeys[i] in logKeys;
      if !deletable(logKeys[i]) {
        return left, false, i;
      }
      left := left - {logKeys[i]};
      assert logKeys[..i + 1] == logKeys[..i] + [logKeys[i]];
    }
    assert logKeys[..|logKeys|] == logKeys;
    ok, k := true, |logKeys|;
  }

  /** The job that the key belongs to has expired. */
  ghost predicate Reapable(read: Reader, clock: Clock, keys: seq<string>, createdAt: JobRef -> Option<int>, cutoff: int, key: string) {
    read(key).Some? && Expired(clock, ObjectsOf(read, keys, read(key).value.0), createdAt(read(key).value.0), cutoff)
  }

  /** Sorting the events changes nothing about a job's age or what is its own. */
  lemma InOrderSame(clock: Clock, ref: JobRef, objs: JobObjects, createdAt: Option<int>, cutoff: int)
    ensures Expired(clock, InOrder(objs), createdAt, cutoff) <==> Expired(clock, objs, createdAt, cutoff)
    ensures forall key :: OwnKey(ref, InOrder(objs), key) <==> OwnKey(ref, objs, key)
  {
    SortKeepsMembers(objs.events);
  }

  lemma OwnKeysAreOf(read: Reader, keys: seq<string>, ref: JobRef, key: string)
    requires Exact(read) && ValidRef(ref)
    ensures OwnKey(ref, ObjectsOf(read, keys, ref), key) <==> key in keys && Of(read, ref, key)
  {
    ObjectsExact(read, keys, ref);
    assert ExactAt(read, key, ref);
    if Of(read, ref, key) {
      assert read(key) == Some((ref, read(key).value.1));
    }
  }

  /** Expire one job of the index, if it is old enough. */
  method ReapJob(read: Reader, clock: Clock, ghost keys: seq<string>, left: set<string>, ref: JobRef, objs: JobObjects,
                 createdAt: Option<int>, cutoff: int, deletable: string -> bool)
    returns (left': set<string>)
    requires Exact(read) && ValidRef(ref) && objs == InOrder(ObjectsOf(read, keys, ref))
    ensures left' <= left
    ensures forall key :: key in left && key !in left' ==>
              Of(read, ref, key) && Expired(clock, ObjectsOf(read, keys, ref), createdAt, cutoff)
    ensures (forall key :: deletable(key)) && Expired(clock, ObjectsOf(read, keys, ref), createdAt, cutoff) ==>
              forall key :: key in left' && key in keys ==> !Of(read, ref, key)
  {
    InOrderSame(clock, ref, ObjectsOf(read, keys, ref), createdAt, cutoff);
    var last := LastActivity(clock, objs, createdAt);
    assert (last.Some? && last.value < cutoff) <==> Expired(clock, objs, createdAt, cutoff);
    if last.None? || last.value >= cutoff {
      return left;
    }
    forall key ensures OwnKey(ref, objs, key) <==> key in keys && Of(read, ref, key) {
      OwnKeysAreOf(read, keys, ref, key);
    }
    var ok;
    left', ok := DeleteJobObjects(left, ref, objs, deletable);
  }

  /** Nothing is deleted but the objects of expired jobs, and, if no delete fails,
      all of those are. */
  method Reap(read: Reader, clock: Clock, keys: seq<string>, createdAt: JobRef -> Option<int>, cutoff: int, deletable: string -> bool)
    returns (left: set<string>)
    requires Exact(read)
    ensures forall key :: key in left ==> key in keys
    ensures forall key :: key in keys && key !in left ==> Reapable(read, clock, keys, createdAt, cutoff, key)
    ensures (forall key :: deletable(key)) ==>
              forall key :: key in left ==> !Reapable(read, clock, keys, createdAt, cutoff, key)
  {
    var idx := IndexJobs(read, keys);
    left := set key | key in keys;
    var todo := idx.Keys;
    while todo != {}
      invariant todo <= idx.Keys
      invariant forall key :: key in left ==> key in keys
      invariant forall key :: key in keys && key !in left ==> Reapable(read, clock, keys, createdAt, cutoff, key)
      invariant (forall key :: deletable(key)) ==>
                  forall key :: key in left && Reapable(read, clock, keys, createdAt, cutoff, key) ==> read(key).value.0 in todo
    {
      var ref :| ref in todo;
      todo := todo - {ref};
      assert Mentions(read, keys, ref);
      left := ReapJob(read, clock, keys, left, ref, idx[ref], createdAt(ref), cutoff, deletable);
    }
  }

  /** A job all of whose events were stored under their own keys is reaped only if
      every one of them was received before the cutoff. */
  lemma LiveEventKeepsJob(keys: seq<string>, createdAt: JobRef -> Option<int>, cutoff: int, ref: JobRef, ns: nat, suffix: string, key: string)
    requires ValidRef(ref) && ns < TIME_LIMIT && '/' !in suffix
    requires EventKey(ref, ns, suffix) in keys && cutoff <= ns && Of(ParseKey, ref, key)
    ensures !Reapable(ParseKey, EventTime, keys, createdAt, cutoff, key)
  {
    var event := EventKey(ref, ns, suffix);
    JobKeysExact();
    ObjectsExact(ParseKey, keys, ref);
    EventKeyParses(ref, ns, suffix);
    EventTimeInverts(ref, ns, suffix);
    assert event in ObjectsOf(ParseKey, keys, ref).events;
    assert EventTime(event) == Some(ns);
  }

  /** What makes a job's objects expire, in the keys of the listing: its dated events
      are all older than the cutoff; or it has none, and its metadata, which must be
      there, says that it was created before. */
  lemma ReapableExactly(keys: seq<string>, createdAt: JobRef -> Option<int>, cutoff: int, ref: JobRef, key: string)
    requires Of(ParseKey, ref, key)
    ensures var dated := set e | e in keys && ParseKey(e) == Some((ref, EventObject)) && EventTime(e).Some?;
      Reapable(ParseKey, EventTime, keys, createdAt, cutoff, key) <==>
      if dated != {} then forall e :: e in dated ==> EventTime(e).value < cutoff
      else MetaKey(ref) in keys && createdAt(ref).Some? && createdAt(ref).value < cutoff
  {
    JobKeysExact();
    ObjectsExact(ParseKey, keys, ref);
    var dated := set e | e in keys && ParseKey(e) == Some((ref, EventObject)) && EventTime(e).Some?;
    var events := ObjectsOf(ParseKey, keys, ref).events;
    assert forall e :: e in dated <==> e in events && EventTime(e).Some?;
    assert Dated(EventTime, events) <==> dated != {};
  }
}
