/** The audit tables of the embedded store and their by-resource listing, newest first. */
module AuditIndex {
  import opened Basics
  import opened KeyOrder

  datatype AuditEvent = AuditEvent(id: string, timestamp: int, resource: Option<string>, details: string)

  /** `audit_events` and the key-only index `audit_by_resource`. */
  datatype Tables = Tables(events: map<string, AuditEvent>, byResource: set<string>)

  predicate WellFormed(e: AuditEvent) {
    IsTimestamp(e.timestamp) && SEPARATOR !in e.id
  }

  function ResourceKey(e: AuditEvent): string
    requires WellFormed(e) && e.resource.Some?
  {
    TimeKey(e.resource.value, e.timestamp, e.id)
  }

  /** One write transaction of `log_audit_event`. */
  function Record(t: Tables, e: AuditEvent): Tables
    requires WellFormed(e)
  {
    Tables(t.events[e.id := e],
           if e.resource.Some? then t.byResource + {ResourceKey(e)} else t.byResource)
  }

  /** What a run may log: fresh identifiers without separators, 64-bit times. */
  predicate GoodLog(log: seq<AuditEvent>) {
    && (forall i | 0 <= i < |log| :: WellFormed(log[i]))
    && (forall i, j | 0 <= i < j < |log| :: log[i].id != log[j].id)
  }

  /** The tables after logging a sequence of events. */
  function Indexed(log: seq<AuditEvent>): Tables
    requires GoodLog(log)
  {
    if log == [] then Tables(map[], {})
    else Record(Indexed(log[..|log| - 1]), log[|log| - 1])
  }

  lemma {:induction false} IndexedEvents(log: seq<AuditEvent>)
    requires GoodLog(log)
    ensures forall e | e in log :: e.id in Indexed(log).events && Indexed(log).events[e.id] == e
    ensures forall id | id in Indexed(log).events :: exists e :: e in log && e.id == id
  {
    hide ResourceKey;
    if log != [] {
      var front, last := log[..|log| - 1], log[|log| - 1];
      IndexedEvents(front);
      assert log == front + [last];
      forall e | e in front ensures e.id != last.id {
        var i :| 0 <= i < |front| && front[i] == e;
        assert log[i].id != log[|log| - 1].id;
      }
    }
  }

  lemma {:induction false} IndexedKeys(log: seq<AuditEvent>)
    requires GoodLog(log)
    ensures forall k | k in Indexed(log).byResource ::
              exists e :: e in log && e.resource.Some? && k == ResourceKey(e)
    ensures forall e | e in log && e.resource.Some? :: ResourceKey(e) in Indexed(log).byResource
  {
    hide ResourceKey;
    if log != [] {
      var front, last := log[..|log| - 1], log[|log| - 1];
      IndexedKeys(front);
      assert log == front + [last];
    }
  }

  lemma IndexedContents(log: seq<AuditEvent>)
    requires GoodLog(log)
    ensures forall e | e in log :: e.id in Indexed(log).events && Indexed(log).events[e.id] == e
    ensures forall k | k in Indexed(log).byResource ::
              exists e :: e in log && e.resource.Some? && k == ResourceKey(e)
    ensures forall e | e in log && e.resource.Some? :: ResourceKey(e) in Indexed(log).byResource
    ensures forall id | id in Indexed(log).events :: exists e :: e in log && e.id == id
  {
    hide ResourceKey, Indexed, GoodLog;
    IndexedEvents(log);
    IndexedKeys(log);
  }

  lemma LogGrows(log: seq<AuditEvent>, e: AuditEvent)
    requires GoodLog(log) && WellFormed(e) && forall x | x in log :: x.id != e.id
    ensures GoodLog(log + [e]) && Indexed(log + [e]) == Record(Indexed(log), e)
  {
    assert (log + [e])[..|log|] == log;
    assert forall i | 0 <= i < |log| :: log[i] in log;
  }

  // -------------------------------------------------- the plain definition

  /** Newest first, ties by identifier. */
  predicate Before(a: AuditEvent, b: AuditEvent) {
    a.timestamp > b.timestamp || (a.timestamp == b.timestamp && Less(a.id, b.id))
  }

  predicate NewestFirst(es: seq<AuditEvent>) {
    forall i, j | 0 <= i < j < |es| :: Before(es[i], es[j])
  }

  function Insert(e: AuditEvent, es: seq<AuditEvent>): seq<AuditEvent> {
    if es == [] || Before(e, es[0]) then [e] + es else [es[0]] + Insert(e, es[1..])
  }

  /** The events logged for a resource, newest first. */
  function History(log: seq<AuditEvent>, resource: string): seq<AuditEvent> {
    if log == [] then []
    else
      var earlier, e := History(log[..|log| - 1], resource), log[|log| - 1];
      if e.resource == Some(resource) then Insert(e, earlier) else earlier
  }

  lemma {:induction false} InsertElements(e: AuditEvent, es: seq<AuditEvent>)
    ensures forall x :: x in Insert(e, es) <==> x == e || x in es
  {
    if es != [] && !Before(e, es[0]) {
      InsertElements(e, es[1..]);
      assert es == [es[0]] + es[1..];
    }
  }

  lemma BeforeTransitive(a: AuditEvent, b: AuditEvent, c: AuditEvent)
    requires Before(a, b) && Before(b, c)
    ensures Before(a, c)
  {
    if a.timestamp == b.timestamp == c.timestamp {
      LessTransitive(a.id, b.id, c.id);
    }
  }

  lemma {:induction false} InsertSorted(e: AuditEvent, es: seq<AuditEvent>)
    requires NewestFirst(es) && forall x | x in es :: x.id != e.id
    ensures NewestFirst(Insert(e, es))
  {
    hide Less;
    if es != [] {
      LessTotal(e.id, es[0].id);
      assert es[0] in es;
      if Before(e, es[0]) {
        forall j | 0 < j < |es| ensures Before(e, es[j]) {
          BeforeTransitive(e, es[0], es[j]);
        }
      } else {
        InsertSorted(e, es[1..]);
        InsertElements(e, es[1..]);
        var rest := Insert(e, es[1..]);
        forall j | 0 <= j < |rest| ensures Before(es[0], rest[j]) {
          assert rest[j] in rest;
        }
      }
    }
  }

  lemma {:induction false} HistoryMeaning(log: seq<AuditEvent>, resource: string)
    requires GoodLog(log)
    ensures NewestFirst(History(log, resource))
    ensures forall e :: e in History(log, resource) <==> e in log && e.resource == Some(resource)
  {
    if log != [] {
      var front, last := log[..|log| - 1], log[|log| - 1];
      HistoryMeaning(front, resource);
      var earlier := History(front, resource);
      InsertElements(last, earlier);
      assert log == front + [last];
      forall x | x in earlier ensures x.id != last.id {
        var i :| 0 <= i < |front| && front[i] == x;
        assert log[i].id != log[|log| - 1].id;
      }
      InsertSorted(last, earlier);
    }
  }

  // ----------------------------------------------------- index and listing

  function ScanPrefix(resource: string): string {
    resource + [SEPARATOR]
  }

  /** A scan for a separator-free resource meets its own keys and those of resources that extend it. */
  lemma KeyHasPrefix(e: AuditEvent, resource: string)
    requires WellFormed(e) && e.resource.Some? && SEPARATOR !in resource
    ensures StartsWith(ResourceKey(e), ScanPrefix(resource)) <==>
            e.resource.value == resource || StartsWith(e.resource.value, ScanPrefix(resource))
  {
    hide TimeField;
    var own, p := e.resource.value, ScanPrefix(resource);
    var key := ResourceKey(e);
    var rest := TimeField(e.timestamp) + ([SEPARATOR] + e.id);
    assert key == own + [SEPARATOR] + rest;
    if |own| > |resource| {
      assert key[..|p|] == own[..|p|];
    } else if |own| == |resource| {
      assert key[..|p|] == own + [SEPARATOR];
      assert p[..|own|] == resource && (own + [SEPARATOR])[..|own|] == own;
    } else {
      assert key[|own|] == SEPARATOR && p[|own|] == resource[|own|];
      assert |key| >= |p| ==> key[..|p|][|own|] == key[|own|];
    }
  }

  function KeysOf(es: seq<AuditEvent>): seq<string>
    requires forall e | e in es :: WellFormed(e) && e.resource.Some?
  {
    seq(|es|, i requires 0 <= i < |es| => ResourceKey(es[i]))
  }

  predicate NothingExtends(log: seq<AuditEvent>, resource: string) {
    forall e | e in log && e.resource.Some? :: !StartsWith(e.resource.value, ScanPrefix(resource))
  }

  /** All the resource's events are at or after 1970, or all before it. */
  predicate OneSignedTimes(log: seq<AuditEvent>, resource: string) {
    forall e, f | e in log && f in log && e.resource == f.resource == Some(resource) ::
      e.timestamp >= 0 <==> f.timestamp >= 0
  }

  lemma {:induction false} HistoryIsWellFormed(log: seq<AuditEvent>, resource: string)
    requires GoodLog(log)
    ensures forall e | e in History(log, resource) :: WellFormed(e) && e.resource == Some(resource)
  {
    HistoryMeaning(log, resource);
  }

  lemma HistoryKeysAreSorted(log: seq<AuditEvent>, resource: string)
    requires GoodLog(log) && OneSignedTimes(log, resource)
    ensures
      && (forall e | e in History(log, resource) :: WellFormed(e) && e.resource.Some?)
      && Sorted(KeysOf(History(log, resource)))
  {
    hide History, TimeKey;
    HistoryMeaning(log, resource);
    HistoryIsWellFormed(log, resource);
    var es := History(log, resource);
    forall i, j | 0 <= i < j < |es| ensures Less(KeysOf(es)[i], KeysOf(es)[j]) {
      var a, b := es[i], es[j];
      assert a in es && b in es && Before(a, b);
      TimeKeyOrder(resource, a.timestamp, a.id, b.timestamp, b.id);
      InversionReverses(a.timestamp, b.timestamp);
    }
  }

  /** The scanned block holds the keys of the resource's history, and of nothing else unless a name extends it. */
  lemma BlockElements(log: seq<AuditEvent>, resource: string)
    requires GoodLog(log) && SEPARATOR !in resource
    ensures
      && (forall e | e in History(log, resource) :: WellFormed(e) && e.resource.Some?)
      && var block, keys := PrefixKeys(Indexed(log).byResource, ScanPrefix(resource)), KeysOf(History(log, resource));
      && (forall i | 0 <= i < |keys| :: keys[i] in block)
      && (NothingExtends(log, resource) ==> forall k | k in block :: k in keys)
  {
    hide History, ResourceKey, ScanPrefix, Indexed, PrefixKeys, Less;
    HistoryMeaning(log, resource);
    HistoryIsWellFormed(log, resource);
    IndexedContents(log);
    PrefixKeysElements(Indexed(log).byResource, ScanPrefix(resource));
    var es := History(log, resource);
    var block, keys := PrefixKeys(Indexed(log).byResource, ScanPrefix(resource)), KeysOf(es);
    forall i | 0 <= i < |keys| ensures keys[i] in block {
      assert es[i] in es;
      KeyHasPrefix(es[i], resource);
    }
    if NothingExtends(log, resource) {
      forall k | k in block ensures k in keys {
        var e :| e in log && e.resource.Some? && k == ResourceKey(e);
        KeyHasPrefix(e, resource);
        var i :| 0 <= i < |es| && es[i] == e;
        assert keys[i] == k;
      }
    }
  }

  /** The scanned block of keys lists the resource's history, when nothing extends its name. */
  lemma BlockIsHistory(log: seq<AuditEvent>, resource: string)
    requires GoodLog(log) && OneSignedTimes(log, resource)
    requires SEPARATOR !in resource && NothingExtends(log, resource)
    ensures
      && (forall e | e in History(log, resource) :: WellFormed(e) && e.resource.Some?)
      && PrefixKeys(Indexed(log).byResource, ScanPrefix(resource)) == KeysOf(History(log, resource))
  {
    hide History, ResourceKey, ScanPrefix, Indexed, SortedKeys, Less;
    HistoryKeysAreSorted(log, resource);
    BlockElements(log, resource);
    SortedIsUnique(PrefixKeys(Indexed(log).byResource, ScanPrefix(resource)), KeysOf(History(log, resource)));
  }

  /** Every index key leads to a stored event. */
  predicate Complete(t: Tables) {
    forall k | k in t.byResource :: LastSegment(k) in t.events
  }

  lemma KeyNamesEvent(e: AuditEvent)
    requires WellFormed(e) && e.resource.Some?
    ensures LastSegment(ResourceKey(e)) == e.id
  {
    var front := e.resource.value + [SEPARATOR] + TimeField(e.timestamp);
    assert ResourceKey(e) == front + [SEPARATOR] + e.id;
    LastSegmentIs(front, e.id);
  }

  lemma IndexedIsComplete(log: seq<AuditEvent>)
    requires GoodLog(log)
    ensures Complete(Indexed(log))
  {
    hide LastSegment, ResourceKey, Indexed;
    IndexedContents(log);
    forall k | k in Indexed(log).byResource ensures LastSegment(k) in Indexed(log).events {
      var e :| e in log && e.resource.Some? && k == ResourceKey(e);
      KeyNamesEvent(e);
    }
  }

  /** The events behind the scanned keys. */
  function Listed(t: Tables, resource: string): seq<AuditEvent>
    requires Complete(t)
  {
    var block := PrefixKeys(t.byResource, ScanPrefix(resource));
    seq(|block|, i requires 0 <= i < |block| => (assert block[i] in block; t.events[LastSegment(block[i])]))
  }

  lemma ListedLength(t: Tables, resource: string)
    requires Complete(t)
    ensures |Listed(t, resource)| == |PrefixKeys(t.byResource, ScanPrefix(resource))|
  {
  }

  lemma ListedAt(t: Tables, resource: string, i: nat)
    requires Complete(t) && i < |Listed(t, resource)|
    ensures
      var id := LastSegment(PrefixKeys(t.byResource, ScanPrefix(resource))[i]);
      id in t.events && Listed(t, resource)[i] == t.events[id]
  {
    hide PrefixKeys, LastSegment;
    var block := PrefixKeys(t.byResource, ScanPrefix(resource));
    PrefixKeysElements(t.byResource, ScanPrefix(resource));
    assert block[i] in block;
  }

  /** In every run, the listing of a resource is its history. */
  lemma ListedIsHistory(log: seq<AuditEvent>, resource: string)
    requires GoodLog(log) && OneSignedTimes(log, resource)
    requires SEPARATOR !in resource && NothingExtends(log, resource)
    ensures Complete(Indexed(log)) && Listed(Indexed(log), resource) == History(log, resource)
  {
    hide History, ResourceKey, ScanPrefix, Indexed, PrefixKeys, LastSegment;
    IndexedIsComplete(log);
    BlockIsHistory(log, resource);
    IndexedContents(log);
    HistoryMeaning(log, resource);
    var es := History(log, resource);
    var listed := Listed(Indexed(log), resource);
    assert |listed| == |es|;
    forall i | 0 <= i < |es| ensures listed[i] == es[i] {
      assert es[i] in es;
      KeyNamesEvent(es[i]);
    }
  }

  lemma SortedIsDistinct(ks: seq<string>)
    requires Sorted(ks)
    ensures Distinct(ks)
  {
    forall i, j | 0 <= i < j < |ks| ensures ks[i] != ks[j] {
      LessIrreflexive(ks[i]);
    }
  }

  lemma HistoryKeysAreDistinct(log: seq<AuditEvent>, resource: string)
    requires GoodLog(log)
    ensures
      && (forall e | e in History(log, resource) :: WellFormed(e) && e.resource.Some?)
      && Distinct(KeysOf(History(log, resource)))
  {
    hide History, ResourceKey;
    HistoryMeaning(log, resource);
    HistoryIsWellFormed(log, resource);
    var es := History(log, resource);
    forall i, j | 0 <= i < j < |es| ensures KeysOf(es)[i] != KeysOf(es)[j] {
      assert es[i] in es && es[j] in es && Before(es[i], es[j]);
      KeyNamesEvent(es[i]);
      KeyNamesEvent(es[j]);
      LessIrreflexive(es[i].id);
    }
  }

  lemma ForeignKeyDiffers(log: seq<AuditEvent>, e: AuditEvent, other: AuditEvent, resource: string)
    requires GoodLog(log) && e in log && other in log && e.resource == Some(resource)
    requires other.resource.Some? && StartsWith(other.resource.value, ScanPrefix(resource))
    ensures ResourceKey(e) != ResourceKey(other)
  {
    hide ResourceKey;
    KeyNamesEvent(e);
    KeyNamesEvent(other);
    assert e != other;
    var i :| 0 <= i < |log| && log[i] == e;
    var j :| 0 <= j < |log| && log[j] == other;
    assert i < j || j < i;
  }

  lemma {:induction false} DistinctSize(ks: seq<string>)
    requires Distinct(ks)
    ensures |set k | k in ks| == |ks|
  {
    if ks == [] {
      assert (set k | k in ks) == {};
    } else {
      DistinctSize(ks[1..]);
      assert (set k | k in ks) == {ks[0]} + (set k | k in ks[1..]);
    }
  }

  lemma StrictlyFewer(keys: seq<string>, block: seq<string>, extra: string)
    requires Distinct(keys) && Distinct(block) && extra in block
    requires forall i | 0 <= i < |keys| :: keys[i] in block && keys[i] != extra
    ensures |keys| < |block|
  {
    var a, b := (set k | k in keys), (set k | k in block);
    DistinctSize(keys);
    DistinctSize(block);
    assert a <= b - {extra};
    SubsetSize(a, b - {extra});
  }

  lemma SameElementsSameLength(keys: seq<string>, block: seq<string>)
    requires Distinct(keys) && Distinct(block)
    requires (forall i | 0 <= i < |keys| :: keys[i] in block) && (forall k | k in block :: k in keys)
    ensures |keys| == |block|
  {
    DistinctSize(keys);
    DistinctSize(block);
    assert (set k | k in keys) == (set k | k in block);
  }

  /** The count is right exactly when no logged resource name extends the one asked for. */
  lemma CountIsHistoryLength(log: seq<AuditEvent>, resource: string)
    requires GoodLog(log) && SEPARATOR !in resource
    ensures |PrefixKeys(Indexed(log).byResource, ScanPrefix(resource))| == |History(log, resource)|
            <==> NothingExtends(log, resource)
  {
    hide History, ResourceKey, ScanPrefix, Indexed, SortedKeys, Less;
    HistoryIsWellFormed(log, resource);
    HistoryKeysAreDistinct(log, resource);
    var es := History(log, resource);
    var block, keys := PrefixKeys(Indexed(log).byResource, ScanPrefix(resource)), KeysOf(es);
    BlockElements(log, resource);
    SortedIsDistinct(block);
    if NothingExtends(log, resource) {
      SameElementsSameLength(keys, block);
    } else {
      var other :| other in log && other.resource.Some? && StartsWith(other.resource.value, ScanPrefix(resource));
      IndexedContents(log);
      KeyHasPrefix(other, resource);
      forall i | 0 <= i < |keys| ensures keys[i] != ResourceKey(other) {
        HistoryMeaning(log, resource);
        assert es[i] in es;
        ForeignKeyDiffers(log, es[i], other, resource);
      }
      StrictlyFewer(keys, block, ResourceKey(other));
    }
  }

  lemma BeforeIsOrdered(es: seq<AuditEvent>, i: nat, j: nat)
    requires NewestFirst(es) && i < |es| && j < |es| && es[i].timestamp > es[j].timestamp
    ensures i < j
  {
  }

  /** The listed event is the one whose key was scanned. */
  lemma ListedKeys(log: seq<AuditEvent>, resource: string, i: nat)
    requires GoodLog(log) && Complete(Indexed(log)) && i < |Listed(Indexed(log), resource)|
    ensures
      var e := Listed(Indexed(log), resource)[i];
      && e in log && e.resource.Some?
      && PrefixKeys(Indexed(log).byResource, ScanPrefix(resource))[i] == ResourceKey(e)
  {
    hide ResourceKey, Indexed, PrefixKeys, ScanPrefix, LastSegment;
    IndexedContents(log);
    PrefixKeysElements(Indexed(log).byResource, ScanPrefix(resource));
    var k := PrefixKeys(Indexed(log).byResource, ScanPrefix(resource))[i];
    assert k in PrefixKeys(Indexed(log).byResource, ScanPrefix(resource));
    var e :| e in log && e.resource.Some? && k == ResourceKey(e);
    KeyNamesEvent(e);
  }

  /**
   The listing of a separator-free resource is its history exactly when no logged resource name
   extends it and its events do not lie on both sides of 1970.
   */
  lemma ListingIsExact(log: seq<AuditEvent>, resource: string)
    requires GoodLog(log) && SEPARATOR !in resource
    ensures
      && Complete(Indexed(log))
      && (Listed(Indexed(log), resource) == History(log, resource)
          <==> NothingExtends(log, resource) && OneSignedTimes(log, resource))
  {
    hide History, Indexed, PrefixKeys, NothingExtends;
    IndexedIsComplete(log);
    CountIsHistoryLength(log, resource);
    if NothingExtends(log, resource) && OneSignedTimes(log, resource) {
      ListedIsHistory(log, resource);
    } else if Listed(Indexed(log), resource) == History(log, resource) {
      var e, f :| e in log && f in log && e.resource == f.resource == Some(resource)
                  && e.timestamp < 0 <= f.timestamp;
      HistoryMeaning(log, resource);
      var es := History(log, resource);
      var i :| 0 <= i < |es| && es[i] == f;
      var j :| 0 <= j < |es| && es[j] == e;
      BeforeIsOrdered(es, i, j);
      ListedKeys(log, resource, i);
      ListedKeys(log, resource, j);
      TimeKeyOrder(resource, f.timestamp, f.id, e.timestamp, e.id);
      PrefixKeysSorted(Indexed(log).byResource, ScanPrefix(resource), i, j);
    }
  }

  /**
   Reading a resource page after page, whatever the page size, gives its history exactly when no
   logged resource name extends it and its events do not lie on both sides of 1970.
   */
  lemma PagesReadHistory(log: seq<AuditEvent>, resource: string, limit: nat)
    requires GoodLog(log) && SEPARATOR !in resource && 0 < limit
    ensures
      && Complete(Indexed(log))
      && (AllPages(Listed(Indexed(log), resource), 0, limit) == History(log, resource)
          <==> NothingExtends(log, resource) && OneSignedTimes(log, resource))
  {
    hide Listed, Indexed, History, NothingExtends, OneSignedTimes, Complete, GoodLog;
    ListingIsExact(log, resource);
    var all := Listed(Indexed(log), resource);
    AllPagesAreWhole(all, 0, limit);
    assert all[0..] == all;
  }

  // --------------------------------------------------------------- the store

  class AuditStore {
    var events: map<string, AuditEvent>
    var byResource: set<string>
    /** Every event logged so far. */
    ghost var log: seq<AuditEvent>

    ghost predicate Valid()
      reads this
    {
      GoodLog(log) && Tables(events, byResource) == Indexed(log)
    }

    constructor ()
      ensures Valid() && log == []
    {
      events, byResource, log := map[], {}, [];
    }

    /** Log an event; identifiers are fresh and separator-free because they are new UUIDs. */
    method LogAuditEvent(e: AuditEvent)
      requires Valid() && WellFormed(e) && e.id !in events
      modifies this
      ensures Valid() && log == old(log) + [e]
    {
      hide ResourceKey, Indexed, GoodLog;
      ghost var before := log;
      IndexedContents(before);
      LogGrows(before, e);
      events := events[e.id := e];
      if e.resource.Some? {
        byResource := byResource + {ResourceKey(e)};
      }
      log := log + [e];
    }

    method ScanPage(resource: string, limit: nat, offset: nat) returns (results: seq<AuditEvent>)
      requires Complete(Tables(events, byResource))
      ensures results == Page(Listed(Tables(events, byResource), resource), offset, limit)
    {
      hide Complete, Listed, PrefixKeys, KeysFrom, LastSegment;
      var prefix := ScanPrefix(resource);
      var scan := KeysFrom(byResource, prefix);
      PrefixScan(byResource, prefix);
      ghost var tables := Tables(events, byResource);
      ghost var block, all := PrefixKeys(byResource, prefix), Listed(tables, resource);
      ListedLength(tables, resource);
      results := [];
      var skipped, i := 0, 0;
      while i < |scan|
        invariant 0 <= i <= |all| && skipped == Min(i, offset)
        invariant results == all[skipped..i] && |results| <= limit
      {
        var key := scan[i];
        if !StartsWith(key, prefix) {
          break;
        }
        assert key == block[i];
        if skipped < offset {
          skipped, i := skipped + 1, i + 1;
          assert all[skipped..i] == [];
          continue;
        }
        if |results| >= limit {
          break;
        }
        ListedAt(tables, resource, i);
        SliceGrows(all, skipped, i);
        var id := LastSegment(key);
        if id in events {
          results := results + [events[id]];
        }
        i := i + 1;
      }
    }

    /** One page of the resource's listing. */
    method ListAuditByResource(resource: string, limit: nat, offset: nat) returns (results: seq<AuditEvent>)
      requires Valid()
      ensures Complete(Tables(events, byResource))
      ensures results == Page(Listed(Tables(events, byResource), resource), offset, limit)
      ensures SEPARATOR !in resource && OneSignedTimes(log, resource) && NothingExtends(log, resource) ==>
                results == Page(History(log, resource), offset, limit)
    {
      hide Indexed, Complete, Listed, History, NothingExtends, OneSignedTimes, GoodLog;
      IndexedIsComplete(log);
      if SEPARATOR !in resource {
        ListingIsExact(log, resource);
      }
      results := ScanPage(resource, limit, offset);
    }

    /** The number of keys a listing would visit. */
    method CountAuditByResource(resource: string) returns (count: nat)
      ensures count == |PrefixKeys(byResource, ScanPrefix(resource))|
      ensures Valid() && SEPARATOR !in resource ==>
                (count == |History(log, resource)| <==> NothingExtends(log, resource))
    {
      hide PrefixKeys, KeysFrom, History, NothingExtends, Indexed, GoodLog;
      if Valid() && SEPARATOR !in resource {
        CountIsHistoryLength(log, resource);
      }
      var prefix := ScanPrefix(resource);
      var scan := KeysFrom(byResource, prefix);
      PrefixScan(byResource, prefix);
      count := 0;
      while count < |scan| && StartsWith(scan[count], prefix)
        invariant 0 <= count <= |PrefixKeys(byResource, prefix)|
      {
        count := count + 1;
      }
    }
  }
}
