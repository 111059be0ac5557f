/** Database migrations: Common/CommonImplementations/DBMigrationService.swift. */
module Migrations {
  import opened Outcomes
  import opened Sequences
  import opened StringOrder

  type Id = string

  /** The committed database: its schema, as an abstract value, and the table of recorded migrations. */
  datatype Store<S> = Store(schema: S, recorded: set<Id>)

  /** What setting a migration up does to the schema in this call, and whether it throws. */
  datatype SetUp<S> = SetUp(schema: S, throws: bool)

  // ----- Pending migrations -----

  function Insert(id: Id, ids: seq<Id>): seq<Id> {
    if ids == [] || !Less(ids[0], id) then [id] + ids else [ids[0]] + Insert(id, ids[1..])
  }

  /** `sorted`. */
  function SortedIds(ids: seq<Id>): seq<Id> {
    if ids == [] then [] else Insert(ids[0], SortedIds(ids[1..]))
  }

  predicate IsLatest(recorded: set<Id>, id: Id) {
    id in recorded && forall other | other in recorded && other != id :: Less(other, id)
  }

  /** `findLatest`: the greatest recorded identifier. */
  ghost function Latest(recorded: set<Id>): (r: Option<Id>)
    ensures r == None <==> recorded == {}
    ensures r.Some? ==> IsLatest(recorded, r.value)
    decreases |recorded|
  {
    if recorded == {} then None
    else
      var some :| some in recorded;
      LatestStep(recorded, some);
      match Latest(recorded - {some})
      case None => Some(some)
      case Some(id) => if Less(id, some) then Some(some) else Some(id)
  }

  lemma LatestStep(recorded: set<Id>, some: Id)
    requires some in recorded
    ensures |recorded - {some}| < |recorded|
    ensures recorded - {some} == {} ==> IsLatest(recorded, some)
    ensures forall id | IsLatest(recorded - {some}, id) :: IsLatest(recorded, if Less(id, some) then some else id)
  {
    assert recorded == (recorded - {some}) + {some};
    forall id | IsLatest(recorded - {some}, id) ensures IsLatest(recorded, if Less(id, some) then some else id) {
      Trichotomy(id, some);
      forall other | other in recorded - {some} && other != id ensures Less(id, some) ==> Less(other, some) {
        if Less(id, some) { Transitive(other, id, some); }
      }
    }
  }

  function IndexOf(ids: seq<Id>, id: Id): (k: nat)
    ensures k <= |ids|
    ensures k < |ids| ==> ids[k] == id
    ensures k == |ids| ==> id !in ids
  {
    if ids == [] || ids[0] == id then 0 else 1 + IndexOf(ids[1..], id)
  }

  /** `pendingMigrations`: what follows the latest recorded one, or everything when that one is not registered. */
  function Pending(registered: seq<Id>, latest: Option<Id>): seq<Id> {
    var ids := SortedIds(registered);
    if latest.Some? && IndexOf(ids, latest.value) < |ids| then ids[IndexOf(ids, latest.value) + 1..] else ids
  }

  lemma {:induction false} InsertMembers(id: Id, ids: seq<Id>)
    ensures multiset(Insert(id, ids)) == multiset(ids) + multiset{id}
  {
    if ids != [] && Less(ids[0], id) {
      InsertMembers(id, ids[1..]);
      assert ids == [ids[0]] + ids[1..];
    }
  }

  lemma {:induction false} InsertFacts(id: Id, ids: seq<Id>)
    requires Ascending(ids) && id !in ids
    ensures Ascending(Insert(id, ids))
  {
    if ids == [] || !Less(ids[0], id) {
      forall j | 0 <= j < |ids| ensures Less(id, ids[j]) {
        Trichotomy(id, ids[0]);
        if j > 0 { Transitive(id, ids[0], ids[j]); }
      }
    } else {
      var rest, r := ids[1..], Insert(id, ids[1..]);
      assert forall i | 0 <= i < |rest| :: rest[i] == ids[i + 1];
      InsertFacts(id, rest);
      InsertMembers(id, rest);
      forall j | 0 <= j < |r| ensures Less(ids[0], r[j]) {
        assert r[j] in multiset(r);
        assert r[j] == id || r[j] in rest;
      }
    }
  }

  /** Sorting distinct identifiers gives them in strictly ascending order. */
  lemma {:induction false} SortedFacts(ids: seq<Id>)
    requires Distinct(ids)
    ensures Ascending(SortedIds(ids))
    ensures multiset(SortedIds(ids)) == multiset(ids)
    ensures forall id :: id in SortedIds(ids) <==> id in ids
  {
    hide Less, Insert;
    if ids != [] {
      SortedFacts(ids[1..]);
      assert ids == [ids[0]] + ids[1..];
      assert forall i | 1 <= i < |ids| :: ids[i] != ids[0];
      assert ids[0] !in SortedIds(ids[1..]);
      InsertFacts(ids[0], SortedIds(ids[1..]));
      InsertMembers(ids[0], SortedIds(ids[1..]));
    }
    assert forall id :: id in SortedIds(ids) <==> id in multiset(SortedIds(ids));
  }

  /** What is pending: in ascending order, and, when the latest recorded one is registered, exactly the
      registered migrations beyond it. */
  lemma PendingFacts(registered: seq<Id>, latest: Option<Id>)
    requires Distinct(registered)
    ensures Ascending(Pending(registered, latest))
    ensures forall id | id in Pending(registered, latest) :: id in registered
    ensures latest.Some? && latest.value in registered ==>
              forall id :: id in Pending(registered, latest) <==> id in registered && Less(latest.value, id)
    ensures latest.None? || latest.value !in registered ==>
              forall id :: id in Pending(registered, latest) <==> id in registered
  {
    hide Less, SortedIds;
    SortedFacts(registered);
    var ids := SortedIds(registered);
    if latest.Some? && latest.value in registered {
      var k := IndexOf(ids, latest.value);
      var pending := ids[k + 1..];
      forall id ensures id in pending <==> id in registered && Less(latest.value, id) {
        if id in registered && Less(latest.value, id) {
          var j :| 0 <= j < |ids| && ids[j] == id;
          Trichotomy(latest.value, id);
          assert j > k;
          assert id == pending[j - k - 1];
        }
      }
    }
  }

  /** The latest recorded migration is registered, or every registered one is beyond it. */
  ghost predicate InStep(registered: seq<Id>, recorded: set<Id>) {
    recorded != {} ==>
      var latest := Latest(recorded).value;
      latest in registered || forall id | id in registered :: Less(latest, id)
  }

  ghost predicate AllBeyond(ids: seq<Id>, recorded: set<Id>) {
    forall id, earlier | id in ids && earlier in recorded :: Less(earlier, id)
  }

  /** Pending migrations all come after everything recorded exactly then. */
  lemma PendingIsNewIff(registered: seq<Id>, recorded: set<Id>)
    requires Distinct(registered)
    ensures AllBeyond(Pending(registered, Latest(recorded)), recorded) <==> InStep(registered, recorded)
  {
    hide Less, Pending, Latest;
    var latest := Latest(recorded);
    PendingFacts(registered, latest);
    if latest.Some? {
      if InStep(registered, recorded) {
        forall id, earlier | id in Pending(registered, latest) && earlier in recorded ensures Less(earlier, id) {
          assert Less(latest.value, id);
          if earlier != latest.value { Transitive(earlier, latest.value, id); }
        }
      } else {
        var id :| id in registered && !Less(latest.value, id);
        assert id in Pending(registered, latest) && latest.value in recorded;
        assert !AllBeyond(Pending(registered, latest), recorded);
      }
    }
  }

  /** A recorded migration is pending again exactly when the latest recorded one is not registered and some
      other one is. */
  lemma PendingAgainIff(registered: seq<Id>, recorded: set<Id>)
    requires Distinct(registered)
    ensures (exists id | id in Pending(registered, Latest(recorded)) :: id in recorded) <==>
            && recorded != {} && Latest(recorded).value !in registered
            && exists id | id in registered :: id in recorded
  {
    hide Less, Pending, Latest;
    var latest := Latest(recorded);
    PendingFacts(registered, latest);
    if latest.Some? && latest.value in registered {
      forall id | id in Pending(registered, latest) ensures id !in recorded {
        assert Less(latest.value, id);
        if id in recorded {
          Trichotomy(latest.value, id);
        }
      }
    }
  }

  // ----- Running them -----

  /** The effect of setting up a list of migrations one after the other, or a throw. */
  function SetUpAll<S>(setUp: (Id, S) -> SetUp<S>, schema: S, ids: seq<Id>): Option<S> {
    if ids == [] then Some(schema)
    else
      var before := SetUpAll(setUp, schema, ids[..|ids| - 1]);
      if before.None? then None
      else
        var r := setUp(ids[|ids| - 1], before.value);
        if r.throws then None else Some(r.schema)
  }

  lemma {:induction false} SetUpPrefix<S>(setUp: (Id, S) -> SetUp<S>, schema: S, ids: seq<Id>, k: nat)
    requires k <= |ids| && SetUpAll(setUp, schema, ids[..k]).None?
    ensures SetUpAll(setUp, schema, ids).None?
    decreases |ids| - k
  {
    if k == |ids| {
      assert ids[..k] == ids;
    } else {
      assert ids[..k + 1][..k] == ids[..k];
      SetUpPrefix(setUp, schema, ids, k + 1);
    }
  }

  function IdSet(ids: seq<Id>): set<Id> {
    set i | 0 <= i < |ids| :: ids[i]
  }

  lemma IdSetSnoc(ids: seq<Id>, i: nat)
    requires i < |ids|
    ensures IdSet(ids[..i + 1]) == IdSet(ids[..i]) + {ids[i]}
  {
    assert ids[..i + 1][i] == ids[i];
    assert forall k | 0 <= k < i :: ids[..i + 1][k] == ids[..i][k];
  }

  /** A migrate call: all pending migrations are set up and recorded together, or nothing changes. */
  ghost function Migrated<S>(store: Store<S>, registered: seq<Id>, setUp: (Id, S) -> SetUp<S>, commits: bool)
    : (Store<S>, bool)
  {
    var pending := Pending(registered, Latest(store.recorded));
    if pending == [] then (store, true)
    else
      match SetUpAll(setUp, store.schema, pending)
      case None => (store, false)
      case Some(schema) =>
        if commits then (Store(schema, store.recorded + IdSet(pending)), true) else (store, false)
  }

  /** A database with one transaction at a time: the committed store, and the working copy inside one. */
  class Database<S> {
    var committed: Store<S>
    var working: Option<Store<S>>

    constructor (schema: S)
      ensures committed == Store(schema, {}) && working == None
    {
      committed, working := Store(schema, {}), None;
    }

    method Begin()
      requires working == None
      modifies this
      ensures committed == old(committed) && working == Some(committed)
    {
      working := Some(committed);
    }

    method Commit(succeeds: bool)
      requires working.Some?
      modifies this
      ensures succeeds ==> committed == old(working).value && working == None
      ensures !succeeds ==> committed == old(committed) && working == old(working)
    {
      if succeeds {
        committed, working := working.value, None;
      }
    }

    method Rollback()
      modifies this
      ensures committed == old(committed) && working == None
    {
      working := None;
    }

    /** `ORDER BY id DESC LIMIT 1` over the committed rows. */
    method FindLatest() returns (r: Option<Id>)
      ensures r == Latest(committed.recorded)
    {
      if committed.recorded == {} {
        return None;
      }
      assert IsLatest(committed.recorded, Latest(committed.recorded).value);
      var id :| id in committed.recorded && IsLatest(committed.recorded, id);
      LatestUnique(committed.recorded, Some(id));
      return Some(id);
    }
  }

  lemma LatestUnique(recorded: set<Id>, r: Option<Id>)
    requires r == None <==> recorded == {}
    requires r.Some? ==> IsLatest(recorded, r.value)
    ensures r == Latest(recorded)
  {
    if r.Some? {
      Trichotomy(r.value, Latest(recorded).value);
    }
  }

  class MigrationService<S> {
    const db: Database<S>
    var migrations: seq<Id>

    constructor (db: Database<S>)
      ensures this.db == db && migrations == []
    {
      this.db, migrations := db, [];
    }

    method Register(id: Id)
      modifies this
      ensures migrations == old(migrations) + [id]
    {
      migrations := migrations + [id];
    }

    /** The body of the transaction: each migration is set up and recorded in turn. */
    method SetUpEach(pending: seq<Id>, setUp: (Id, S) -> SetUp<S>) returns (threw: bool)
      requires db.working.Some?
      modifies db
      ensures db.committed == old(db.committed) && db.working.Some?
      ensures threw <==> SetUpAll(setUp, old(db.working).value.schema, pending).None?
      ensures !threw ==> SetUpAll(setUp, old(db.working).value.schema, pending) == Some(db.working.value.schema)
      ensures !threw ==> db.working.value.recorded == old(db.working).value.recorded + IdSet(pending)
    {
      ghost var start := db.working.value;
      assert pending[..0] == [];
      for i := 0 to |pending|
        invariant db.committed == old(db.committed) && db.working.Some?
        invariant SetUpAll(setUp, start.schema, pending[..i]) == Some(db.working.value.schema)
        invariant db.working.value.recorded == start.recorded + IdSet(pending[..i])
      {
        var migration := pending[i];
        var store := db.working.value;
        var r := setUp(migration, store.schema);
        assert pending[..i + 1][..i] == pending[..i];
        if r.throws {
          SetUpPrefix(setUp, start.schema, pending, i + 1);
          return true;
        }
        db.working := Some(Store(r.schema, store.recorded + {migration}));
        IdSetSnoc(pending, i);
      }
      assert pending[..|pending|] == pending;
      return false;
    }

    /** All pending migrations inside one transaction; a throw or a failed commit rolls them back. */
    method Migrate(setUp: (Id, S) -> SetUp<S>, commits: bool) returns (ok: bool)
      requires db.working == None
      modifies db
      ensures (db.committed, ok) == Migrated(old(db.committed), migrations, setUp, commits)
      ensures db.working == None
    {
      hide Pending, SetUpAll, Latest;
      var latest := db.FindLatest();
      var pending := Pending(migrations, latest);
      if pending == [] {
        return true;
      }
      db.Begin();
      var threw := SetUpEach(pending, setUp);
      if threw {
        db.Rollback();
        return false;
      }
      db.Commit(commits);
      if !commits {
        db.Rollback();
      }
      return commits;
    }

    /** Records one migration without setting it up. */
    method SkipMigrationsBeforeAndIncluding(id: Id, commits: bool) returns (ok: bool)
      requires db.working == None
      modifies db
      ensures db.committed == if commits then old(db.committed).(recorded := old(db.committed).recorded + {id})
                              else old(db.committed)
      ensures ok == commits && db.working == None
    {
      db.Begin();
      db.working := Some(db.working.value.(recorded := db.working.value.recorded + {id}));
      db.Commit(commits);
      if !commits {
        db.Rollback();
      }
      return commits;
    }
  }

  // ----- Histories -----

  datatype Event<!S> =
    | Register(id: Id)
    | Migrate(setUp: (Id, S) -> SetUp<S>, commits: bool)
    | Skip(id: Id, commits: bool)

  /** The registered identifiers, the committed store, the migrations whose set-up was committed, in order and
      with the set-up each call used, and the committed skips. */
  datatype History<!S> = History(
    registered: seq<Id>, store: Store<S>, runs: seq<Id>, setUps: seq<(Id, S) -> SetUp<S>>, skipped: set<Id>)

  ghost function Repeated<T>(x: T, count: nat): (r: seq<T>)
    ensures |r| == count && forall i | 0 <= i < count :: r[i] == x
  {
    seq(count, i => x)
  }

  ghost function Next<S>(h: History<S>, e: Event<S>): History<S> {
    match e
    case Register(id) => h.(registered := h.registered + [id])
    case Migrate(setUp, commits) =>
      var (store, ok) := Migrated(h.store, h.registered, setUp, commits);
      var pending := Pending(h.registered, Latest(h.store.recorded));
      if ok then h.(store := store, runs := h.runs + pending, setUps := h.setUps + Repeated(setUp, |pending|))
      else h.(store := store)
    case Skip(id, commits) =>
      if commits then h.(store := h.store.(recorded := h.store.recorded + {id}), skipped := h.skipped + {id}) else h
  }

  ghost function After<S>(schema: S, events: seq<Event<S>>): History<S> {
    if events == [] then History([], Store(schema, {}), [], [], {})
    else Next(After(schema, events[..|events| - 1]), events[|events| - 1])
  }

  /** Identifiers are registered once, and a migrate call finds the registered ones in step with the records. */
  ghost predicate Allowed<S>(h: History<S>, e: Event<S>) {
    match e
    case Register(id) => id !in h.registered
    case Migrate(_, _) => InStep(h.registered, h.store.recorded)
    case Skip(_, _) => true
  }

  ghost predicate AllAllowed<S>(schema: S, events: seq<Event<S>>) {
    forall i | 0 <= i < |events| :: Allowed(After(schema, events[..i]), events[i])
  }

  ghost predicate Orderly<S>(h: History<S>) {
    Distinct(h.registered) && Ascending(h.runs) && IdSet(h.runs) <= h.store.recorded
  }

  lemma AscendingConcat(a: seq<Id>, b: seq<Id>)
    requires Ascending(a) && Ascending(b) && forall x, y | x in a && y in b :: Less(x, y)
    ensures Ascending(a + b)
  {}

  lemma NextOrderly<S>(h: History<S>, e: Event<S>)
    requires Orderly(h) && Allowed(h, e)
    ensures Orderly(Next(h, e))
  {
    if e.Migrate? {
      hide Pending, Latest, Ascending, SetUpAll;
      var pending := Pending(h.registered, Latest(h.store.recorded));
      PendingFacts(h.registered, Latest(h.store.recorded));
      PendingIsNewIff(h.registered, h.store.recorded);
      forall x, y | x in h.runs && y in pending ensures Less(x, y) {
        assert x in IdSet(h.runs);
      }
      AscendingConcat(h.runs, pending);
      assert IdSet(h.runs + pending) <= IdSet(h.runs) + IdSet(pending);
    }
  }

  /** Over every allowed history the committed migrations have strictly increasing identifiers, so each was
      run at most once, and all of them are recorded. */
  lemma {:induction false} MigrationsRunInOrder<S>(schema: S, events: seq<Event<S>>)
    requires AllAllowed(schema, events)
    ensures Orderly(After(schema, events))
  {
    if events != [] {
      var before := events[..|events| - 1];
      assert forall i | 0 <= i < |before| :: before[..i] == events[..i];
      MigrationsRunInOrder(schema, before);
      NextOrderly(After(schema, before), events[|events| - 1]);
    }
  }

  /** The schema that set-ups give one after the other, outside any transaction. */
  ghost function Rebuilt<S>(schema: S, runs: seq<Id>, setUps: seq<(Id, S) -> SetUp<S>>): Option<S>
    requires |runs| == |setUps|
  {
    if runs == [] then Some(schema)
    else
      var n := |runs| - 1;
      var before := Rebuilt(schema, runs[..n], setUps[..n]);
      if before.None? then None
      else
        var r := setUps[n](runs[n], before.value);
        if r.throws then None else Some(r.schema)
  }

  lemma {:induction false} RebuiltOnward<S>(
    schema: S, runs: seq<Id>, setUps: seq<(Id, S) -> SetUp<S>>, setUp: (Id, S) -> SetUp<S>, more: seq<Id>)
    requires |runs| == |setUps| && Rebuilt(schema, runs, setUps).Some?
    ensures Rebuilt(schema, runs + more, setUps + Repeated(setUp, |more|)) ==
            SetUpAll(setUp, Rebuilt(schema, runs, setUps).value, more)
    decreases |more|
  {
    var all, ways := runs + more, setUps + Repeated(setUp, |more|);
    if more == [] {
      assert all == runs && ways == setUps;
    } else {
      var n := |all| - 1;
      RebuiltOnward(schema, runs, setUps, setUp, more[..|more| - 1]);
      assert all[..n] == runs + more[..|more| - 1];
      assert ways[..n] == setUps + Repeated(setUp, |more| - 1);
    }
  }

  /** The store holds the effect of the committed migrations and nothing else: its schema is the one their
      set-ups give without any transaction, and what is recorded was run or skipped. */
  ghost predicate Faithful<S>(schema: S, h: History<S>) {
    && |h.runs| == |h.setUps| && Rebuilt(schema, h.runs, h.setUps) == Some(h.store.schema)
    && h.store.recorded == IdSet(h.runs) + h.skipped
  }

  lemma NextFaithful<S>(schema: S, h: History<S>, e: Event<S>)
    requires Faithful(schema, h)
    ensures Faithful(schema, Next(h, e))
  {
    if e.Migrate? {
      hide Pending, Latest, SetUpAll, Rebuilt;
      var pending := Pending(h.registered, Latest(h.store.recorded));
      RebuiltOnward(schema, h.runs, h.setUps, e.setUp, pending);
      IdSetConcat(h.runs, pending);
      if pending == [] {
        assert h.runs + pending == h.runs && h.setUps + Repeated(e.setUp, 0) == h.setUps;
      }
    }
  }

  lemma IdSetConcat(a: seq<Id>, b: seq<Id>)
    ensures IdSet(a + b) == IdSet(a) + IdSet(b)
  {
    assert forall i | 0 <= i < |a| :: (a + b)[i] == a[i];
    assert forall i | 0 <= i < |b| :: (a + b)[|a| + i] == b[i];
  }

  /** Over every history whatsoever, with throwing set-ups and failing commits, the committed store is what
      the committed migrations alone make of the first schema. */
  lemma {:induction false} StoreIsFaithful<S>(schema: S, events: seq<Event<S>>)
    ensures Faithful(schema, After(schema, events))
  {
    if events != [] {
      StoreIsFaithful(schema, events[..|events| - 1]);
      NextFaithful(schema, After(schema, events[..|events| - 1]), events[|events| - 1]);
    }
  }

  /** So no migration was committed twice. */
  lemma RunAtMostOnce<S>(schema: S, events: seq<Event<S>>, i: nat, j: nat)
    requires AllAllowed(schema, events)
    requires i < j < |After(schema, events).runs|
    ensures After(schema, events).runs[i] != After(schema, events).runs[j]
  {
    hide After, AllAllowed;
    MigrationsRunInOrder(schema, events);
    var runs := After(schema, events).runs;
    Trichotomy(runs[i], runs[j]);
  }

  lemma LastIsLatest(registered: seq<Id>, recorded: set<Id>)
    requires Distinct(registered) && InStep(registered, recorded)
    requires Pending(registered, Latest(recorded)) != []
    ensures var pending := Pending(registered, Latest(recorded));
      Latest(recorded + IdSet(pending)) == Some(pending[|pending| - 1])
  {
    hide Pending, Latest;
    var pending := Pending(registered, Latest(recorded));
    PendingFacts(registered, Latest(recorded));
    PendingIsNewIff(registered, recorded);
    var last := pending[|pending| - 1];
    var all := recorded + IdSet(pending);
    assert last in pending && last in IdSet(pending);
    forall id | id in all && id != last ensures Less(id, last) {
      if id in IdSet(pending) {
        var k :| 0 <= k < |pending| && pending[k] == id;
      }
    }
    LatestUnique(all, Some(last));
  }

  lemma NothingAfterLast(registered: seq<Id>, latest: Option<Id>)
    requires Distinct(registered)
    requires Pending(registered, latest) != []
    ensures var pending := Pending(registered, latest); Pending(registered, Some(pending[|pending| - 1])) == []
  {
    hide Pending, Ascending;
    var pending := Pending(registered, latest);
    var last := pending[|pending| - 1];
    PendingFacts(registered, latest);
    assert last in pending;
    PendingFacts(registered, Some(last));
    var again := Pending(registered, Some(last));
    if again != [] {
      var id := again[0];
      assert id in again;
      NoneBeyondLast(registered, latest, id);
    }
  }

  /** After a migrate call that went through, another one finds nothing to do. */
  lemma SecondMigrateIsIdle<S>(h: History<S>, first: Event<S>)
    requires Orderly(h) && first.Migrate? && Allowed(h, first)
    requires Migrated(h.store, h.registered, first.setUp, first.commits).1
    ensures var after := Next(h, first);
      Pending(after.registered, Latest(after.store.recorded)) == []
  {
    hide Pending, Latest, Ascending, SetUpAll;
    if Pending(h.registered, Latest(h.store.recorded)) != [] {
      LastIsLatest(h.registered, h.store.recorded);
      NothingAfterLast(h.registered, Latest(h.store.recorded));
    }
  }

  lemma NoneBeyondLast(registered: seq<Id>, latest: Option<Id>, id: Id)
    requires Distinct(registered) && id in registered
    requires Pending(registered, latest) != []
    ensures var pending := Pending(registered, latest); !Less(pending[|pending| - 1], id)
  {
    PendingFacts(registered, latest);
    var pending := Pending(registered, latest);
    var last := pending[|pending| - 1];
    if Less(last, id) {
      if latest.Some? && latest.value in registered {
        assert last in pending;
        Transitive(latest.value, last, id);
      }
      assert id in pending;
      var k :| 0 <= k < |pending| && pending[k] == id;
      Trichotomy(last, id);
    }
  }

  /** Counts the set-ups in the schema. */
  function CountSetUp(id: Id, schema: int): SetUp<int> {
    SetUp(schema + 1, false)
  }

  lemma OneRegistered(latest: Option<Id>)
    requires latest == None || latest == Some("z")
    ensures Pending(["a"], latest) == ["a"]
  {
    assert SortedIds(["a"]) == Insert("a", SortedIds([]));
    assert SortedIds(["a"]) == ["a"];
    assert IndexOf(["a"], "z") == 1;
  }

  /** Register, migrate, skip to an unregistered migration, migrate: the first one is set up twice. */
  lemma UnregisteredLatestRunsAgain()
    ensures var migrate := Event.Migrate(CountSetUp, true);
      var h := After(0, [Event.Register("a"), migrate, Skip("z", true), migrate]);
      h.runs == ["a", "a"] && h.store == Store(2, {"a", "z"})
  {
    hide Pending, Latest, After, Migrated, SetUpAll;
    var migrate := Event.Migrate(CountSetUp, true);
    AfterFour(0, Event.Register("a"), migrate, Skip("z", true), migrate);
    var h1 := Next(History([], Store(0, {}), [], [], {}), Event.Register("a"));
    LatestUnique({}, None);
    MigrateRunsA(h1);
    ZIsLatest();
    MigrateRunsA(Next(Next(h1, migrate), Skip("z", true)));
  }

  lemma ZIsLatest()
    ensures Latest({"a", "z"}) == Some("z")
  {
    assert Less("a", "z") && IsLatest({"a", "z"}, "z");
    LatestUnique({"a", "z"}, Some("z"));
  }

  lemma MigrateRunsA(h: History<int>)
    requires h.registered == ["a"] && (Latest(h.store.recorded) == None || Latest(h.store.recorded) == Some("z"))
    ensures var next := Next(h, Event.Migrate(CountSetUp, true));
      && next.registered == ["a"] && next.runs == h.runs + ["a"]
      && next.store == Store(h.store.schema + 1, h.store.recorded + {"a"})
  {
    hide Pending, Latest, SetUpAll;
    OneRegistered(Latest(h.store.recorded));
    OneSetUp(h.store.schema);
    assert ["a"][0] == "a";
    assert IdSet(["a"]) == {"a"};
  }

  lemma AfterFour<S>(schema: S, a: Event<S>, b: Event<S>, c: Event<S>, d: Event<S>)
    ensures var start := History([], Store(schema, {}), [], [], {});
      After(schema, [a, b, c, d]) == Next(Next(Next(Next(start, a), b), c), d)
  {
    hide Next;
    assert [a, b, c, d][..3] == [a, b, c] && [a, b, c][..2] == [a, b] && [a, b][..1] == [a] && [a][..0] == [];
    assert After(schema, [a]) == Next(After(schema, []), a);
    assert After(schema, [a, b]) == Next(After(schema, [a]), b);
    assert After(schema, [a, b, c]) == Next(After(schema, [a, b]), c);
  }

  lemma OneSetUp(schema: int)
    ensures SetUpAll(CountSetUp, schema, ["a"]) == Some(schema + 1)
  {
    assert ["a"][..0] == [];
  }

  /** A migrate call goes through exactly when nothing is pending, or no set-up throws and the commit succeeds;
      it then records exactly what was pending, and otherwise changes nothing. */
  lemma MigrateGoesThrough<S>(h: History<S>, e: Event<S>)
    requires e.Migrate?
    ensures var pending := Pending(h.registered, Latest(h.store.recorded));
      var (store, ok) := Migrated(h.store, h.registered, e.setUp, e.commits);
      && (ok <==> pending == [] ||
                  (e.commits && Rebuilt(h.store.schema, pending, Repeated(e.setUp, |pending|)).Some?))
      && (ok ==> store.recorded == h.store.recorded + IdSet(pending))
      && (!ok ==> store == h.store)
  {
    hide Pending, Latest, SetUpAll, Rebuilt;
    var pending := Pending(h.registered, Latest(h.store.recorded));
    RebuiltFromNothing(h.store.schema, e.setUp, pending);
    if pending == [] {
      assert h.store.recorded + IdSet(pending) == h.store.recorded;
    }
  }

  lemma RebuiltFromNothing<S>(schema: S, setUp: (Id, S) -> SetUp<S>, ids: seq<Id>)
    ensures Rebuilt(schema, ids, Repeated(setUp, |ids|)) == SetUpAll(setUp, schema, ids)
  {
    RebuiltOnward(schema, [], [], setUp, ids);
    assert [] + ids == ids && [] + Repeated(setUp, |ids|) == Repeated(setUp, |ids|);
  }
}
