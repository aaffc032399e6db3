/** The permission repository behind a cache with expiring entries, under concurrent readers and cache failures. */
module PermissionCache {
  import opened Outcomes
  import opened Strings
  import opened Sorting

  // ---- Keys ----

  function CacheKey(roleCodes: seq<string>): string {
    "cache:permissions:" + Join(SortBy(roleCodes, Itself), ",")
  }

  predicate CommaFree(roleCodes: seq<string>) {
    forall code <- roleCodes :: ',' !in code
  }

  /** The order of the codes never matters. */
  lemma PermutationsShareKey(a: seq<string>, b: seq<string>)
    requires multiset(a) == multiset(b)
    ensures CacheKey(a) == CacheKey(b)
  {
    SortByIsSortedPermutation(a, Itself);
    SortByIsSortedPermutation(b, Itself);
    SortedIsUnique(SortBy(a, Itself), SortBy(b, Itself), Itself);
  }

  /** The key is the codes in ascending order, joined by commas. */
  lemma KeyIsSortedCodes(roleCodes: seq<string>, sorted: seq<string>)
    requires multiset(sorted) == multiset(roleCodes)
    requires forall i, j :: 0 <= i < j < |sorted| ==> !Less(sorted[j], sorted[i])
    ensures CacheKey(roleCodes) == "cache:permissions:" + Join(sorted, ",")
  {
    SortByIsSortedPermutation(roleCodes, Itself);
    SortedIsUnique(SortBy(roleCodes, Itself), sorted, Itself);
  }

  /** Lists of comma-free codes share a key exactly when one is a permutation of the other. */
  lemma KeysIdentifyRoleLists(a: seq<string>, b: seq<string>)
    requires a != [] && b != [] && CommaFree(a) && CommaFree(b)
    ensures CacheKey(a) == CacheKey(b) <==> multiset(a) == multiset(b)
  {
    var x, y := SortBy(a, Itself), SortBy(b, Itself);
    if multiset(a) == multiset(b) {
      PermutationsShareKey(a, b);
    }
    SortByIsSortedPermutation(a, Itself);
    SortByIsSortedPermutation(b, Itself);
    hide SortBy, Sorted, Join, Split;
    if CacheKey(a) == CacheKey(b) {
      assert Join(x, ",") == CacheKey(a)[18..] == CacheKey(b)[18..] == Join(y, ",");
      SortedCodesLackCommas(a, x);
      SortedCodesLackCommas(b, y);
      SplitUndoesJoin(x, ',');
      SplitUndoesJoin(y, ',');
    }
  }

  lemma SortedCodesLackCommas(codes: seq<string>, sorted: seq<string>)
    requires CommaFree(codes) && codes != [] && multiset(sorted) == multiset(codes)
    ensures sorted != [] && forall k :: 0 <= k < |sorted| ==> ',' !in sorted[k]
  {
    assert codes[0] in multiset(sorted);
    forall k | 0 <= k < |sorted|
      ensures ',' !in sorted[k]
    {
      assert sorted[k] in multiset(codes);
    }
  }

  /** A comma inside a code breaks this: two or more codes share an entry with the one code of their joined text. */
  lemma CommasCollide(codes: seq<string>)
    requires |codes| >= 2
    ensures var merged := [Join(SortBy(codes, Itself), ",")];
      CacheKey(merged) == CacheKey(codes) && multiset(merged) != multiset(codes)
  {
    var merged := [Join(SortBy(codes, Itself), ",")];
    assert SortBy(merged[1..], Itself) == [];
    assert SortBy(merged, Itself) == merged;
    assert |multiset(merged)| == 1 && |multiset(codes)| == |codes|;
  }

  // ---- The database ----

  /** The permissions of each role. */
  type Database = map<string, set<string>>

  /** The distinct permissions of the listed roles; the order of the rows is not fixed. */
  function Answer(db: Database, roleCodes: seq<string>): set<string> {
    set code, permission | code in roleCodes && code in db && permission in db[code] :: permission
  }

  lemma SameKeySameAnswer(db: Database, a: seq<string>, b: seq<string>)
    requires a != [] && b != [] && CommaFree(a) && CommaFree(b) && CacheKey(a) == CacheKey(b)
    ensures Answer(db, a) == Answer(db, b)
  {
    KeysIdentifyRoleLists(a, b);
    assert forall code :: code in a <==> code in multiset(a);
    assert forall code :: code in b <==> code in multiset(b);
  }

  // ---- Readers, the cache and time ----

  /** A stored text and its expiry; a text that does not parse has no permissions. */
  datatype Entry = Entry(permissions: Option<set<string>>, expiresAt: nat)

  /** How far one call has got. */
  datatype Reader =
    | AskingCache(roleCodes: seq<string>)
    | AskingDatabase(roleCodes: seq<string>)
    | WritingCache(roleCodes: seq<string>, answer: set<string>, readAt: nat)
    | Answered(roleCodes: seq<string>, answer: set<string>, answeredAt: nat)
    | Rejected(roleCodes: seq<string>)

  datatype World = World(now: nat, db: Database, cache: map<string, Entry>, readers: seq<Reader>)

  /** The entry lifetime, and a bound on the time from a database read until its cache write lands or is lost. */
  datatype Timing = Timing(ttl: nat, maxGap: nat) {
    /** How old an answer can get: as old as its cache write is late, then until the last moment of its entry. */
    function MaxAge(): nat {
      if ttl == 0 then maxGap else ttl + maxGap - 1
    }
  }

  datatype Event =
    | Tick(duration: nat)
    | DatabaseWrite(db: Database)
    | Call(roleCodes: seq<string>)
    | CacheReply(reader: nat, available: bool)
    | DatabaseReply(reader: nat, available: bool)
    | CacheWrite(reader: nat, available: bool)
    | CacheWriteTimesOut(reader: nat)
    | Evict(key: string)
    | Corrupt(key: string)

  predicate IsEnabled(w: World, e: Event, timing: Timing) {
    match e
    case Tick(duration) =>
      forall r <- w.readers :: r.WritingCache? ==> w.now + duration <= r.readAt + timing.maxGap
    case DatabaseWrite(_) => true
    case Call(_) => true
    case CacheReply(p, _) => p < |w.readers| && w.readers[p].AskingCache?
    case DatabaseReply(p, _) => p < |w.readers| && w.readers[p].AskingDatabase?
    case CacheWrite(p, _) => p < |w.readers| && w.readers[p].WritingCache?
    case CacheWriteTimesOut(p) => p < |w.readers| && w.readers[p].WritingCache?
    case Evict(_) => true
    case Corrupt(key) => key in w.cache
  }

  /** A call for no roles answers at once. */
  function NewReader(roleCodes: seq<string>, now: nat): Reader {
    if roleCodes == [] then Answered([], {}, now) else AskingCache(roleCodes)
  }

  /** An unavailable cache, a missing or expired entry, or a corrupt one, sends the reader to the database. */
  function AfterCacheReply(roleCodes: seq<string>, cache: map<string, Entry>, now: nat, available: bool): Reader {
    var key := CacheKey(roleCodes);
    if available && key in cache && now < cache[key].expiresAt && cache[key].permissions.Some?
    then Answered(roleCodes, cache[key].permissions.value, now)
    else AskingDatabase(roleCodes)
  }

  function Apply(w: World, e: Event, timing: Timing): World
    requires IsEnabled(w, e, timing)
  {
    match e
    case Tick(duration) => w.(now := w.now + duration)
    case DatabaseWrite(db) => w.(db := db)
    case Call(roleCodes) => w.(readers := w.readers + [NewReader(roleCodes, w.now)])
    case CacheReply(p, available) =>
      w.(readers := w.readers[p := AfterCacheReply(w.readers[p].roleCodes, w.cache, w.now, available)])
    case DatabaseReply(p, available) =>
      var roleCodes := w.readers[p].roleCodes;
      var next := if available then WritingCache(roleCodes, Answer(w.db, roleCodes), w.now) else Rejected(roleCodes);
      w.(readers := w.readers[p := next])
    case CacheWrite(p, available) =>
      var r := w.readers[p];
      World(w.now, w.db,
            if available then w.cache[CacheKey(r.roleCodes) := Entry(Some(r.answer), w.now + timing.ttl)] else w.cache,
            w.readers[p := Answered(r.roleCodes, r.answer, w.now)])
    case CacheWriteTimesOut(p) =>
      // The caller goes on while the write may still land: it lives on as a writer of its own.
      var r := w.readers[p];
      w.(readers := w.readers[p := Answered(r.roleCodes, r.answer, w.now)] + [r])
    case Evict(key) => w.(cache := w.cache - {key})
    case Corrupt(key) => w.(cache := w.cache[key := w.cache[key].(permissions := None)])
  }

  predicate IsRun(worlds: seq<World>, events: seq<Event>, timing: Timing) {
    && |worlds| == |events| + 1
    && worlds[0].cache == map[] && worlds[0].readers == []
    && forall i :: 0 <= i < |events| ==>
         IsEnabled(worlds[i], events[i], timing) && worlds[i + 1] == Apply(worlds[i], events[i], timing)
  }

  // ---- Staleness ----

  /** The role lists called for so far. */
  function Called(w: World): set<seq<string>> {
    set r | r in w.readers :: r.roleCodes
  }

  /** Lists that use one cache entry; a call for no roles uses none. */
  predicate SharesEntry(a: seq<string>, b: seq<string>) {
    a == b || (a != [] && b != [] && CacheKey(a) == CacheKey(b))
  }

  /**
   * Some state of the run up to `i`, no older than `since`, whose database gave this answer to a called list of the
   * entry.
   */
  ghost predicate WasAnswer(worlds: seq<World>, i: nat, roleCodes: seq<string>, answer: set<string>, since: int)
    requires i < |worlds|
  {
    exists j, asked | 0 <= j <= i && asked in Called(worlds[i]) ::
      SharesEntry(asked, roleCodes) && since <= worlds[j].now <= worlds[i].now && Answer(worlds[j].db, asked) == answer
  }

  ghost predicate ReaderIsSound(worlds: seq<World>, i: nat, r: Reader, timing: Timing)
    requires i < |worlds|
  {
    && (r.AskingCache? || r.AskingDatabase? ==> r.roleCodes != [])
    && (r.WritingCache? ==>
          r.roleCodes != [] && worlds[i].now <= r.readAt + timing.maxGap
          && WasAnswer(worlds, i, r.roleCodes, r.answer, r.readAt))
    && (r.Answered? ==>
          WasAnswer(worlds, i, r.roleCodes, r.answer, r.answeredAt - timing.MaxAge()) && r.answeredAt <= worlds[i].now)
  }

  /** A readable entry holds an answer for every role list with its key, young enough when it expires. */
  ghost predicate EntryIsSound(worlds: seq<World>, i: nat, key: string, entry: Entry, timing: Timing)
    requires i < |worlds|
  {
    entry.permissions.Some? ==>
      forall roleCodes | roleCodes != [] && CacheKey(roleCodes) == key ::
        WasAnswer(worlds, i, roleCodes, entry.permissions.value, entry.expiresAt - timing.ttl - timing.maxGap)
  }

  ghost predicate IsSound(worlds: seq<World>, i: nat, timing: Timing)
    requires i < |worlds|
  {
    && (forall r <- worlds[i].readers :: ReaderIsSound(worlds, i, r, timing))
    && (forall key <- worlds[i].cache :: EntryIsSound(worlds, i, key, worlds[i].cache[key], timing))
  }

  /** The next state remembers every call, and its clock has not moved back. */
  ghost predicate Continues(worlds: seq<World>, i: nat) {
    i + 1 < |worlds| && worlds[i].now <= worlds[i + 1].now && Called(worlds[i]) <= Called(worlds[i + 1])
  }

  lemma StepContinues(worlds: seq<World>, i: nat, e: Event, timing: Timing)
    requires i + 1 < |worlds| && IsEnabled(worlds[i], e, timing) && worlds[i + 1] == Apply(worlds[i], e, timing)
    ensures Continues(worlds, i)
  {
    hide CacheKey, Answer;
    var w, next := worlds[i], worlds[i + 1];
    forall r | r in w.readers
      ensures r.roleCodes in Called(next)
    {
      var q :| 0 <= q < |w.readers| && w.readers[q] == r;
      assert next.readers[q] in next.readers && next.readers[q].roleCodes == r.roleCodes;
    }
  }

  lemma AnswersLast(worlds: seq<World>, i: nat, roleCodes: seq<string>, answer: set<string>, since: int, later: int)
    requires Continues(worlds, i) && later <= since
    requires WasAnswer(worlds, i, roleCodes, answer, since)
    ensures WasAnswer(worlds, i + 1, roleCodes, answer, later)
  {
    hide Called, SharesEntry, Answer;
    var j, asked :| 0 <= j <= i && asked in Called(worlds[i]) &&
      SharesEntry(asked, roleCodes) && since <= worlds[j].now <= worlds[i].now && Answer(worlds[j].db, asked) == answer;
    assert asked in Called(worlds[i + 1]) && worlds[j].now <= worlds[i + 1].now;
  }

  lemma OldReadersStaySound(worlds: seq<World>, i: nat, r: Reader, timing: Timing)
    requires Continues(worlds, i) && ReaderIsSound(worlds, i, r, timing)
    requires r.WritingCache? ==> worlds[i + 1].now <= r.readAt + timing.maxGap
    ensures ReaderIsSound(worlds, i + 1, r, timing)
  {
    hide WasAnswer;
    if r.WritingCache? {
      AnswersLast(worlds, i, r.roleCodes, r.answer, r.readAt, r.readAt);
    }
    if r.Answered? {
      AnswersLast(worlds, i, r.roleCodes, r.answer, r.answeredAt - timing.MaxAge(), r.answeredAt - timing.MaxAge());
    }
  }

  lemma OldEntriesStaySound(worlds: seq<World>, i: nat, key: string, entry: Entry, timing: Timing)
    requires Continues(worlds, i) && EntryIsSound(worlds, i, key, entry, timing)
    ensures EntryIsSound(worlds, i + 1, key, entry, timing)
  {
    hide WasAnswer, CacheKey;
    if entry.permissions.Some? {
      var since := entry.expiresAt - timing.ttl - timing.maxGap;
      forall roleCodes | roleCodes != [] && CacheKey(roleCodes) == key
        ensures WasAnswer(worlds, i + 1, roleCodes, entry.permissions.value, since)
      {
        AnswersLast(worlds, i, roleCodes, entry.permissions.value, since, since);
      }
    }
  }

  /** The reader an event moves on ends up sound. */
  lemma MovedReaderIsSound(worlds: seq<World>, i: nat, e: Event, p: nat, timing: Timing)
    requires Continues(worlds, i) && IsSound(worlds, i, timing)
    requires IsEnabled(worlds[i], e, timing) && worlds[i + 1] == Apply(worlds[i], e, timing)
    requires e == CacheReply(p, true) || e == CacheReply(p, false) || e == DatabaseReply(p, true)
        || e == DatabaseReply(p, false)
          || e == CacheWrite(p, true) || e == CacheWrite(p, false) || e == CacheWriteTimesOut(p)
    ensures ReaderIsSound(worlds, i + 1, worlds[i + 1].readers[p], timing)
  {
    hide CacheKey, Answer;
    var w, next := worlds[i], worlds[i + 1];
    var r, moved := w.readers[p], next.readers[p];
    assert r in w.readers && ReaderIsSound(worlds, i, r, timing);
    if e.CacheReply? && moved.Answered? {
      hide WasAnswer;
      var entry := w.cache[CacheKey(r.roleCodes)];
      assert EntryIsSound(worlds, i, CacheKey(r.roleCodes), entry, timing);
      AnswersLast(worlds, i, r.roleCodes, moved.answer, entry.expiresAt - timing.ttl - timing.maxGap,
        w.now - timing.MaxAge());
    } else if e.DatabaseReply? && moved.WritingCache? {
      assert moved in next.readers;
      assert r.roleCodes in Called(next) && Answer(worlds[i + 1].db, r.roleCodes) == moved.answer;
      assert WasAnswer(worlds, i + 1, r.roleCodes, moved.answer, moved.readAt);
    } else if e.CacheWrite? || e.CacheWriteTimesOut? {
      hide WasAnswer;
      AnswersLast(worlds, i, r.roleCodes, r.answer, r.readAt, w.now - timing.MaxAge());
    }
  }

  /** A cache write stores a sound entry for its key, whichever listed order later readers use. */
  lemma WrittenEntryIsSound(worlds: seq<World>, i: nat, p: nat, timing: Timing)
    requires Continues(worlds, i) && IsSound(worlds, i, timing)
    requires IsEnabled(worlds[i], CacheWrite(p, true), timing)
        && worlds[i + 1] == Apply(worlds[i], CacheWrite(p, true), timing)
    ensures var key := CacheKey(worlds[i].readers[p].roleCodes);
      key in worlds[i + 1].cache && EntryIsSound(worlds, i + 1, key, worlds[i + 1].cache[key], timing)
  {
    hide CacheKey, Answer, Called;
    var w, r := worlds[i], worlds[i].readers[p];
    var key := CacheKey(r.roleCodes);
    assert r in w.readers && ReaderIsSound(worlds, i, r, timing);
    AnswersLast(worlds, i, r.roleCodes, r.answer, r.readAt, r.readAt);
    var j, asked :| 0 <= j <= i + 1 && asked in Called(worlds[i + 1]) && SharesEntry(asked, r.roleCodes)
      && r.readAt <= worlds[j].now <= worlds[i + 1].now && Answer(worlds[j].db, asked) == r.answer;
    var entry := worlds[i + 1].cache[key];
    forall roleCodes | roleCodes != [] && CacheKey(roleCodes) == key
      ensures WasAnswer(worlds, i + 1, roleCodes, entry.permissions.value, entry.expiresAt - timing.ttl - timing.maxGap)
    {
      assert SharesEntry(asked, roleCodes);
    }
  }

  lemma StepKeepsSoundness(worlds: seq<World>, i: nat, e: Event, timing: Timing)
    requires i + 1 < |worlds| && IsSound(worlds, i, timing)
    requires IsEnabled(worlds[i], e, timing) && worlds[i + 1] == Apply(worlds[i], e, timing)
    ensures IsSound(worlds, i + 1, timing)
  {
    hide CacheKey, Answer, WasAnswer, ReaderIsSound, EntryIsSound, AfterCacheReply, Called;
    var w, next := worlds[i], worlds[i + 1];
    StepContinues(worlds, i, e, timing);
    forall q | 0 <= q < |next.readers|
      ensures ReaderIsSound(worlds, i + 1, next.readers[q], timing)
    {
      if q < |w.readers| && next.readers[q] == w.readers[q] {
        assert w.readers[q] in w.readers;
        WritersAreInTime(worlds, i, q, e, timing);
        OldReadersStaySound(worlds, i, w.readers[q], timing);
      } else if e.Call? {
        assert next.readers[q] in next.readers;
        NewReaderIsSound(worlds, i + 1, e.roleCodes, timing);
      } else if e.CacheWriteTimesOut? && q == |w.readers| {
        assert w.readers[e.reader] in w.readers;
        WritersAreInTime(worlds, i, e.reader, e, timing);
        OldReadersStaySound(worlds, i, w.readers[e.reader], timing);
      } else {
        MovedReaderIsSound(worlds, i, e, q, timing);
      }
    }
    forall key <- next.cache
      ensures EntryIsSound(worlds, i + 1, key, next.cache[key], timing)
    {
      if key in w.cache && next.cache[key] == w.cache[key] {
        OldEntriesStaySound(worlds, i, key, w.cache[key], timing);
      } else if e.Corrupt? {
        CorruptEntryIsSound(worlds, i + 1, key, next.cache[key], timing);
      } else {
        WrittenEntryIsSound(worlds, i, e.reader, timing);
      }
    }
  }

  lemma WritersAreInTime(worlds: seq<World>, i: nat, q: nat, e: Event, timing: Timing)
    requires i + 1 < |worlds| && q < |worlds[i].readers| && ReaderIsSound(worlds, i, worlds[i].readers[q], timing)
    requires IsEnabled(worlds[i], e, timing) && worlds[i + 1] == Apply(worlds[i], e, timing)
    ensures worlds[i].readers[q].WritingCache? ==> worlds[i + 1].now <= worlds[i].readers[q].readAt + timing.maxGap
  {
    hide CacheKey, Answer, WasAnswer, AfterCacheReply;
  }

  lemma NewReaderIsSound(worlds: seq<World>, i: nat, roleCodes: seq<string>, timing: Timing)
    requires i < |worlds| && NewReader(roleCodes, worlds[i].now) in worlds[i].readers
    ensures ReaderIsSound(worlds, i, NewReader(roleCodes, worlds[i].now), timing)
  {
    hide CacheKey;
    assert roleCodes in Called(worlds[i]);
    assert Answer(worlds[i].db, []) == {};
  }

  lemma CorruptEntryIsSound(worlds: seq<World>, i: nat, key: string, entry: Entry, timing: Timing)
    requires i < |worlds| && entry.permissions.None?
    ensures EntryIsSound(worlds, i, key, entry, timing)
  {
  }

  lemma {:induction false} RunsAreSound(worlds: seq<World>, events: seq<Event>, timing: Timing, i: nat)
    requires IsRun(worlds, events, timing) && i < |worlds|
    ensures IsSound(worlds, i, timing)
  {
    hide ReaderIsSound, EntryIsSound, IsEnabled, Apply;
    if i > 0 {
      RunsAreSound(worlds, events, timing, i - 1);
      StepKeepsSoundness(worlds, i - 1, events[i - 1], timing);
    }
  }

  /**
   * Whatever the codes hold, every answer was the database's answer to a called list of the same entry, less than `ttl
   * + maxGap` before.
   */
  lemma AnswersComeFromTheirEntry(worlds: seq<World>, events: seq<Event>, timing: Timing, i: nat, p: nat)
    requires IsRun(worlds, events, timing) && i < |worlds| && p < |worlds[i].readers| && worlds[i].readers[p].Answered?
    ensures var r := worlds[i].readers[p];
      exists j, asked | 0 <= j <= i && asked in Called(worlds[i]) ::
        SharesEntry(asked, r.roleCodes) && r.answeredAt <= worlds[j].now + timing.MaxAge()
          && Answer(worlds[j].db, asked) == r.answer
  {
    RunsAreSound(worlds, events, timing, i);
    hide IsRun, EntryIsSound, Answer, Called, SharesEntry;
    var r := worlds[i].readers[p];
    assert r in worlds[i].readers && ReaderIsSound(worlds, i, r, timing);
  }

  ghost predicate CallsAreCommaFree(w: World) {
    forall r <- w.readers :: CommaFree(r.roleCodes)
  }

  /** The database gave this answer to the reader's own list, at most `age` before the reader got it. */
  ghost predicate IsAtMostOld(worlds: seq<World>, i: nat, r: Reader, age: int)
    requires i < |worlds| && r.Answered?
  {
    exists j | 0 <= j <= i :: r.answeredAt <= worlds[j].now + age && Answer(worlds[j].db, r.roleCodes) == r.answer
  }

  /**
   * Among comma-free codes every answer was the database's own answer to that list less than `ttl + maxGap` before it
   * was given.
   */
  lemma AnswersAreBoundedStale(worlds: seq<World>, events: seq<Event>, timing: Timing, i: nat, p: nat)
    requires IsRun(worlds, events, timing) && i < |worlds| && p < |worlds[i].readers| && worlds[i].readers[p].Answered?
    requires CallsAreCommaFree(worlds[i])
    ensures IsAtMostOld(worlds, i, worlds[i].readers[p], timing.MaxAge())
  {
    AnswersComeFromTheirEntry(worlds, events, timing, i, p);
    hide IsRun, Answer, CacheKey, CommaFree;
    var r := worlds[i].readers[p];
    var j, asked :| 0 <= j <= i && asked in Called(worlds[i]) &&
      SharesEntry(asked, r.roleCodes) && r.answeredAt <= worlds[j].now + timing.MaxAge()
        && Answer(worlds[j].db, asked) == r.answer;
    assert r in worlds[i].readers;
    if asked != r.roleCodes {
      SameKeySameAnswer(worlds[j].db, asked, r.roleCodes);
    }
  }

  lemma {:induction false} TimeNeverRunsBack(worlds: seq<World>, events: seq<Event>, timing: Timing, i: nat, j: nat)
    requires IsRun(worlds, events, timing) && i <= j < |worlds|
    ensures worlds[i].now <= worlds[j].now
    decreases j
  {
    hide IsEnabled, AfterCacheReply, Answer, CacheKey;
    if i < j {
      TimeNeverRunsBack(worlds, events, timing, i, j - 1);
      assert worlds[j - 1 + 1] == Apply(worlds[j - 1], events[j - 1], timing);
    }
  }

  /** A permission revoked for good is in no answer given `ttl + maxGap` or more after the revocation. */
  lemma RevocationTakesEffect(worlds: seq<World>, events: seq<Event>, timing: Timing, revoked: nat, i: nat, p: nat,
                              permission: string)
    requires IsRun(worlds, events, timing) && revoked <= i < |worlds| && p < |worlds[i].readers|
        && worlds[i].readers[p].Answered?
    requires forall j :: revoked <= j <= i ==> permission !in Answer(worlds[j].db, worlds[i].readers[p].roleCodes)
    requires CallsAreCommaFree(worlds[i]) && worlds[i].readers[p].answeredAt > worlds[revoked].now + timing.MaxAge()
    ensures permission !in worlds[i].readers[p].answer
  {
    AnswersAreBoundedStale(worlds, events, timing, i, p);
    hide IsRun, Answer;
    var r := worlds[i].readers[p];
    var j :| 0 <= j <= i && r.answeredAt <= worlds[j].now + timing.MaxAge()
      && Answer(worlds[j].db, r.roleCodes) == r.answer;
    if j < revoked {
      TimeNeverRunsBack(worlds, events, timing, j, revoked);
    }
  }

  /** A cache outage is never a failed call: only a failed database read rejects one. */
  lemma {:induction false} CacheFailuresNeverReject(worlds: seq<World>, events: seq<Event>, timing: Timing, i: nat)
    requires IsRun(worlds, events, timing) && i < |worlds|
    requires forall k, q :: 0 <= k < i ==> events[k] != DatabaseReply(q, false)
    ensures forall p :: 0 <= p < |worlds[i].readers| ==> !worlds[i].readers[p].Rejected?
  {
    hide Answer, CacheKey, CommaFree;
    if i > 0 {
      CacheFailuresNeverReject(worlds, events, timing, i - 1);
      var e := events[i - 1];
      assert worlds[i] == Apply(worlds[i - 1], e, timing);
      assert e.DatabaseReply? ==> e == DatabaseReply(e.reader, e.available);
    }
  }

  // ---- What one call does ----

  /** A reader with a database answer keeps it: waiting to write the cache, or answered. */
  lemma {:induction false} ReadAnswerIsGiven(worlds: seq<World>, events: seq<Event>, timing: Timing, i: nat, j: nat,
                                             p: nat)
    requires IsRun(worlds, events, timing) && i < j < |worlds|
    requires IsEnabled(worlds[i], events[i], timing) && events[i] == DatabaseReply(p, true)
    ensures p < |worlds[j].readers|
    ensures
      var (r, codes) := (worlds[j].readers[p], worlds[i].readers[p].roleCodes);
      && r.roleCodes == codes && (r.WritingCache? || r.Answered?)
      && forall permission :: permission in r.answer
           <==> exists code <- codes :: code in worlds[i].db && permission in worlds[i].db[code]
    decreases j
  {
    hide CacheKey, AfterCacheReply;
    assert worlds[j - 1 + 1] == Apply(worlds[j - 1], events[j - 1], timing);
    assert IsEnabled(worlds[j - 1], events[j - 1], timing);
    if i + 1 < j {
      ReadAnswerIsGiven(worlds, events, timing, i, j - 1, p);
    }
  }

  /** No event of the run from `i` up to `j` writes, evicts or corrupts this entry. */
  ghost predicate IsUntouched(worlds: seq<World>, events: seq<Event>, key: string, i: nat, j: nat)
    requires j <= |events| && j < |worlds|
  {
    forall k :: i <= k < j ==>
      match events[k]
      case CacheWrite(q, available) =>
        available ==> q < |worlds[k].readers| && CacheKey(worlds[k].readers[q].roleCodes) != key
      case Evict(other) => other != key
      case Corrupt(other) => other != key
      case _ => true
  }

  lemma {:induction false} UntouchedEntryStays(worlds: seq<World>, events: seq<Event>, timing: Timing, key: string,
                                               i: nat, j: nat)
    requires IsRun(worlds, events, timing) && i <= j < |worlds| && key in worlds[i].cache
    requires IsUntouched(worlds, events, key, i, j)
    ensures key in worlds[j].cache && worlds[j].cache[key] == worlds[i].cache[key]
    decreases j
  {
    hide CacheKey, AfterCacheReply, Answer;
    if i < j {
      UntouchedEntryStays(worlds, events, timing, key, i, j - 1);
      assert worlds[j - 1 + 1] == Apply(worlds[j - 1], events[j - 1], timing);
      assert IsEnabled(worlds[j - 1], events[j - 1], timing);
    }
  }

  /**
   * An answer written to the cache is given, without the database, to every call for the same codes in any order whose
   * cache reply comes before the entry expires; once it has expired that reply sends the call to the database.
   */
  lemma WrittenAnswerIsServed(worlds: seq<World>, events: seq<Event>, timing: Timing, i: nat, j: nat, p: nat, q: nat)
    requires IsRun(worlds, events, timing) && i < j < |events|
    requires events[i] == CacheWrite(p, true) && events[j] == CacheReply(q, true)
    requires IsEnabled(worlds[i], events[i], timing) && IsEnabled(worlds[j], events[j], timing)
    requires multiset(worlds[i].readers[p].roleCodes) == multiset(worlds[j].readers[q].roleCodes)
    requires IsUntouched(worlds, events, CacheKey(worlds[i].readers[p].roleCodes), i + 1, j)
    ensures
      var (codes, now) := (worlds[j].readers[q].roleCodes, worlds[j].now);
      worlds[j + 1].readers
      == worlds[j].readers[q := if now < worlds[i].now + timing.ttl
                                then Answered(codes, worlds[i].readers[p].answer, now) else AskingDatabase(codes)]
  {
    var codes := worlds[i].readers[p].roleCodes;
    PermutationsShareKey(codes, worlds[j].readers[q].roleCodes);
    hide CacheKey, Answer;
    assert worlds[i + 1] == Apply(worlds[i], events[i], timing);
    assert worlds[j + 1] == Apply(worlds[j], events[j], timing);
    UntouchedEntryStays(worlds, events, timing, CacheKey(codes), i + 1, j);
  }

  // ---- The bound is reached ----

  /** The run of a slow reader that caches a permission just revoked, and of a reader that meets its entry last. */
  function SlowWriterEvents(role: string, timing: Timing): seq<Event>
    requires timing.ttl > 0
  {
    [Call([role]), CacheReply(0, true), DatabaseReply(0, true), DatabaseWrite(map[role := {}]), Tick(timing.maxGap),
     CacheWrite(0, true), Tick(timing.ttl - 1), Call([role]), CacheReply(1, true)]
  }

  function SlowWriterWorlds(role: string, permission: string, timing: Timing): seq<World>
    requires timing.ttl > 0
  {
    var granted, revoked, roles := map[role := {permission}], map[role := {}], [role];
    var done := Answered(roles, {permission}, timing.maxGap);
    var cached := map[CacheKey(roles) := Entry(Some({permission}), timing.maxGap + timing.ttl)];
    var end := timing.maxGap + timing.ttl - 1;
    [World(0, granted, map[], []),
     World(0, granted, map[], [AskingCache(roles)]),
     World(0, granted, map[], [AskingDatabase(roles)]),
     World(0, granted, map[], [WritingCache(roles, {permission}, 0)]),
     World(0, revoked, map[], [WritingCache(roles, {permission}, 0)]),
     World(timing.maxGap, revoked, map[], [WritingCache(roles, {permission}, 0)]),
     World(timing.maxGap, revoked, cached, [done]),
     World(end, revoked, cached, [done]),
     World(end, revoked, cached, [done, AskingCache(roles)]),
     World(end, revoked, cached, [done, Answered(roles, {permission}, end)])]
  }

  lemma SlowWriterIsRun(role: string, permission: string, timing: Timing)
    requires timing.ttl > 0
    ensures IsRun(SlowWriterWorlds(role, permission, timing), SlowWriterEvents(role, timing), timing)
  {
    hide CacheKey;
    var worlds, events := SlowWriterWorlds(role, permission, timing), SlowWriterEvents(role, timing);
    var granted := map[role := {permission}];
    assert Answer(granted, [role]) == {permission} by {
      assert role in [role] && role in granted && permission in granted[role];
    }
    hide Answer;
    forall i | 0 <= i < |events|
      ensures IsEnabled(worlds[i], events[i], timing) && worlds[i + 1] == Apply(worlds[i], events[i], timing)
    {
      assert IsEnabled(worlds[i], events[i], timing);
    }
  }

  /** The bound is tight: a permission revoked at time 0 can still be answered `MaxAge` later. */
  lemma AgeBoundIsReached(role: string, permission: string, timing: Timing)
    requires timing.ttl > 0
    ensures var worlds, events := SlowWriterWorlds(role, permission, timing), SlowWriterEvents(role, timing);
      && IsRun(worlds, events, timing) && |worlds| == 10
      && worlds[4].now == 0 && (forall j :: 4 <= j < |worlds| ==> permission !in Answer(worlds[j].db, [role]))
      && (forall j :: 0 <= j < 4 ==> worlds[j].now == 0)
      && |Last(worlds).readers| == 2 && (',' !in role ==> CallsAreCommaFree(Last(worlds)))
      && Last(worlds).readers[1] == Answered([role], {permission}, timing.MaxAge())
  {
    SlowWriterIsRun(role, permission, timing);
  }

  /** In every run over comma-free codes and at every moment of it, all answers given so far kept the age bound. */
  ghost predicate AnswersAreAtMostOld(timing: Timing, age: int) {
    forall worlds: seq<World>, events: seq<Event>, i: nat, p: nat |
      IsRun(worlds, events, timing) && i < |worlds| && CallsAreCommaFree(worlds[i])
      && p < |worlds[i].readers| && worlds[i].readers[p].Answered? ::
      IsAtMostOld(worlds, i, worlds[i].readers[p], age)
  }

  /**
   * The documented bound of one ttl holds of all runs exactly when no cache write ends more than a tick after its
   * database read.
   */
  lemma TtlIsBoundIffWritesArePrompt(timing: Timing)
    requires timing.ttl > 0
    ensures AnswersAreAtMostOld(timing, timing.ttl) <==> timing.maxGap <= 1
  {
    hide IsRun, Answer, SlowWriterWorlds;
    if timing.maxGap <= 1 {
      forall worlds: seq<World>, events: seq<Event>, i: nat, p: nat |
        IsRun(worlds, events, timing) && i < |worlds| && CallsAreCommaFree(worlds[i])
        && p < |worlds[i].readers| && worlds[i].readers[p].Answered?
        ensures IsAtMostOld(worlds, i, worlds[i].readers[p], timing.ttl)
      {
        AnswersAreBoundedStale(worlds, events, timing, i, p);
      }
    } else {
      AgeBoundIsReached("staff", "edit", timing);
      var worlds, events := SlowWriterWorlds("staff", "edit", timing), SlowWriterEvents("staff", timing);
      assert !IsAtMostOld(worlds, |worlds| - 1, Last(worlds).readers[1], timing.ttl);
    }
  }

  // ---- The repository itself ----

  /** One call is cut where it awaits; other calls, the clock and the database move in between. */
  class CachedPermissionRepository {
    const ttlSeconds: nat
    var cache: map<string, Entry>
    var readers: seq<Reader>

    ghost function State(now: nat, db: Database): World
      reads this
    {
      World(now, db, cache, readers)
    }

    constructor (ttlSeconds: nat)
      ensures this.ttlSeconds == ttlSeconds && cache == map[] && readers == []
    {
      this.ttlSeconds := ttlSeconds;
      cache := map[];
      readers := [];
    }

    method GetPermissionKeysForRoleCodes(roleCodes: seq<string>, now: nat, ghost db: Database, ghost timing: Timing)
      modifies this`readers
      ensures State(now, db) == Apply(old(State(now, db)), Call(roleCodes), timing)
      ensures readers == old(readers) + [if roleCodes == [] then Answered([], {}, now) else AskingCache(roleCodes)]
    {
      if |roleCodes| == 0 {
        readers := readers + [Answered([], {}, now)];
      } else {
        readers := readers + [AskingCache(roleCodes)];
      }
    }

    method OnCacheReply(p: nat, available: bool, now: nat, ghost db: Database, ghost timing: Timing)
      requires IsEnabled(State(now, db), CacheReply(p, available), timing)
      modifies this`readers
      ensures State(now, db) == Apply(old(State(now, db)), CacheReply(p, available), timing)
      ensures
        var codes := old(readers[p].roleCodes);
        var key := CacheKey(codes);
        readers
        == old(readers)[p := if available && key in cache && now < cache[key].expiresAt && cache[key].permissions.Some?
                             then Answered(codes, cache[key].permissions.value, now) else AskingDatabase(codes)]
    {
      var roleCodes := readers[p].roleCodes;
      var key := CacheKey(roleCodes);
      if available && key in cache && now < cache[key].expiresAt {
        match cache[key].permissions {
          case Some(permissions) =>
            readers := readers[p := Answered(roleCodes, permissions, now)];
            return;
          case None =>
        }
      }
      readers := readers[p := AskingDatabase(roleCodes)];
    }

    method OnDatabaseReply(p: nat, keys: Option<set<string>>, now: nat, ghost db: Database, ghost timing: Timing)
      requires IsEnabled(State(now, db), DatabaseReply(p, keys.Some?), timing)
      requires keys.Some? ==> keys.value == Answer(db, readers[p].roleCodes)
      modifies this`readers
      ensures State(now, db) == Apply(old(State(now, db)), DatabaseReply(p, keys.Some?), timing)
      ensures
        var codes := old(readers[p].roleCodes);
        readers == old(readers)[p := if keys.Some? then WritingCache(codes, keys.value, now) else Rejected(codes)]
    {
      var roleCodes := readers[p].roleCodes;
      match keys {
        case Some(answer) => readers := readers[p := WritingCache(roleCodes, answer, now)];
        case None => readers := readers[p := Rejected(roleCodes)];
      }
    }

    method OnCacheWrite(p: nat, available: bool, now: nat, ghost db: Database, ghost timing: Timing)
      requires timing.ttl == ttlSeconds
      requires IsEnabled(State(now, db), CacheWrite(p, available), timing)
      modifies this
      ensures State(now, db) == Apply(old(State(now, db)), CacheWrite(p, available), timing)
      ensures
        var r := old(readers[p]);
        && readers == old(readers)[p := Answered(r.roleCodes, r.answer, now)]
        && cache == if available then old(cache)[CacheKey(r.roleCodes) := Entry(Some(r.answer), now + ttlSeconds)]
                    else old(cache)
    {
      var r := readers[p];
      if available {
        cache := cache[CacheKey(r.roleCodes) := Entry(Some(r.answer), now + ttlSeconds)];
      }
      readers := readers[p := Answered(r.roleCodes, r.answer, now)];
    }

    /** The write's reply never comes: the call answers all the same. */
    method OnCacheWriteTimeout(p: nat, now: nat, ghost db: Database, ghost timing: Timing)
      requires IsEnabled(State(now, db), CacheWriteTimesOut(p), timing)
      modifies this`readers
      ensures State(now, db) == Apply(old(State(now, db)), CacheWriteTimesOut(p), timing)
      ensures
        var r := old(readers[p]);
        readers == old(readers)[p := Answered(r.roleCodes, r.answer, now)] + [r]
    {
      var r := readers[p];
      readers := readers[p := Answered(r.roleCodes, r.answer, now)] + [r];
    }
  }
}
