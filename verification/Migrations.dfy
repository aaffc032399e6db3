/** The migration runner and its bookkeeping table. */
module Migrations {
  import opened Outcomes
  import opened Strings
  import opened Digits
  import opened Sorting

  datatype Migration = Migration(version: string, name: string)

  function Version(m: Migration): string {
    m.version
  }

  // ---- The migration files ----

  const UP_SUFFIX := ".up.sql"

  predicate EndsWith(s: string, suffix: string) {
    |s| >= |suffix| && s[|s| - |suffix|..] == suffix
  }

  /** `/^(\d{4})_([a-z0-9_]+)\.up\.sql$/` */
  function ParseFile(file: string): Option<Migration> {
    if EndsWith(file, UP_SUFFIX) && |file| > 12 && AllDigits(file[..4]) && file[4] == '_'
       && forall c <- file[5..|file| - 7] :: 'a' <= c <= 'z' || IsDigit(c) || c == '_'
    then Some(Migration(file[..4], file[5..|file| - 7]))
    else None
  }

  function FileName(m: Migration): string {
    m.version + "_" + m.name + UP_SUFFIX
  }

  predicate IsNamedProperly(m: Migration) {
    && |m.version| == 4 && AllDigits(m.version)
    && m.name != "" && forall c <- m.name :: 'a' <= c <= 'z' || IsDigit(c) || c == '_'
  }

  /** A file is a migration exactly when its name is built from a four-digit version and a plain name. */
  lemma ParseInvertsFileName(file: string, m: Migration)
    ensures ParseFile(file) == Some(m) <==> IsNamedProperly(m) && file == FileName(m)
  {
    if |file| > 12 {
      assert file == file[..4] + [file[4]] + file[5..|file| - 7] + file[|file| - 7..];
    }
    if IsNamedProperly(m) && file == FileName(m) {
      assert file[..4] == m.version && file[5..|file| - 7] == m.name && file[|file| - 7..] == UP_SUFFIX;
    }
  }

  function UpFiles(files: seq<string>): seq<string> {
    if files == [] then []
    else UpFiles(DropLast(files)) + if EndsWith(Last(files), UP_SUFFIX) then [Last(files)] else []
  }

  function ParseAll(files: seq<string>): Outcome<seq<Migration>> {
    if files == [] then Returned([])
    else
      match (ParseAll(DropLast(files)), ParseFile(Last(files)))
      case (Returned(parsed), Some(m)) => Returned(parsed + [m])
      case _ => Thrown
  }

  /** Every `.up.sql` file in version order; a badly named one is an error. */
  function ListMigrations(files: seq<string>): Outcome<seq<Migration>> {
    match ParseAll(UpFiles(files))
    case Thrown => Thrown
    case Returned(parsed) => Returned(SortBy(parsed, Version))
  }

  /** Versions in strictly ascending order: sorted, with no version twice. */
  ghost predicate IsVersioned(list: seq<Migration>) {
    forall i, j :: 0 <= i < j < |list| ==> Less(list[i].version, list[j].version)
  }

  ghost predicate DistinctVersions(list: seq<Migration>) {
    forall i, j :: 0 <= i < j < |list| ==> list[i].version != list[j].version
  }

  lemma SortedDistinctIsVersioned(list: seq<Migration>)
    requires Sorted(list, Version)
    ensures IsVersioned(list) <==> DistinctVersions(list)
  {
    forall i, j | 0 <= i < j < |list|
      ensures Less(list[i].version, list[j].version) <==> list[i].version != list[j].version
    {
      LessIsTotal(list[i].version, list[j].version);
      assert !Less(Version(list[j]), Version(list[i]));
    }
  }

  /** Named `<version>_<name>.up.sql`: four digits, then lower-case letters, digits and underscores. */
  ghost predicate Names(file: string, m: Migration) {
    && file == m.version + "_" + m.name + ".up.sql"
    && |m.version| == 4 && (forall c <- m.version :: '0' <= c <= '9')
    && m.name != "" && forall c <- m.name :: 'a' <= c <= 'z' || '0' <= c <= '9' || c == '_'
  }

  lemma ParsedIsNamed(file: string, m: Migration)
    ensures ParseFile(file) == Some(m) <==> Names(file, m)
  {
    hide ParseFile;
    ParseInvertsFileName(file, m);
    assert AllDigits(m.version) <==> forall c <- m.version :: '0' <= c <= '9' by {
      forall i | 0 <= i < |m.version| ensures m.version[i] in m.version {}
    }
  }

  /** An up file no migration has the name of. */
  ghost predicate IsBadFile(file: string) {
    |file| >= 7 && file[|file| - 7..] == ".up.sql" && forall m :: !Names(file, m)
  }

  lemma ParsedOrBad(file: string)
    requires EndsWith(file, UP_SUFFIX)
    ensures ParseFile(file).None? <==> IsBadFile(file)
  {
    hide ParseFile, Names;
    forall m
      ensures ParseFile(file) == Some(m) <==> Names(file, m)
    {
      ParsedIsNamed(file, m);
    }
    if ParseFile(file).Some? {
      assert Names(file, ParseFile(file).value);
    }
  }

  lemma NamedEndsWell(file: string, m: Migration)
    requires Names(file, m)
    ensures EndsWith(file, UP_SUFFIX)
  {
  }

  lemma ParsedStep(files: seq<string>)
    requires files != []
    ensures
      var earlier := ParseAll(UpFiles(DropLast(files)));
      ParseAll(UpFiles(files))
      == if !EndsWith(Last(files), UP_SUFFIX) then earlier
         else if earlier.Returned? && ParseFile(Last(files)).Some?
         then Returned(earlier.value + [ParseFile(Last(files)).value])
         else Thrown
  {
    hide ParseFile, EndsWith;
    var earlier, file := UpFiles(DropLast(files)), Last(files);
    assert DropLast(earlier + [file]) == earlier && Last(earlier + [file]) == file;
    assert earlier + [] == earlier;
  }

  lemma {:induction false} ParsingFails(files: seq<string>)
    ensures ParseAll(UpFiles(files)).Thrown? <==> exists file <- files :: IsBadFile(file)
  {
    if files != [] {
      hide ParseFile, IsBadFile, EndsWith, ParseAll, UpFiles;
      ParsedStep(files);
      ParsingFails(DropLast(files));
      InitAndLast(files);
      if EndsWith(Last(files), UP_SUFFIX) {
        ParsedOrBad(Last(files));
      } else {
        BadEndsWell(Last(files));
      }
    }
  }

  lemma BadEndsWell(file: string)
    ensures IsBadFile(file) ==> EndsWith(file, UP_SUFFIX)
  {
  }

  lemma CountLast<T>(s: seq<T>, x: T)
    requires s != []
    ensures multiset(s)[x] == multiset(DropLast(s))[x] + if x == Last(s) then 1 else 0
  {
    assert s == DropLast(s) + [Last(s)];
  }

  lemma CountAppend<T>(s: seq<T>, last: T, x: T)
    ensures multiset(s + [last])[x] == multiset(s)[x] + if x == last then 1 else 0
  {
  }

  lemma {:induction false} ParsedAsOftenAsNamed(files: seq<string>, file: string, m: Migration)
    requires Names(file, m) && ParseAll(UpFiles(files)).Returned?
    ensures multiset(ParseAll(UpFiles(files)).value)[m] == multiset(files)[file]
    decreases |files|
  {
    hide ParseFile, EndsWith, ParseAll, UpFiles, Names, DropLast, Last;
    if files == [] {
      NothingParsed();
    } else {
      ShorterWithoutLast(files);
      ParsedStep(files);
      ParsedAsOftenAsNamed(DropLast(files), file, m);
      CountLast(files, file);
      ParsedIsNamed(Last(files), m);
      NamedEndsWell(file, m);
      NamedOnce(file, Last(files), m);
      if EndsWith(Last(files), UP_SUFFIX) {
        CountAppend(ParseAll(UpFiles(DropLast(files))).value, ParseFile(Last(files)).value, m);
      }
    }
  }

  lemma ShorterWithoutLast<T>(s: seq<T>)
    requires s != []
    ensures |DropLast(s)| < |s|
  {
  }

  lemma NamedOnce(file: string, other: string, m: Migration)
    requires Names(file, m)
    ensures Names(other, m) <==> other == file
  {
  }

  lemma {:induction false} ParsedIsFromAFile(files: seq<string>, m: Migration)
    requires ParseAll(UpFiles(files)).Returned? && m in ParseAll(UpFiles(files)).value
    ensures exists file <- files :: Names(file, m)
  {
    hide ParseFile, EndsWith, ParseAll, UpFiles, Names;
    assert files != [] by { NothingParsed(); }
    ParsedStep(files);
    InitAndLast(files);
    ParsedIsNamed(Last(files), m);
    if m in ParseAll(UpFiles(DropLast(files))).value {
      ParsedIsFromAFile(DropLast(files), m);
    }
  }

  lemma NothingParsed()
    ensures ParseAll(UpFiles([])) == Returned([])
  {
  }

  /**
   * The directory is rejected exactly when some up file is badly named. Otherwise the list is in version order, and
   * holds each migration as often as its file is there, and nothing else.
   */
  lemma ListingIsExact(files: seq<string>)
    ensures ListMigrations(files).Thrown? <==> exists file <- files :: IsBadFile(file)
    ensures ListMigrations(files).Returned? ==>
      var list := ListMigrations(files).value;
      && (forall i, j :: 0 <= i < j < |list| ==> !Less(list[j].version, list[i].version))
      && (forall file, m :: Names(file, m) ==> multiset(list)[m] == multiset(files)[file])
      && (forall m <- list :: exists file <- files :: Names(file, m))
  {
    hide Names, IsBadFile, ParseAll, UpFiles, SortBy;
    ParsingFails(files);
    if ListMigrations(files).Returned? {
      var parsed, list := ParseAll(UpFiles(files)).value, ListMigrations(files).value;
      SortByIsSortedPermutation(parsed, Version);
      forall i, j | 0 <= i < j < |list|
        ensures !Less(list[j].version, list[i].version)
      {
        assert !Less(Version(list[j]), Version(list[i]));
      }
      forall file, m | Names(file, m)
        ensures multiset(list)[m] == multiset(files)[file]
      {
        ParsedAsOftenAsNamed(files, file, m);
      }
      forall m <- list
        ensures exists file <- files :: Names(file, m)
      {
        assert m in multiset(list) && m in parsed;
        ParsedIsFromAFile(files, m);
      }
    }
  }

  // ---- One transaction ----

  datatype Bookkeeping = InsertRow(migration: Migration) | DeleteRow(version: string)

  /** Where running one migration fails, if it does; the last is a commit that succeeds without its reply arriving. */
  datatype Fault = NoFault | InSql | InBookkeeping | InCommit | AfterCommit

  predicate Recorded(rows: seq<Migration>, version: string) {
    exists row <- rows :: row.version == version
  }

  function WithoutVersion(rows: seq<Migration>, version: string): seq<Migration> {
    if rows == [] then []
    else WithoutVersion(DropLast(rows), version) + if Last(rows).version == version then [] else [Last(rows)]
  }

  /** The row change; the unique key on the version rejects a second row. */
  function Bookkeep(rows: seq<Migration>, op: Bookkeeping): Option<seq<Migration>> {
    match op
    case InsertRow(m) => if Recorded(rows, m.version) then None else Some(Insert(m, rows, Version))
    case DeleteRow(version) => Some(WithoutVersion(rows, version))
  }

  /** The committed rows after one transaction, and whether it is reported as done. */
  function RunOneRows(rows: seq<Migration>, op: Bookkeeping, fault: Fault): (seq<Migration>, bool) {
    match Bookkeep(rows, op)
    case None => (rows, false)
    case Some(changed) =>
      if fault == NoFault then (changed, true)
      else if fault == AfterCommit then (changed, false)
      else (rows, false)
  }

  function FaultAt(faults: seq<Fault>, i: nat): Fault {
    if i < |faults| then faults[i] else NoFault
  }

  /** How a command ended: the committed rows, how many migrations ran, and whether none failed. */
  datatype RunResult = RunResult(rows: seq<Migration>, done: nat, ok: bool)

  /** The first `n` operations in order, stopping at the first failure. */
  function RunAll(rows: seq<Migration>, ops: seq<Bookkeeping>, faults: seq<Fault>, n: nat): RunResult
    requires n <= |ops|
  {
    if n == 0 then RunResult(rows, 0, true)
    else
      var before := RunAll(rows, ops, faults, n - 1);
      if !before.ok then before
      else
        var (after, ok) := RunOneRows(before.rows, ops[n - 1], FaultAt(faults, n - 1));
        if ok then RunResult(after, n, true) else RunResult(after, n - 1, false)
  }

  // ---- The commands ----

  function Pending(list: seq<Migration>, rows: seq<Migration>): seq<Migration> {
    if list == [] then []
    else Pending(DropLast(list), rows) + if Recorded(rows, Last(list).version) then [] else [Last(list)]
  }

  /** `slice(0, n)`: a negative count drops from the end. */
  function SliceTo<T>(s: seq<T>, n: int): seq<T> {
    if n >= |s| then s
    else if n >= 0 then s[..n]
    else if -n >= |s| then []
    else s[..|s| + n]
  }

  function Inserts(list: seq<Migration>): seq<Bookkeeping> {
    seq(|list|, i requires 0 <= i < |list| => InsertRow(list[i]))
  }

  /** Without a step count, or with zero, everything pending is run. */
  function ToRun(list: seq<Migration>, rows: seq<Migration>, steps: Option<int>): seq<Migration> {
    if steps.None? || steps.value == 0 then Pending(list, rows) else SliceTo(Pending(list, rows), steps.value)
  }

  function Up(list: seq<Migration>, rows: seq<Migration>, steps: Option<int>, faults: seq<Fault>): RunResult {
    var ops := Inserts(ToRun(list, rows, steps));
    RunAll(rows, ops, faults, |ops|)
  }

  function Reversed<T>(s: seq<T>): seq<T> {
    seq(|s|, i requires 0 <= i < |s| => s[|s| - 1 - i])
  }

  function Deletes(rows: seq<Migration>): seq<Bookkeeping> {
    seq(|rows|, i requires 0 <= i < |rows| => DeleteRow(rows[i].version))
  }

  /** `ORDER BY version DESC LIMIT n`, one row unless asked otherwise; a negative limit is a query error. */
  function Down(rows: seq<Migration>, steps: Option<int>, faults: seq<Fault>): RunResult {
    var n := if steps.Some? then steps.value else 1;
    if n < 0 then RunResult(rows, 0, false)
    else
      var ops := Deletes(SliceTo(Reversed(rows), n));
      RunAll(rows, ops, faults, |ops|)
  }

  // ---- The recorded rows are a prefix of the list ----

  lemma RecordedInPrefix(list: seq<Migration>, k: nat, i: nat)
    requires IsVersioned(list) && k <= |list| && i < |list|
    ensures Recorded(list[..k], list[i].version) <==> i < k
  {
    if i < k {
      assert list[..k][i] in list[..k];
    } else {
      forall row <- list[..k]
        ensures row.version != list[i].version
      {
        var j :| 0 <= j < k && list[j] == row;
        LessIsTotal(list[j].version, list[i].version);
      }
    }
  }

  /** One more listed migration: it is pending when its version is not recorded. */
  lemma PendingStep(list: seq<Migration>, rows: seq<Migration>, n: nat)
    requires n < |list|
    ensures Pending(list[..n + 1], rows)
         == Pending(list[..n], rows) + if Recorded(rows, list[n].version) then [] else [list[n]]
  {
    assert DropLast(list[..n + 1]) == list[..n];
  }

  /** When exactly the versions before the q-th migration are recorded, what is pending starts there. */
  lemma {:induction false} PendingFrom(list: seq<Migration>, rows: seq<Migration>, q: nat, n: nat)
    requires q <= |list| && n <= |list|
    requires forall i :: 0 <= i < |list| ==> (Recorded(rows, list[i].version) <==> i < q)
    ensures Pending(list[..n], rows) == if n <= q then [] else list[q..n]
    decreases n
  {
    hide Pending, Recorded;
    if n == 0 {
      PendingNothing(list[..0], rows);
    } else {
      PendingStep(list, rows, n - 1);
      PendingFrom(list, rows, q, n - 1);
      if n > q {
        NextSlice(list, q, n);
      }
    }
  }

  lemma PendingNothing(list: seq<Migration>, rows: seq<Migration>)
    requires list == []
    ensures Pending(list, rows) == []
  {
  }

  lemma NextSlice(list: seq<Migration>, q: nat, n: nat)
    requires q < n <= |list|
    ensures list[q..n] == (if n - 1 <= q then [] else list[q..n - 1]) + [list[n - 1]]
  {
  }

  lemma PendingIsSuffix(list: seq<Migration>, k: nat)
    requires IsVersioned(list) && k <= |list|
    ensures Pending(list, list[..k]) == list[k..]
  {
    hide Pending, Recorded, IsVersioned;
    forall i | 0 <= i < |list|
      ensures Recorded(list[..k], list[i].version) <==> i < k
    {
      RecordedInPrefix(list, k, i);
    }
    PendingFrom(list, list[..k], k, |list|);
    assert list[..|list|] == list && (k == |list| ==> list[k..] == []);
  }

  lemma {:induction false} InsertAtEnd(m: Migration, rows: seq<Migration>)
    requires forall row <- rows :: Less(row.version, m.version)
    ensures Insert(m, rows, Version) == rows + [m]
  {
    if rows != [] {
      assert rows[0] in rows;
      InsertAtEnd(m, rows[1..]);
    }
  }

  lemma {:induction false} DeleteNothing(rows: seq<Migration>, version: string)
    requires forall row <- rows :: row.version != version
    ensures WithoutVersion(rows, version) == rows
  {
    if rows != [] {
      InitAndLast(rows);
      assert WithoutVersion(rows, version) == WithoutVersion(DropLast(rows), version) + [Last(rows)];
      hide WithoutVersion, DropLast, Last;
      DeleteNothing(DropLast(rows), version);
    }
  }

  lemma NextInsert(list: seq<Migration>, k: nat)
    requires IsVersioned(list) && k < |list|
    ensures Bookkeep(list[..k], InsertRow(list[k])) == Some(list[..k + 1])
  {
    RecordedInPrefix(list, k, k);
    InsertAtEnd(list[k], list[..k]);
    assert list[..k] + [list[k]] == list[..k + 1];
  }

  lemma LastDelete(list: seq<Migration>, k: nat)
    requires IsVersioned(list) && 0 < k <= |list|
    ensures Bookkeep(list[..k], DeleteRow(list[k - 1].version)) == Some(list[..k - 1])
  {
    RecordedInPrefix(list, k - 1, k - 1);
    DeleteNothing(list[..k - 1], list[k - 1].version);
    assert DropLast(list[..k]) == list[..k - 1] && Last(list[..k]) == list[k - 1];
    assert WithoutVersion(list[..k], list[k - 1].version) == list[..k - 1] + [] == list[..k - 1];
  }

  /** The run stops exactly at the first fault among the first `n` operations. */
  predicate StopsAt(faults: seq<Fault>, n: nat, done: nat) {
    && done <= n
    && (forall i :: 0 <= i < done && i < |faults| ==> faults[i] == NoFault)
    && (done < n ==> done < |faults| && faults[done] != NoFault)
  }

  /** One change more than reported is committed when the reply to the last commit was lost. */
  function Unreported(faults: seq<Fault>, n: nat, done: nat): nat {
    if done < n && done < |faults| && faults[done] == AfterCommit then 1 else 0
  }

  lemma {:induction false} InsertsExtendPrefix(list: seq<Migration>, k: nat, ops: seq<Bookkeeping>,
                                               faults: seq<Fault>, n: nat)
    requires IsVersioned(list) && k + |ops| <= |list| && n <= |ops|
    requires forall i :: 0 <= i < |ops| ==> ops[i] == InsertRow(list[k + i])
    ensures var result := RunAll(list[..k], ops, faults, n);
      && StopsAt(faults, n, result.done) && (result.ok <==> result.done == n)
      && result.rows == list[..k + result.done + Unreported(faults, n, result.done)]
  {
    hide IsVersioned, Bookkeep;
    if n > 0 {
      InsertsExtendPrefix(list, k, ops, faults, n - 1);
      NextInsert(list, k + n - 1);
    }
  }

  lemma {:induction false} DeletesShortenPrefix(list: seq<Migration>, k: nat, ops: seq<Bookkeeping>,
                                                faults: seq<Fault>, n: nat)
    requires IsVersioned(list) && |ops| <= k <= |list| && n <= |ops|
    requires forall i :: 0 <= i < |ops| ==> ops[i] == DeleteRow(list[k - 1 - i].version)
    ensures var result := RunAll(list[..k], ops, faults, n);
      && StopsAt(faults, n, result.done) && (result.ok <==> result.done == n)
      && result.rows == list[..k - result.done - Unreported(faults, n, result.done)]
  {
    hide IsVersioned, Bookkeep;
    if n > 0 {
      DeletesShortenPrefix(list, k, ops, faults, n - 1);
      LastDelete(list, k - n + 1);
    }
  }

  /** How many migrations `up` sets out to run. */
  function UpCount(pending: nat, steps: Option<int>): nat {
    if steps.None? || steps.value == 0 || steps.value >= pending then pending
    else if steps.value >= 0 then steps.value
    else if -steps.value >= pending then 0
    else pending + steps.value
  }

  /**
   * `up` from a prefix runs the next migrations in order and stops at the first failure, which leaves a longer prefix.
   */
  lemma UpExtendsPrefix(list: seq<Migration>, k: nat, steps: Option<int>, faults: seq<Fault>)
    requires IsVersioned(list) && k <= |list|
    ensures var result, n := Up(list, list[..k], steps, faults), UpCount(|list| - k, steps);
      && n <= |list| - k && StopsAt(faults, n, result.done)
      && result.rows == list[..k + result.done + Unreported(faults, n, result.done)]
      && (result.ok <==> result.done == n)
  {
    hide IsVersioned, Pending, RunAll;
    PendingIsSuffix(list, k);
    var run := ToRun(list, list[..k], steps);
    assert run == list[k..k + UpCount(|list| - k, steps)];
    InsertsExtendPrefix(list, k, Inserts(run), faults, |run|);
  }

  /** `down` reverts the newest recorded migrations in reverse order and stops at the first failure. */
  lemma DownShortensPrefix(list: seq<Migration>, k: nat, steps: Option<int>, faults: seq<Fault>)
    requires IsVersioned(list) && k <= |list|
    ensures var result, asked := Down(list[..k], steps, faults), if steps.Some? then steps.value else 1;
      var n := if asked < 0 then 0 else if asked < k then asked else k;
      && StopsAt(faults, n, result.done) && result.rows == list[..k - result.done - Unreported(faults, n, result.done)]
      && (result.ok <==> asked >= 0 && result.done == n)
  {
    var asked := if steps.Some? then steps.value else 1;
    if asked >= 0 {
      var ops := Deletes(SliceTo(Reversed(list[..k]), asked));
      DeletesShortenPrefix(list, k, ops, faults, |ops|);
    }
  }

  datatype Command = RunUp(steps: Option<int>, faults: seq<Fault>) | RunDown(steps: Option<int>, faults: seq<Fault>)

  function RunCommand(list: seq<Migration>, rows: seq<Migration>, command: Command): RunResult {
    match command
    case RunUp(steps, faults) => Up(list, rows, steps, faults)
    case RunDown(steps, faults) => Down(rows, steps, faults)
  }

  function RunCommands(list: seq<Migration>, commands: seq<Command>): seq<Migration> {
    if commands == [] then [] else RunCommand(list, RunCommands(list, DropLast(commands)), Last(commands)).rows
  }

  // ---- Exactly when the recorded rows stay a prefix ----

  /** At most the highest version is used more than once. */
  ghost predicate OnlyLastRepeats(list: seq<Migration>) {
    forall i, j :: 0 <= i < j < |list| && list[i].version == list[j].version ==> list[j].version == Last(list).version
  }

  /** The migrations before `e` have versions of their own; all from the one before `e` on share one. */
  ghost predicate RepeatsFrom(list: seq<Migration>, e: nat) {
    && e <= |list| && IsVersioned(list[..e])
    && (e < |list| ==> e > 0 && forall j :: e <= j < |list| ==> list[j].version == list[e - 1].version)
  }

  lemma FindRepeats(list: seq<Migration>) returns (e: nat)
    requires Sorted(list, Version) && OnlyLastRepeats(list)
    ensures RepeatsFrom(list, e)
  {
    e := |list|;
    if list != [] {
      while e > 1 && list[e - 2].version == Last(list).version
        invariant 1 <= e <= |list|
        invariant forall j :: e - 1 <= j < |list| ==> list[j].version == Last(list).version
      {
        e := e - 1;
      }
      var own := list[..e];
      forall i, j | 0 <= i < j < e
        ensures Less(own[i].version, own[j].version)
      {
        LessIsTotal(list[i].version, list[j].version);
        assert !Less(Version(list[j]), Version(list[i]));
        assert list[i].version != list[j].version by {
          if list[i].version == list[j].version {
            SortedRange(list, i, e - 2, |list| - 1);
          }
        }
      }
    }
  }

  /** Inserts from a prefix on stop at the first version that is already recorded. */
  lemma {:induction false} InsertsStayInside(list: seq<Migration>, e: nat, k: nat, ops: seq<Bookkeeping>,
                                             faults: seq<Fault>, n: nat)
    requires RepeatsFrom(list, e) && k <= e && k + |ops| <= |list| && n <= |ops|
    requires forall i :: 0 <= i < |ops| ==> ops[i] == InsertRow(list[k + i])
    ensures var result := RunAll(list[..k], ops, faults, n);
      && result.done <= n && (result.ok ==> result.done == n)
      && exists m :: k <= m <= e && result.rows == list[..m] && (result.ok ==> m == k + n)
  {
    hide IsVersioned, Bookkeep;
    if n > 0 {
      InsertsStayInside(list, e, k, ops, faults, n - 1);
      InsertInside(list, e, k + n - 1);
    }
  }

  lemma InsertInside(list: seq<Migration>, e: nat, k: nat)
    requires RepeatsFrom(list, e) && k < |list|
    ensures k < e ==> Bookkeep(list[..k], InsertRow(list[k])) == Some(list[..k + 1])
    ensures k == e ==> Bookkeep(list[..k], InsertRow(list[k])) == None
  {
    if k < e {
      NextInsert(list[..e], k);
      assert list[..e][..k] == list[..k] && list[..e][..k + 1] == list[..k + 1];
    } else if k == e {
      assert list[..e][e - 1] in list[..e];
      assert Recorded(list[..e], list[k].version);
    }
  }

  lemma RecordedBefore(list: seq<Migration>, e: nat, k: nat, i: nat)
    requires RepeatsFrom(list, e) && k <= e && i < |list|
    ensures Recorded(list[..k], list[i].version) <==> i < k || (k == e && i >= e)
  {
    assert list[..e][..k] == list[..k];
    if i < e {
      RecordedInPrefix(list[..e], k, i);
    } else {
      RecordedInPrefix(list[..e], k, e - 1);
    }
  }

  lemma UpStaysInside(list: seq<Migration>, e: nat, k: nat, steps: Option<int>, faults: seq<Fault>)
    requires RepeatsFrom(list, e) && k <= e
    ensures exists m :: 0 <= m <= e && Up(list, list[..k], steps, faults).rows == list[..m]
  {
    hide RepeatsFrom, Pending, RunAll, Recorded;
    RepeatsEnd(list, e);
    var q := if k == e then |list| else k;
    forall i | 0 <= i < |list|
      ensures Recorded(list[..k], list[i].version) <==> i < q
    {
      RecordedBefore(list, e, k, i);
    }
    PendingFrom(list, list[..k], q, |list|);
    assert list[..|list|] == list && (q == |list| ==> list[q..] == []);
    var run := ToRun(list, list[..k], steps);
    if q == k {
      assert forall i :: 0 <= i < |run| ==> run[i] == list[k + i];
      InsertsStayInside(list, e, k, Inserts(run), faults, |run|);
    } else {
      NothingRuns(list[..k], Inserts(run), faults);
    }
  }

  lemma RepeatsEnd(list: seq<Migration>, e: nat)
    requires RepeatsFrom(list, e)
    ensures e <= |list|
  {
  }

  lemma NothingRuns(rows: seq<Migration>, ops: seq<Bookkeeping>, faults: seq<Fault>)
    requires ops == []
    ensures RunAll(rows, ops, faults, |ops|) == RunResult(rows, 0, true)
  {
  }

  lemma DownStaysInside(list: seq<Migration>, e: nat, k: nat, steps: Option<int>, faults: seq<Fault>)
    requires RepeatsFrom(list, e) && k <= e
    ensures exists m :: 0 <= m <= e && Down(list[..k], steps, faults).rows == list[..m]
  {
    DownShortensPrefix(list[..e], k, steps, faults);
    assert list[..e][..k] == list[..k];
    var rows := Down(list[..k], steps, faults).rows;
    var m := |rows|;
    assert rows <= list[..e] && list[..e][..m] == list[..m];
  }

  lemma {:induction false} RecordedIsPrefix(list: seq<Migration>, e: nat, commands: seq<Command>)
    requires RepeatsFrom(list, e)
    ensures exists k :: 0 <= k <= e && RunCommands(list, commands) == list[..k]
  {
    hide RepeatsFrom, Up, Down;
    RepeatsEnd(list, e);
    if commands == [] {
      assert RunCommands(list, commands) == list[..0];
    } else {
      RecordedIsPrefix(list, e, DropLast(commands));
      var k :| 0 <= k <= e && RunCommands(list, DropLast(commands)) == list[..k];
      match Last(commands)
      case RunUp(steps, faults) => UpStaysInside(list, e, k, steps, faults);
      case RunDown(steps, faults) => DownStaysInside(list, e, k, steps, faults);
    }
  }

  /** A repeated version with a higher one after it: the second `up` runs the higher one over the skipped file. */
  lemma SkippedFileIsOvertaken(list: seq<Migration>, p: nat, q: nat)
    requires p + 1 < q < |list| && IsVersioned(list[..p + 1])
    requires forall j :: p < j < q ==> list[j].version == list[p].version
    requires forall j :: q <= j < |list| ==> Less(list[p].version, list[j].version)
    ensures RunCommands(list, [RunUp(None, []), RunUp(Some(1), [])]) == list[..p + 1] + [list[q]]
  {
    hide RunAll, Pending, Recorded, Bookkeep;
    FirstUpStopsAtRepeat(list, p);
    SecondUpSkipsRepeat(list, p, q);
    var first, second := RunUp(None, []), RunUp(Some(1), []);
    TwoCommands(list, first, second);
    hide Up, RunCommands;
  }

  lemma TwoCommands(list: seq<Migration>, first: Command, second: Command)
    ensures RunCommands(list, [first, second]) == RunCommand(list, RunCommand(list, [], first).rows, second).rows
  {
    assert DropLast([first, second]) == [first] && DropLast([first]) == [];
    hide RunCommand;
    assert RunCommands(list, [first]) == RunCommand(list, [], first).rows;
  }

  lemma FirstUpStopsAtRepeat(list: seq<Migration>, p: nat)
    requires p + 1 < |list| && IsVersioned(list[..p + 1]) && list[p + 1].version == list[p].version
    ensures Up(list, [], None, []).rows == list[..p + 1]
  {
    hide Pending, Recorded, IsVersioned, Bookkeep;
    NothingRecorded(list);
    PendingFrom(list, [], 0, |list|);
    assert list[..|list|] == list[0..] == list;
    var ops := Inserts(list);
    assert ToRun(list, [], None) == list;
    RunsUpToRepeat(list, p, ops, p + 1);
    RepeatIsRejected(list, p);
    StoppedForGood([], ops, [], p + 2, |ops|);
  }

  lemma NothingRecorded(list: seq<Migration>)
    ensures forall i :: 0 <= i < |list| ==> !Recorded([], list[i].version)
  {
  }

  lemma {:induction false} RunsUpToRepeat(list: seq<Migration>, p: nat, ops: seq<Bookkeeping>, n: nat)
    requires p < |list| && IsVersioned(list[..p + 1]) && ops == Inserts(list) && n <= p + 1
    ensures RunAll([], ops, [], n) == RunResult(list[..n], n, true)
  {
    hide IsVersioned, Bookkeep;
    if n > 0 {
      RunsUpToRepeat(list, p, ops, n - 1);
      NextInsert(list[..p + 1], n - 1);
      assert list[..p + 1][..n - 1] == list[..n - 1] && list[..p + 1][..n] == list[..n];
    }
  }

  lemma RepeatIsRejected(list: seq<Migration>, p: nat)
    requires p + 1 < |list| && list[p + 1].version == list[p].version
    ensures Bookkeep(list[..p + 1], InsertRow(list[p + 1])) == None
  {
    assert list[..p + 1][p] in list[..p + 1];
    assert Recorded(list[..p + 1], list[p + 1].version);
  }

  lemma SecondUpSkipsRepeat(list: seq<Migration>, p: nat, q: nat)
    requires p + 1 < q < |list| && IsVersioned(list[..p + 1])
    requires forall j :: p < j < q ==> list[j].version == list[p].version
    requires forall j :: q <= j < |list| ==> Less(list[p].version, list[j].version)
    ensures Up(list, list[..p + 1], Some(1), []).rows == list[..p + 1] + [list[q]]
  {
    hide Pending, Recorded, RunAll, Bookkeep;
    var rows := list[..p + 1];
    forall i | 0 <= i < |list|
      ensures Recorded(rows, list[i].version) <==> i < q
    {
      RecordedUpTo(list, p, q, i);
    }
    PendingFrom(list, rows, q, |list|);
    assert list[..|list|] == list;
    var run := ToRun(list, rows, Some(1));
    assert run == [list[q]];
    HigherRowIsAppended(list, p, list[q]);
    OneInsert(rows, list[q]);
    assert Inserts(run) == [InsertRow(list[q])];
  }

  lemma OneInsert(rows: seq<Migration>, m: Migration)
    requires Bookkeep(rows, InsertRow(m)).Some?
    ensures RunAll(rows, [InsertRow(m)], [], 1) == RunResult(Bookkeep(rows, InsertRow(m)).value, 1, true)
  {
    hide Bookkeep;
    assert RunAll(rows, [InsertRow(m)], [], 0) == RunResult(rows, 0, true);
  }

  lemma RecordedUpTo(list: seq<Migration>, p: nat, q: nat, i: nat)
    requires p + 1 < q < |list| && i < |list| && IsVersioned(list[..p + 1])
    requires forall j :: p < j < q ==> list[j].version == list[p].version
    requires forall j :: q <= j < |list| ==> Less(list[p].version, list[j].version)
    ensures Recorded(list[..p + 1], list[i].version) <==> i < q
  {
    var rows := list[..p + 1];
    if i < q {
      var r := if i <= p then i else p;
      assert rows[r] in rows && rows[r].version == list[i].version;
    } else {
      forall row <- rows
        ensures row.version != list[i].version
      {
        BelowHigher(list, p, list[i], row);
      }
    }
  }

  lemma BelowHigher(list: seq<Migration>, p: nat, m: Migration, row: Migration)
    requires p < |list| && IsVersioned(list[..p + 1]) && Less(list[p].version, m.version) && row in list[..p + 1]
    ensures Less(row.version, m.version) && row.version != m.version
  {
    var r :| 0 <= r < p + 1 && list[..p + 1][r] == row;
    if r < p {
      assert Less(list[..p + 1][r].version, list[..p + 1][p].version);
      LessIsTransitive(row.version, list[p].version, m.version);
    }
    LessIsTotal(row.version, m.version);
  }

  lemma HigherRowIsAppended(list: seq<Migration>, p: nat, m: Migration)
    requires p < |list| && IsVersioned(list[..p + 1]) && Less(list[p].version, m.version)
    ensures Bookkeep(list[..p + 1], InsertRow(m)) == Some(list[..p + 1] + [m])
  {
    forall row <- list[..p + 1]
      ensures Less(row.version, m.version) && row.version != m.version
    {
      BelowHigher(list, p, m, row);
    }
    InsertAtEnd(m, list[..p + 1]);
  }

  /** The first repeated version up to `i`. */
  lemma FirstRepeat(list: seq<Migration>, i: nat) returns (p: nat)
    requires Sorted(list, Version) && i + 1 < |list| && list[i].version == list[i + 1].version
    ensures p <= i && IsVersioned(list[..p + 1]) && list[p + 1].version == list[p].version
  {
    hide Sorted;
    p := 0;
    while list[p + 1].version != list[p].version
      invariant p <= i && IsVersioned(list[..p + 1])
      decreases i - p
    {
      hide IsVersioned;
      NextVersion(list, p);
      p := p + 1;
    }
  }

  /** The first repeated version with a higher one after it, and the first migration of a higher one. */
  lemma RepeatBelowLast(list: seq<Migration>) returns (p: nat, q: nat)
    requires Sorted(list, Version) && !OnlyLastRepeats(list)
    ensures p + 1 < q < |list| && IsVersioned(list[..p + 1])
    ensures forall j :: p < j < q ==> list[j].version == list[p].version
    ensures forall j :: q <= j < |list| ==> Less(list[p].version, list[j].version)
  {
    var i, j :| 0 <= i < j < |list| && list[i].version == list[j].version && list[j].version != Last(list).version;
    hide Sorted, IsVersioned, Less;
    SortedRange(list, i, i + 1, j);
    p := FirstRepeat(list, i);
    SortedRange(list, p, i, |list| - 1);
    q := p + 2;
    while list[q].version == list[p].version
      invariant p + 1 < q < |list|
      invariant forall k :: p < k < q ==> list[k].version == list[p].version
      decreases |list| - q
    {
      q := q + 1;
    }
    forall k | q <= k < |list|
      ensures Less(list[p].version, list[k].version)
    {
      AfterRepeat(list, p, q, k);
    }
  }

  /** Between two equal versions of a sorted list lie only that version. */
  lemma SortedRange(list: seq<Migration>, i: nat, m: nat, j: nat)
    requires Sorted(list, Version) && i <= m <= j < |list|
    ensures list[i].version == list[j].version ==> list[m].version == list[i].version
  {
    LessIsTotal(list[i].version, list[m].version);
    assert i < m ==> !Less(Version(list[m]), Version(list[i]));
    assert m < j ==> !Less(Version(list[j]), Version(list[m]));
  }

  lemma NextVersion(list: seq<Migration>, p: nat)
    requires Sorted(list, Version) && p + 1 < |list| && IsVersioned(list[..p + 1])
        && list[p + 1].version != list[p].version
    ensures IsVersioned(list[..p + 2])
  {
    var longer := list[..p + 2];
    assert !Less(Version(list[p + 1]), Version(list[p]));
    LessIsTotal(list[p].version, list[p + 1].version);
    forall i, j | 0 <= i < j < p + 2
      ensures Less(longer[i].version, longer[j].version)
    {
      assert j <= p ==> Less(list[..p + 1][i].version, list[..p + 1][j].version);
      if j == p + 1 && i < p {
        assert Less(list[..p + 1][i].version, list[..p + 1][p].version);
        LessIsTransitive(list[i].version, list[p].version, list[p + 1].version);
      }
    }
  }

  lemma AfterRepeat(list: seq<Migration>, p: nat, q: nat, k: nat)
    requires Sorted(list, Version) && p < q <= k < |list| && list[q].version != list[p].version
    ensures Less(list[p].version, list[k].version)
  {
    LessIsTotal(list[p].version, list[k].version);
    assert !Less(Version(list[k]), Version(list[p]));
    SortedRange(list, p, q, k);
  }

  /**
   * After any commands with any failures the recorded migrations are a prefix of the list, exactly when at most the
   * highest version repeats.
   */
  lemma RecordedIsAlwaysPrefix(list: seq<Migration>)
    requires Sorted(list, Version)
    ensures (forall commands :: RunCommands(list, commands) <= list) <==> OnlyLastRepeats(list)
  {
    hide OnlyLastRepeats, RunCommands, RepeatsFrom, IsVersioned, Sorted;
    if OnlyLastRepeats(list) {
      var e := FindRepeats(list);
      forall commands
        ensures RunCommands(list, commands) <= list
      {
        RepeatsEnd(list, e);
        RecordedIsPrefix(list, e, commands);
      }
    } else {
      var p, q := RepeatBelowLast(list);
      var commands := [RunUp(None, []), RunUp(Some(1), [])];
      SkippedFileIsOvertaken(list, p, q);
      LessIsTotal(list[p].version, list[q].version);
      assert RunCommands(list, commands)[p + 1] == list[q] != list[p + 1];
    }
  }

  lemma VersionedPrefix(list: seq<Migration>, commands: seq<Command>)
    requires IsVersioned(list)
    ensures RunCommands(list, commands) <= list
  {
    assert list[..|list|] == list;
    RecordedIsPrefix(list, |list|, commands);
  }

  /** A successful unbounded `up` records the whole list, and the next one runs nothing. */
  lemma UnboundedUpCompletes(list: seq<Migration>, commands: seq<Command>, faults: seq<Fault>)
    requires IsVersioned(list)
    ensures var result := Up(list, RunCommands(list, commands), None, faults);
      && (result.ok ==> result.rows == list)
      && Up(list, list, None, faults) == RunResult(list, 0, true)
  {
    VersionedPrefix(list, commands);
    var k := |RunCommands(list, commands)|;
    assert RunCommands(list, commands) == list[..k];
    assert list[..|list|] == list;
    UpExtendsPrefix(list, k, None, faults);
    UpExtendsPrefix(list, |list|, None, faults);
  }

  /** `down(n)` undoes a successful `up(n)` that had n migrations to run. */
  lemma DownUndoesUp(list: seq<Migration>, k: nat, n: nat)
    requires IsVersioned(list) && n > 0 && k + n <= |list|
    ensures var after := Up(list, list[..k], Some(n), []);
      after.ok && after.rows == list[..k + n] && Down(after.rows, Some(n), []) == RunResult(list[..k], n, true)
  {
    UpExtendsPrefix(list, k, Some(n), []);
    DownShortensPrefix(list, k + n, Some(n), []);
    var down := Down(list[..k + n], Some(n), []);
    assert down.done == n;
    var up := Up(list, list[..k], Some(n), []);
    assert up.done == n;
  }

  // ---- Versions must be distinct ----

  lemma {:induction false} InsertKeepsDistinct(m: Migration, rows: seq<Migration>)
    requires DistinctVersions(rows) && !Recorded(rows, m.version)
    ensures DistinctVersions(Insert(m, rows, Version))
    ensures forall row :: row in Insert(m, rows, Version) <==> row == m || row in rows
  {
    if rows != [] && Less(Version(rows[0]), Version(m)) {
      assert forall row <- rows[1..] :: row in rows;
      InsertKeepsDistinct(m, rows[1..]);
      var rest := Insert(m, rows[1..], Version);
      forall i | 0 <= i < |rest|
        ensures rest[i].version != rows[0].version
      {
        assert rest[i] in rest && rows[0] in rows;
        if rest[i] != m {
          var j :| 0 <= j < |rows| - 1 && rows[1..][j] == rest[i];
        }
      }
    } else {
      forall i | 0 <= i < |rows| ensures rows[i].version != m.version { assert rows[i] in rows; }
    }
  }

  lemma {:induction false} DeleteKeepsDistinct(rows: seq<Migration>, version: string)
    requires DistinctVersions(rows)
    ensures DistinctVersions(WithoutVersion(rows, version))
    ensures forall row <- WithoutVersion(rows, version) :: row in rows
  {
    if rows != [] {
      var rest := WithoutVersion(DropLast(rows), version);
      DeleteKeepsDistinct(DropLast(rows), version);
      forall i | 0 <= i < |rest|
        ensures rest[i].version != Last(rows).version
      {
        assert rest[i] in DropLast(rows);
        var j :| 0 <= j < |rows| - 1 && rows[j] == rest[i];
      }
    }
  }

  lemma {:induction false} RunAllKeepsDistinct(rows: seq<Migration>, ops: seq<Bookkeeping>, faults: seq<Fault>, n: nat)
    requires DistinctVersions(rows) && n <= |ops|
    ensures DistinctVersions(RunAll(rows, ops, faults, n).rows)
  {
    if n > 0 {
      RunAllKeepsDistinct(rows, ops, faults, n - 1);
      var before := RunAll(rows, ops, faults, n - 1);
      match ops[n - 1]
      case InsertRow(m) =>
        if !Recorded(before.rows, m.version) {
          InsertKeepsDistinct(m, before.rows);
        }
      case DeleteRow(version) => DeleteKeepsDistinct(before.rows, version);
    }
  }

  lemma {:induction false} RecordedAreDistinct(list: seq<Migration>, commands: seq<Command>)
    ensures DistinctVersions(RunCommands(list, commands))
  {
    if commands != [] {
      RecordedAreDistinct(list, DropLast(commands));
      var rows := RunCommands(list, DropLast(commands));
      match Last(commands)
      case RunUp(steps, faults) =>
        var ops := Inserts(ToRun(list, rows, steps));
        RunAllKeepsDistinct(rows, ops, faults, |ops|);
      case RunDown(steps, faults) =>
        var n := if steps.Some? then steps.value else 1;
        if n >= 0 {
          var ops := Deletes(SliceTo(Reversed(rows), n));
          RunAllKeepsDistinct(rows, ops, faults, |ops|);
        }
    }
  }

  /** Some commands record the whole sorted list exactly when no version is used twice. */
  lemma AllCanBeRecordedIffDistinct(list: seq<Migration>)
    requires Sorted(list, Version)
    ensures DistinctVersions(list) <==> exists commands :: RunCommands(list, commands) == list
  {
    SortedDistinctIsVersioned(list);
    if DistinctVersions(list) {
      UpExtendsPrefix(list, 0, None, []);
      var up := Up(list, [], None, []);
      assert list[..0] == [];
      assert up.done == |list|;
      var command := RunUp(None, []);
      assert DropLast([command]) == [];
      assert RunCommands(list, [command]) == list[..|list|] == list;
      assert exists commands :: RunCommands(list, commands) == list;
    }
    if exists commands :: RunCommands(list, commands) == list {
      var commands :| RunCommands(list, commands) == list;
      RecordedAreDistinct(list, commands);
    }
  }

  lemma TwoPending(a: Migration, b: Migration, rows: seq<Migration>)
    ensures Pending([a, b], rows)
         == (if Recorded(rows, a.version) then [] else [a]) + if Recorded(rows, b.version) then [] else [b]
  {
    var list := [a, b];
    PendingStep(list, rows, 0);
    PendingStep(list, rows, 1);
    assert list[..0] == [] && list[..2] == list;
    assert Pending([], rows) == [];
    hide Pending, Recorded;
  }

  lemma SecondRowIsRejected(a: Migration, b: Migration)
    requires a.version == b.version
    ensures Bookkeep([], InsertRow(a)) == Some([a]) && Bookkeep([a], InsertRow(b)) == None
  {
    var none: seq<Migration> := [];
    InsertAtEnd(a, none);
    assert none + [a] == [a] && !Recorded(none, a.version);
    assert a in [a];
    assert Recorded([a], b.version);
  }

  /** Two files with one version: the second fails, and is skipped without a report until the first is reverted. */
  lemma DuplicateVersionIsSkipped(a: Migration, b: Migration)
    requires a.version == b.version
    ensures var first := Up([a, b], [], None, []);
      && first == RunResult([a], 1, false)
      && Pending([a, b], first.rows) == []
      && Up([a, b], first.rows, None, []) == RunResult(first.rows, 0, true)
      && Down(first.rows, None, []) == RunResult([], 1, true)
      && Pending([a, b], []) == [a, b]
  {
    hide Pending, Bookkeep;
    TwoPending(a, b, []);
    TwoPending(a, b, [a]);
    SecondRowIsRejected(a, b);
    RevertOnly(a);
    hide Down;
    var none: seq<Migration> := [];
    assert !Recorded(none, a.version) && Recorded([a], a.version) by { assert a in [a]; }
    hide Recorded;
    assert ToRun([a, b], none, None) == [a, b] && ToRun([a, b], [a], None) == [];
    var ops := Inserts([a, b]);
    assert ops == [InsertRow(a), InsertRow(b)];
    assert RunAll([], ops, [], 1) == RunResult([a], 1, true);
    assert RunAll([], ops, [], 2) == RunResult([a], 1, false);
    assert Inserts([]) == [];
  }

  lemma RevertOnly(a: Migration)
    ensures Down([a], None, []) == RunResult([], 1, true)
  {
    DownShortensPrefix([a], 1, None, []);
    assert [a][..1] == [a] && [a][..0] == [];
    var down := Down([a][..1], None, []);
    assert down.done == 1;
  }

  // ---- The runner ----

  /** The runner's connection to the database that holds `schema_migrations`. */
  class Runner {
    var rows: seq<Migration>

    constructor ()
      ensures rows == []
    {
      rows := [];
    }

    /** One migration in its own transaction: on a failure before the commit the rows are as before. */
    method RunOne(op: Bookkeeping, fault: Fault) returns (ok: bool)
      modifies this
      ensures (rows, ok) == RunOneRows(old(rows), op, fault)
    {
      var beforeTransaction := rows;
      if fault == InSql {
        return false; // nothing recorded yet
      }
      var changed := Bookkeep(rows, op);
      if fault == InBookkeeping || changed.None? {
        return false;
      }
      rows := changed.value;
      if fault == InCommit {
        rows := beforeTransaction;
        return false;
      }
      ok := fault != AfterCommit;
    }

    method RunUp(list: seq<Migration>, steps: Option<int>, faults: seq<Fault>) returns (done: nat, ok: bool)
      modifies this
      ensures RunResult(rows, done, ok) == Up(list, old(rows), steps, faults)
    {
      var toRun := ToRun(list, rows, steps);
      ghost var ops := Inserts(toRun);
      done, ok := 0, true;
      for i := 0 to |toRun|
        invariant done == i && ok && RunResult(rows, done, ok) == RunAll(old(rows), ops, faults, i)
      {
        ok := RunOne(InsertRow(toRun[i]), FaultAt(faults, i));
        if !ok {
          StoppedForGood(old(rows), ops, faults, i + 1, |ops|);
          return;
        }
        done := i + 1;
      }
    }

    method RunDown(steps: Option<int>, faults: seq<Fault>) returns (done: nat, ok: bool)
      modifies this
      ensures RunResult(rows, done, ok) == Down(old(rows), steps, faults)
    {
      var limit := if steps.Some? then steps.value else 1;
      done, ok := 0, limit >= 0;
      if limit < 0 {
        return;
      }
      var toRevert := SliceTo(Reversed(rows), limit);
      ghost var ops := Deletes(toRevert);
      for i := 0 to |toRevert|
        invariant done == i && ok && RunResult(rows, done, ok) == RunAll(old(rows), ops, faults, i)
      {
        ok := RunOne(DeleteRow(toRevert[i].version), FaultAt(faults, i));
        if !ok {
          StoppedForGood(old(rows), ops, faults, i + 1, |ops|);
          return;
        }
        done := i + 1;
      }
    }

    /** How many migrations are still pending. */
    method Status(list: seq<Migration>) returns (pending: nat)
      ensures pending == |Pending(list, rows)|
      ensures IsVersioned(list) && rows <= list ==> pending == |list| - |rows|
    {
      pending := |Pending(list, rows)|;
      if IsVersioned(list) && rows <= list {
        PendingIsSuffix(list, |rows|);
        assert list[..|rows|] == rows;
      }
    }
  }

  lemma {:induction false} StoppedForGood(rows: seq<Migration>, ops: seq<Bookkeeping>, faults: seq<Fault>, i: nat,
                                          n: nat)
    requires i <= n <= |ops| && !RunAll(rows, ops, faults, i).ok
    ensures RunAll(rows, ops, faults, n) == RunAll(rows, ops, faults, i)
    decreases n
  {
    if i < n {
      StoppedForGood(rows, ops, faults, i, n - 1);
    }
  }
}
