/**
 * The schema migration runner (`migrate/src/main.rs`).
 *
 * The runner reads the file names of a migrations directory, keeps the files of
 * the requested direction, orders them, works out the target version, runs
 * every script strictly between the stored version and the target inside one
 * transaction, and finally overwrites the single stored `Version` integer with
 * the target. File contents, the directory listing and SQLite are outside the
 * model: file names come in as a sequence, and whether a script fails to read
 * or to execute is an oracle `fails`.
 */
module Migrate {
  import opened Wrappers
  import opened Strings

  datatype Direction = Up | Down

  /** A migration file kept for the run: its numeric id and its file name. */
  datatype Migration = Migration(id: nat, name: string)

  /** What a completed run did: the version it stored and the scripts it executed, in order. */
  datatype Report = Report(target: nat, executed: seq<string>)

  /** The direction part of a file name, case-insensitively; `None` is the `Invalid direction` panic. */
  function ParseDirection(text: string): (d: Option<Direction>)
    ensures d == Some(Up) <==> ToLower(text) == "up"
    ensures d == Some(Down) <==> ToLower(text) == "down"
    ensures d == None <==> ToLower(text) != "up" && ToLower(text) != "down"
  {
    var lower := ToLower(text);
    if lower == "up" then Some(Up)
    else if lower == "down" then Some(Down)
    else None
  }

  /**
   * Parses `<id>_<direction>.<ext>`: the id is the `usize` before the first
   * `_`, the direction the text after it up to the first `.`. Each `unwrap`
   * in the source that can fail is a panic here, in the source's order.
   */
  function ParseFileName(name: string): Outcome<(nat, Direction)> {
    var parts := Split(name, "_");
    match ParseUsize(parts[0])
    case None => Panic("invalid migration id")
    case Some(id) =>
      if |parts| < 2 then Panic("called `Option::unwrap()` on a `None` value")
      else
        match ParseDirection(Split(parts[1], ".")[0])
        case None => Panic("Invalid direction")
        case Some(d) => Done((id, d))
  }

  function DirectionText(d: Direction): string {
    if d == Up then "up" else "down"
  }

  /** The file name the migrations directory uses for a script. */
  function FileName(id: nat, d: Direction, ext: string): string {
    NatToString(id) + "_" + DirectionText(d) + "." + ext
  }

  /** The first piece of a split starts with any separator-free prefix. */
  lemma {:induction false} SplitFirstExtends(x: string, y: string, c: char)
    requires c !in x
    ensures Split(x + y, [c])[0] == x + Split(y, [c])[0]
    decreases |x|
  {
    if x != [] {
      var s := x + y;
      assert s[0] == x[0] && x[0] in x;
      assert !StartsWith(s, [c]);
      assert s[1..] == x[1..] + y;
      SplitFirstExtends(x[1..], y, c);
      assert [x[0]] + x[1..] == x;
    } else {
      assert x + y == y;
    }
  }

  /** Every well-formed file name parses back to its id and direction, whatever its extension. */
  lemma ParseFileNameOfFileName(id: nat, d: Direction, ext: string)
    requires id <= UsizeMax
    ensures ParseFileName(FileName(id, d, ext)) == Done((id, d))
  {
    var rest := DirectionText(d) + "." + ext;
    assert FileName(id, d, ext) == NatToString(id) + ['_'] + rest;
    IdPiece(id, rest);
    ParseUsizeOfNatToString(id);
    DirectionPiece(d, ext);
    DirectionTextParses(d);
  }

  /** The direction a file name spells parses back to that direction. */
  lemma DirectionTextParses(d: Direction)
    ensures ParseDirection(DirectionText(d)) == Some(d)
  {
    if d == Up {
      assert ToLower("up") == "up";
    } else {
      assert ToLower("down") == "down";
    }
  }

  /** The digits of an id hold no `_`, so they are the first piece of the name. */
  lemma IdPiece(id: nat, rest: string)
    ensures Split(NatToString(id) + ['_'] + rest, "_") == [NatToString(id)] + Split(rest, "_")
  {
    var idText := NatToString(id);
    assert '_' !in idText by {
      forall i | 0 <= i < |idText| ensures idText[i] != '_' { assert IsDigit(idText[i]); }
    }
    SplitCharAt(idText, '_', rest);
  }

  /** After the id, the text up to the first `.` is the direction, whatever the extension holds. */
  lemma DirectionPiece(d: Direction, ext: string)
    ensures Split(Split(DirectionText(d) + "." + ext, "_")[0], ".")[0] == DirectionText(d)
  {
    var dirText := DirectionText(d);
    assert dirText + "." + ext == (dirText + ".") + ext;
    SplitFirstExtends(dirText + ".", ext, '_');
    assert dirText + "." + Split(ext, "_")[0] == dirText + ['.'] + Split(ext, "_")[0];
    SplitCharAt(dirText, '.', Split(ext, "_")[0]);
  }

  /**
   * The migrations the directory scan keeps, in directory order: every name
   * is parsed (a malformed one panics, whatever its direction), and only the
   * files of the requested direction are kept.
   */
  function Collected(names: seq<string>, direction: Direction): Outcome<seq<Migration>>
    decreases |names|
  {
    if names == [] then Done([])
    else
      match Collected(names[..|names| - 1], direction)
      case Panic(m) => Panic(m)
      case Done(kept) =>
        var name := names[|names| - 1];
        match ParseFileName(name)
        case Panic(m) => Panic(m)
        case Done(parsed) =>
          Done(if parsed.1 == direction then kept + [Migration(parsed.0, name)] else kept)
  }

  /** The files of a direction, as a filter over well-formed names. */
  function OfDirection(names: seq<string>, direction: Direction): seq<Migration>
    decreases |names|
  {
    if names == [] then []
    else
      var kept := OfDirection(names[..|names| - 1], direction);
      var name := names[|names| - 1];
      match ParseFileName(name)
      case Done(parsed) =>
        if parsed.1 == direction then kept + [Migration(parsed.0, name)] else kept
      case Panic(_) => kept
  }

  ghost predicate AllParse(names: seq<string>) {
    forall i :: 0 <= i < |names| ==> ParseFileName(names[i]).Done?
  }

  /**
   * The scan panics exactly when some name is malformed; otherwise it keeps
   * exactly the files of the requested direction, in directory order.
   */
  lemma {:induction false} CollectedIsFilter(names: seq<string>, direction: Direction)
    ensures Collected(names, direction).Done? <==> AllParse(names)
    ensures Collected(names, direction).Done? ==>
              Collected(names, direction).value == OfDirection(names, direction)
    decreases |names|
  {
    if names != [] {
      var init := names[..|names| - 1];
      CollectedIsFilter(init, direction);
      assert AllParse(names) <==> AllParse(init) && ParseFileName(names[|names| - 1]).Done? by {
        if AllParse(init) && ParseFileName(names[|names| - 1]).Done? {
          forall i | 0 <= i < |names| ensures ParseFileName(names[i]).Done? {
            if i < |names| - 1 { assert names[i] == init[i]; }
          }
        }
        if AllParse(names) {
          forall i | 0 <= i < |init| ensures ParseFileName(init[i]).Done? {
            assert init[i] == names[i];
          }
        }
      }
    }
  }

  /** Every kept migration was parsed from one of the names, in the requested direction. */
  lemma {:induction false} OfDirectionSound(names: seq<string>, direction: Direction, k: nat)
    requires k < |OfDirection(names, direction)|
    ensures var m := OfDirection(names, direction)[k];
            m.name in names && ParseFileName(m.name) == Done((m.id, direction))
    decreases |names|
  {
    var init := names[..|names| - 1];
    var kept := OfDirection(init, direction);
    if k < |kept| {
      OfDirectionSound(init, direction, k);
      assert kept[k].name in init;
    }
  }

  /** A malformed name panics the scan even after the names before it were fine. */
  lemma {:induction false} CollectedPanicPersists(names: seq<string>, direction: Direction, i: nat)
    requires i <= |names| && Collected(names[..i], direction).Panic?
    ensures Collected(names, direction) == Collected(names[..i], direction)
    decreases |names| - i
  {
    if i < |names| {
      assert names[..i + 1][..i] == names[..i];
      CollectedPanicPersists(names, direction, i + 1);
    } else {
      assert names[..i] == names;
    }
  }

  /**
   * The directory scan loop of `main`: each name is parsed and the files of
   * the other direction are skipped.
   */
  method CollectMigrations(names: seq<string>, direction: Direction)
    returns (r: Outcome<seq<Migration>>)
    ensures r == Collected(names, direction)
  {
    var migrations: seq<Migration> := [];
    for i := 0 to |names|
      invariant Collected(names[..i], direction) == Done(migrations)
    {
      assert names[..i + 1][..i] == names[..i];
      var parsed := ParseFileName(names[i]);
      if parsed.Panic? {
        CollectedPanicPersists(names, direction, i + 1);
        return Panic(parsed.message);
      }
      var (id, entryDirection) := parsed.value;
      if entryDirection != direction {
        continue;
      }
      migrations := migrations + [Migration(id, names[i])];
    }
    assert names[..|names|] == names;
    r := Done(migrations);
  }

  /** `a` may come before `b` in the run order of `direction`. */
  predicate InOrder(direction: Direction, a: Migration, b: Migration) {
    if direction == Up then a.id <= b.id else a.id >= b.id
  }

  ghost predicate SortedFor(ms: seq<Migration>, direction: Direction) {
    forall i, j :: 0 <= i < j < |ms| ==> InOrder(direction, ms[i], ms[j])
  }

  /** Inserts `m` before the first element it may precede (so equal ids keep their order). */
  function Insert(m: Migration, sorted: seq<Migration>, direction: Direction): (r: seq<Migration>)
    ensures multiset(r) == multiset(sorted) + multiset{m}
  {
    if sorted == [] || InOrder(direction, m, sorted[0]) then [m] + sorted
    else
      assert sorted == [sorted[0]] + sorted[1..];
      [sorted[0]] + Insert(m, sorted[1..], direction)
  }

  /** Inserting into an ordered list keeps it ordered. */
  lemma {:induction false} InsertSorted(m: Migration, sorted: seq<Migration>, direction: Direction)
    requires SortedFor(sorted, direction)
    ensures SortedFor(Insert(m, sorted, direction), direction)
    decreases |sorted|
  {
    var r := Insert(m, sorted, direction);
    if sorted == [] || InOrder(direction, m, sorted[0]) {
      forall i, j | 0 <= i < j < |r| ensures InOrder(direction, r[i], r[j]) {
        if i == 0 && j > 1 {
          assert InOrder(direction, sorted[0], sorted[j - 1]);
        }
      }
    } else {
      var tail := Insert(m, sorted[1..], direction);
      assert SortedFor(sorted[1..], direction);
      InsertSorted(m, sorted[1..], direction);
      forall k | 0 <= k < |sorted[1..]| ensures InOrder(direction, sorted[0], sorted[1..][k]) {
        assert sorted[1..][k] == sorted[k + 1];
      }
      InsertAfter(sorted[0], m, sorted[1..], direction);
      assert r == [sorted[0]] + tail;
      forall i, j | 0 <= i < j < |r| ensures InOrder(direction, r[i], r[j]) {
        if i == 0 {
          assert r[j] == tail[j - 1];
        } else {
          assert r[i] == tail[i - 1] && r[j] == tail[j - 1];
        }
      }
    }
  }

  /** An element that may precede `m` and every element of `sorted` may precede all of the insertion. */
  lemma InsertAfter(x: Migration, m: Migration, sorted: seq<Migration>, direction: Direction)
    requires InOrder(direction, x, m)
    requires forall k :: 0 <= k < |sorted| ==> InOrder(direction, x, sorted[k])
    ensures forall k :: 0 <= k < |Insert(m, sorted, direction)| ==> InOrder(direction, x, Insert(m, sorted, direction)[k])
  {
    var r := Insert(m, sorted, direction);
    forall k | 0 <= k < |r| ensures InOrder(direction, x, r[k]) {
      assert r[k] in multiset(r);
      if r[k] != m {
        assert r[k] in multiset(sorted);
        var j :| 0 <= j < |sorted| && sorted[j] == r[k];
      }
    }
  }

  /**
   * The stable sort of `main`: ascending ids for `Up`, descending for `Down`;
   * the result is ordered and a permutation of the input.
   */
  function SortById(ms: seq<Migration>, direction: Direction): (r: seq<Migration>)
    ensures multiset(r) == multiset(ms)
    ensures SortedFor(r, direction)
  {
    if ms == [] then []
    else
      assert ms == [ms[0]] + ms[1..];
      var tail := SortById(ms[1..], direction);
      InsertSorted(ms[0], tail, direction);
      Insert(ms[0], tail, direction)
  }

  /**
   * The target used when none is given: the last id in run order for `Up`, one
   * less than it for `Down`; no file at all is the `unwrap` panic, and a `Down`
   * file with id 0 is the `usize` subtraction overflow.
   */
  function DefaultTarget(sorted: seq<Migration>, direction: Direction): (r: Outcome<nat>)
    ensures sorted == [] ==> r.Panic?
    ensures r.Done? <==> sorted != [] && (direction == Up || sorted[|sorted| - 1].id > 0)
    ensures r.Done? && direction == Up ==> r.value == sorted[|sorted| - 1].id
    ensures r.Done? && direction == Down ==> r.value + 1 == sorted[|sorted| - 1].id
  {
    if sorted == [] then Outcome<nat>.Panic("called `Option::unwrap()` on a `None` value")
    else
      var last := sorted[|sorted| - 1].id;
      if direction == Up then Done(last)
      else if last == 0 then Panic("attempt to subtract with overflow")
      else Done(last - 1)
  }

  /**
   * Up targets the largest id; Down targets the smallest id minus one. With no
   * file of the direction the default panics, and so it does for `Down` when
   * any file has id 0.
   */
  lemma DefaultTargetIsExtreme(sorted: seq<Migration>, direction: Direction)
    requires SortedFor(sorted, direction)
    ensures sorted == [] ==> DefaultTarget(sorted, direction).Panic?
    ensures sorted != [] && direction == Up ==>
              DefaultTarget(sorted, direction) == Done(sorted[|sorted| - 1].id) &&
              forall m :: m in sorted ==> m.id <= sorted[|sorted| - 1].id
    ensures sorted != [] && direction == Down && sorted[|sorted| - 1].id > 0 ==>
              DefaultTarget(sorted, direction) == Done(sorted[|sorted| - 1].id - 1) &&
              forall m :: m in sorted ==> m.id >= sorted[|sorted| - 1].id
    ensures direction == Down && (exists m :: m in sorted && m.id == 0) ==> DefaultTarget(sorted, direction).Panic?
  {
    forall m | m in sorted
      ensures InOrder(direction, m, sorted[|sorted| - 1])
    {
      var k :| 0 <= k < |sorted| && sorted[k] == m;
      if k < |sorted| - 1 {
        assert InOrder(direction, sorted[k], sorted[|sorted| - 1]);
      }
    }
  }

  /** Whether a script lies between the stored version and the target (the skip rules of `main`). */
  predicate InWindow(direction: Direction, current: nat, target: nat, id: nat) {
    if direction == Up then current < id <= target else target < id <= current
  }

  /** The scripts a run executes, in run order. */
  function Pending(ms: seq<Migration>, direction: Direction, current: nat, target: nat)
    : (r: seq<Migration>)
    ensures forall m :: m in r <==> m in ms && InWindow(direction, current, target, m.id)
    decreases |ms|
  {
    if ms == [] then []
    else
      var init := Pending(ms[..|ms| - 1], direction, current, target);
      var last := ms[|ms| - 1];
      assert ms == ms[..|ms| - 1] + [last];
      if InWindow(direction, current, target, last.id) then init + [last] else init
  }

  /** Pending scripts keep the run order of the sorted list they come from. */
  lemma {:induction false} PendingSorted(ms: seq<Migration>, direction: Direction, current: nat, target: nat)
    requires SortedFor(ms, direction)
    ensures SortedFor(Pending(ms, direction, current, target), direction)
    decreases |ms|
  {
    if ms != [] {
      var init := ms[..|ms| - 1];
      assert SortedFor(init, direction);
      PendingSorted(init, direction, current, target);
      var p := Pending(init, direction, current, target);
      forall k | 0 <= k < |p| ensures InOrder(direction, p[k], ms[|ms| - 1]) {
        assert p[k] in init;
        var j :| 0 <= j < |init| && init[j] == p[k];
      }
    }
  }

  /** With the stored version already at the target, nothing is pending in either direction. */
  lemma NothingPendingAtTarget(ms: seq<Migration>, direction: Direction, v: nat)
    ensures Pending(ms, direction, v, v) == []
  {
    var p := Pending(ms, direction, v, v);
    assert forall k :: 0 <= k < |p| ==> p[k] in p;
  }

  function Names(ms: seq<Migration>): (r: seq<string>)
    ensures |r| == |ms| && forall k :: 0 <= k < |ms| ==> r[k] == ms[k].name
  {
    seq(|ms|, k requires 0 <= k < |ms| => ms[k].name)
  }

  predicate AnyFails(ms: seq<Migration>, fails: string -> bool) {
    exists k :: 0 <= k < |ms| && fails(ms[k].name)
  }

  /**
   * A whole run from stored version `current`: scan, sort, pick the target,
   * then execute the pending scripts in order; a failing script aborts the run
   * and its transaction.
   */
  function Planned(names: seq<string>, direction: Direction, target: Option<nat>, current: nat,
                   fails: string -> bool): Outcome<Report>
  {
    match Collected(names, direction)
    case Panic(m) => Panic(m)
    case Done(kept) =>
      var sorted := SortById(kept, direction);
      match (if target.Some? then Done(target.value) else DefaultTarget(sorted, direction))
      case Panic(m) => Panic(m)
      case Done(t) =>
        var pending := Pending(sorted, direction, current, t);
        if AnyFails(pending, fails) then Panic("migration script failed")
        else Done(Report(t, Names(pending)))
  }

  /**
   * A successful run stores its target and executes exactly the scripts of the
   * requested direction inside the window: ids above the stored version up to
   * and including the target for Up, ids above the target up to and including
   * the stored version for Down; in ascending order for Up and descending for Down.
   */
  lemma PlannedExecutesWindow(names: seq<string>, direction: Direction, target: Option<nat>,
                              current: nat, fails: string -> bool)
    requires Planned(names, direction, target, current, fails).Done?
    ensures var run := Planned(names, direction, target, current, fails).value;
            var sorted := SortById(OfDirection(names, direction), direction);
            var pending := Pending(sorted, direction, current, run.target);
            && run.executed == Names(pending)
            && SortedFor(pending, direction)
            && (forall m :: m in pending <==>
                  m in OfDirection(names, direction) && InWindow(direction, current, run.target, m.id))
            && (target.Some? ==> run.target == target.value)
  {
    CollectedIsFilter(names, direction);
    var sorted := SortById(OfDirection(names, direction), direction);
    var run := Planned(names, direction, target, current, fails).value;
    PendingSorted(sorted, direction, current, run.target);
    forall m ensures m in sorted <==> m in OfDirection(names, direction) {
      assert m in sorted <==> m in multiset(sorted);
    }
  }

  /**
   * Running Up again with the same files and the default target executes
   * nothing and stores the same version: the first run left the stored
   * version at that target.
   */
  lemma RerunExecutesNothing(names: seq<string>, direction: Direction, current: nat,
                             fails: string -> bool)
    requires Planned(names, direction, None, current, fails).Done?
    ensures var first := Planned(names, direction, None, current, fails).value;
            Planned(names, direction, None, first.target, fails) == Done(Report(first.target, []))
  {
    var first := Planned(names, direction, None, current, fails).value;
    var sorted := SortById(Collected(names, direction).value, direction);
    NothingPendingAtTarget(sorted, direction, first.target);
  }

  /**
   * The database the runner migrates: the `Migration` table's single
   * `Version` value and the scripts whose effects are committed.
   */
  class Migrator {
    /** The `Version` row; `None` while the table has no row. */
    var versionRow: Option<nat>
    /** File names of the committed scripts, oldest first. */
    var applied: seq<string>

    /** A fresh database: an empty `Migration` table and no script applied. */
    constructor ()
      ensures versionRow == None && applied == []
    {
      versionRow := None;
      applied := [];
    }

    /**
     * One invocation of `main`. A missing version row is read as 0 and a 0
     * row is written first, outside the transaction, so it survives a later
     * panic. The scripts and the version update share one transaction: on
     * success the stored version is the target and the executed scripts are
     * committed together; on a panic nothing of the transaction remains.
     */
    method Run(names: seq<string>, direction: Direction, target: Option<nat>,
               fails: string -> bool) returns (r: Outcome<Report>)
      modifies this
      ensures r == Planned(names, direction, target, old(versionRow).GetOr(0), fails)
      ensures r.Done? ==> versionRow == Some(r.value.target) &&
                          applied == old(applied) + r.value.executed
      ensures r.Panic? ==> versionRow == Some(old(versionRow).GetOr(0)) && applied == old(applied)
    {
      var currentVersion: nat;
      if versionRow.Some? {
        currentVersion := versionRow.value;
      } else {
        versionRow := Some(0);
        currentVersion := 0;
      }

      var collected := CollectMigrations(names, direction);
      if collected.Panic? {
        return Panic(collected.message);
      }
      var migrations := SortById(collected.value, direction);

      var targetVersion: nat;
      if target.Some? {
        targetVersion := target.value;
      } else {
        var t := DefaultTarget(migrations, direction);
        if t.Panic? {
          return Panic(t.message);
        }
        targetVersion := t.value;
      }

      // The transaction: scripts run inside it and only become visible on commit.
      var staged := RunScripts(migrations, direction, currentVersion, targetVersion, fails);
      if staged.Panic? {
        // The panic drops the transaction, which rolls it back.
        return Panic(staged.message);
      }

      versionRow := Some(targetVersion);
      applied := applied + Names(staged.value);
      r := Done(Report(targetVersion, Names(staged.value)));
    }
  }

  /**
   * Two invocations in a row with the default target: once the first has
   * succeeded, the second executes nothing and leaves the database as the
   * first left it.
   */
  method RunTwice(db: Migrator, names: seq<string>, direction: Direction, fails: string -> bool)
    returns (first: Outcome<Report>, second: Outcome<Report>)
    modifies db
    ensures first.Done? ==> second == Done(Report(first.value.target, []))
    ensures first.Done? ==> db.versionRow == Some(first.value.target) &&
                            db.applied == old(db.applied) + first.value.executed
  {
    first := db.Run(names, direction, None, fails);
    if first.Done? {
      RerunExecutesNothing(names, direction, old(db.versionRow).GetOr(0), fails);
    }
    second := db.Run(names, direction, None, fails);
  }

  /**
   * The transaction loop of `main`: every script outside the window between
   * the stored version and the target is skipped, the others are executed in
   * order, and the first failing one aborts the loop.
   */
  method RunScripts(migrations: seq<Migration>, direction: Direction, currentVersion: nat,
                    targetVersion: nat, fails: string -> bool)
    returns (r: Outcome<seq<Migration>>)
    ensures var pending := Pending(migrations, direction, currentVersion, targetVersion);
            r == if AnyFails(pending, fails) then Panic("migration script failed") else Done(pending)
  {
    var staged: seq<Migration> := [];
    for i := 0 to |migrations|
      invariant staged == Pending(migrations[..i], direction, currentVersion, targetVersion)
      invariant !AnyFails(staged, fails)
    {
      PendingStep(migrations, direction, currentVersion, targetVersion, i);
      var migration := migrations[i];
      if direction == Up && migration.id <= currentVersion { continue; }
      if direction == Up && migration.id > targetVersion { continue; }
      if direction == Down && migration.id > currentVersion { continue; }
      if direction == Down && migration.id <= targetVersion { continue; }
      if fails(migration.name) {
        assert migrations[..|migrations|] == migrations;
        PendingPrefixFails(migrations, direction, currentVersion, targetVersion, i + 1, fails);
        return Panic("migration script failed");
      }
      NoFailAppend(staged, migration, fails);
      staged := staged + [migration];
    }
    assert migrations[..|migrations|] == migrations;
    r := Done(staged);
  }

  /** A failing script in the window fails the whole run. */
  lemma PendingPrefixFails(ms: seq<Migration>, direction: Direction, current: nat,
                           target: nat, i: nat, fails: string -> bool)
    requires i <= |ms| && i > 0
    requires InWindow(direction, current, target, ms[i - 1].id) && fails(ms[i - 1].name)
    ensures AnyFails(Pending(ms, direction, current, target), fails)
  {
    assert ms[i - 1] in ms;
    var p := Pending(ms, direction, current, target);
    var k :| 0 <= k < |p| && p[k] == ms[i - 1];
  }

  /** Extending the scanned prefix by one script extends the pending list by it when it is in the window. */
  lemma PendingStep(ms: seq<Migration>, direction: Direction, current: nat, target: nat, i: nat)
    requires i < |ms|
    ensures Pending(ms[..i + 1], direction, current, target) ==
              Pending(ms[..i], direction, current, target) +
              (if InWindow(direction, current, target, ms[i].id) then [ms[i]] else [])
  {
    assert ms[..i + 1][..i] == ms[..i];
  }

  /** Staging more scripts that do not fail keeps the staged list failure-free. */
  lemma NoFailAppend(ms: seq<Migration>, m: Migration, fails: string -> bool)
    requires !AnyFails(ms, fails) && !fails(m.name)
    ensures !AnyFails(ms + [m], fails)
  {
  }
}
