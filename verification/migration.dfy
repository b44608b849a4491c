/**
 * The legacy time-format migration (`convertTimeFormat`): every slot key
 * and every `timeSlot` field written with a 24-hour range such as
 * `09:00-11:00` is rewritten to the 12-hour display form such as
 * `9:00 AM - 11:00 AM`. Each scope is rebuilt by visiting its slots in
 * enumeration order; when two old keys map to the same new key the later
 * one wins.
 */
module Migration {
  import opened Text
  import opened Timetable

  /** The seven 24-hour ranges, in the order the mapping table declares them. */
  const Legacy: seq<string> := [
    "09:00-11:00", "11:00-12:00", "12:00-13:00", "13:00-14:00",
    "14:00-15:00", "15:00-16:00", "16:00-17:00"]

  /** The 12-hour form of `Legacy[j]`. */
  const Display: seq<string> := [
    "9:00 AM - 11:00 AM", "11:00 AM - 12:00 PM", "12:00 PM - 1:00 PM", "1:00 PM - 2:00 PM",
    "2:00 PM - 3:00 PM", "3:00 PM - 4:00 PM", "4:00 PM - 5:00 PM"]

  /** The migration targets are exactly the time slots of the grid, in the same order. */
  lemma DisplayIsTimeSlots()
    ensures Display == TimeSlots
  {
  }

  // ---------------------------------------------------------------------
  // One key, one entry
  // ---------------------------------------------------------------------

  /**
   * `newKey` after the first `n` pairs of the mapping table were visited:
   * each pair whose 24-hour range occurs in the ORIGINAL key replaces the
   * first occurrence of that range in the original key, so the last
   * matching pair decides.
   */
  function KeyAfter(key: string, n: nat): (r: string)
    requires n <= |Legacy|
    ensures NoLegacy(key) ==> r == key
  {
    if n == 0 then key
    else if Contains(key, Legacy[n - 1]) then ReplaceFirst(key, Legacy[n - 1], Display[n - 1])
    else KeyAfter(key, n - 1)
  }

  /** `newKey`: a key without a 24-hour range is kept as it is. */
  function ConvertKey(key: string): (r: string)
    ensures NoLegacy(key) ==> r == key
  {
    KeyAfter(key, |Legacy|)
  }

  /** `newTimeSlot` after the first `n` pairs: a field equal to a 24-hour range takes its 12-hour form. */
  function TimeSlotAfter(timeSlot: string, n: nat): (r: string)
    requires n <= |Legacy|
    ensures forall j :: 0 <= j < n && timeSlot == Legacy[j] ==> r == Display[j]
    ensures (forall j :: 0 <= j < n ==> timeSlot != Legacy[j]) ==> r == timeSlot
  {
    if n == 0 then timeSlot
    else if timeSlot == Legacy[n - 1] then
      assert forall j :: 0 <= j < n && timeSlot == Legacy[j] ==> j == n - 1 by {
        forall j | 0 <= j < n && timeSlot == Legacy[j] ensures j == n - 1 {
          LegacyDistinct(j, n - 1);
        }
      }
      Display[n - 1]
    else TimeSlotAfter(timeSlot, n - 1)
  }

  /**
   * `newTimeSlot`: a field equal to a 24-hour range becomes its 12-hour
   * form; any other value is kept.
   */
  function ConvertTimeSlot(timeSlot: string): (r: string)
    ensures forall j :: 0 <= j < |Legacy| && timeSlot == Legacy[j] ==> r == Display[j]
    ensures timeSlot !in Legacy ==> r == timeSlot
  {
    TimeSlotAfter(timeSlot, |Legacy|)
  }

  /** `{...classData, timeSlot: newTimeSlot}`. */
  function ConvertEntry(e: ClassEntry): (r: ClassEntry)
    ensures r.(timeSlot := e.timeSlot) == e
    ensures e.timeSlot !in Legacy ==> r == e
    ensures e.timeSlot in Legacy ==> r.timeSlot in TimeSlots
  {
    DisplayIsTimeSlots();
    e.(timeSlot := ConvertTimeSlot(e.timeSlot))
  }

  /**
   * The body of the inner `forEach` over one slot: visits the seven
   * pairs of the mapping table in order.
   */
  method MigrateSlot(key: string, e: ClassEntry) returns (newKey: string, newEntry: ClassEntry)
    ensures newKey == ConvertKey(key)
    ensures newEntry == ConvertEntry(e)
  {
    newKey := key;
    var newTimeSlot := e.timeSlot;
    var i := 0;
    while i < |Legacy|
      invariant 0 <= i <= |Legacy|
      invariant newKey == KeyAfter(key, i)
      invariant newTimeSlot == TimeSlotAfter(e.timeSlot, i)
    {
      if Contains(key, Legacy[i]) {
        newKey := ReplaceFirst(key, Legacy[i], Display[i]);
      }
      if e.timeSlot == Legacy[i] {
        newTimeSlot := Display[i];
      }
      i := i + 1;
    }
    newEntry := e.(timeSlot := newTimeSlot);
  }

  // ---------------------------------------------------------------------
  // Facts about the two tables
  // ---------------------------------------------------------------------

  /** A `0` immediately followed by `-` at index `i`. */
  predicate ZeroDashAt(s: string, i: int)
  {
    0 <= i && i + 1 < |s| && s[i] == '0' && s[i + 1] == '-'
  }

  ghost predicate NoZeroDash(s: string)
  {
    forall i :: !ZeroDashAt(s, i)
  }

  /** At most one place in `s` where a `0` is immediately followed by `-`. */
  ghost predicate AtMostOneZeroDash(s: string)
  {
    forall i, j :: ZeroDashAt(s, i) && ZeroDashAt(s, j) ==> i == j
  }

  /** None of the seven 24-hour ranges occurs in `s`. */
  predicate NoLegacy(s: string)
  {
    forall j :: 0 <= j < |Legacy| ==> !Contains(s, Legacy[j])
  }

  /** Every 24-hour range has eleven characters and exactly one `0-`, at index 4. */
  lemma LegacyShape(j: nat)
    requires j < |Legacy|
    ensures |Legacy[j]| == 11 && ZeroDashAt(Legacy[j], 4)
    ensures forall i :: ZeroDashAt(Legacy[j], i) ==> i == 4
  {
  }

  /** No 12-hour form holds a `0-`, starts with `-` or ends with `0`. */
  lemma DisplayShape(j: nat)
    requires j < |Display|
    ensures |Display[j]| > 0 && Display[j][0] != '-' && Display[j][|Display[j]| - 1] != '0'
    ensures NoZeroDash(Display[j])
  {
  }

  lemma LegacyDistinct(m: nat, j: nat)
    requires m < |Legacy| && j < |Legacy| && Legacy[m] == Legacy[j]
    ensures m == j
  {
  }

  lemma DisplayIsNotLegacy(m: nat)
    requires m < |Display|
    ensures Display[m] !in Legacy
  {
  }

  /** Every occurrence of a 24-hour range brings its `0-` with it. */
  lemma OccurrenceHasZeroDash(s: string, j: nat, i: nat)
    requires j < |Legacy| && OccursAt(s, Legacy[j], i)
    ensures ZeroDashAt(s, i + 4)
  {
    LegacyShape(j);
    assert s[i + 4] == s[i..i + 11][4];
    assert s[i + 5] == s[i..i + 11][5];
  }

  lemma NoZeroDashNoLegacy(s: string)
    requires NoZeroDash(s)
    ensures NoLegacy(s)
  {
    forall j, i | 0 <= j < |Legacy| && OccursAt(s, Legacy[j], i)
      ensures false
    {
      OccurrenceHasZeroDash(s, j, i);
    }
  }

  // ---------------------------------------------------------------------
  // What the migration does to one key and one field
  // ---------------------------------------------------------------------

  lemma {:induction false} KeyAfterOnlyMatch(key: string, j: nat, n: nat)
    requires j < n <= |Legacy|
    requires Contains(key, Legacy[j])
    requires forall m :: 0 <= m < |Legacy| && m != j ==> !Contains(key, Legacy[m])
    ensures KeyAfter(key, n) == ReplaceFirst(key, Legacy[j], Display[j])
  {
    if n - 1 != j {
      KeyAfterOnlyMatch(key, j, n - 1);
    }
  }

  /**
   * A key in which `Legacy[j]` first occurs at index `i` and no other
   * 24-hour range occurs has that occurrence replaced by its 12-hour form.
   */
  lemma ConvertKeyRewrites(key: string, j: nat, i: nat)
    requires j < |Legacy| && OccursAt(key, Legacy[j], i)
    requires forall i' :: 0 <= i' < i ==> !OccursAt(key, Legacy[j], i')
    requires forall m :: 0 <= m < |Legacy| && m != j ==> !Contains(key, Legacy[m])
    ensures ConvertKey(key) == key[..i] + Display[j] + key[i + |Legacy[j]|..]
  {
    assert Contains(key, Legacy[j]);
    KeyAfterOnlyMatch(key, j, |Legacy|);
  }

  /**
   * In a key with at most one `0-`, a 24-hour range occurs at one place
   * only, and no other range occurs.
   */
  lemma SingleZeroDashSingleRange(key: string, j: nat, i: nat)
    requires AtMostOneZeroDash(key)
    requires j < |Legacy| && OccursAt(key, Legacy[j], i)
    ensures forall i' :: 0 <= i' < i ==> !OccursAt(key, Legacy[j], i')
    ensures forall m :: 0 <= m < |Legacy| && m != j ==> !Contains(key, Legacy[m])
  {
    OccurrenceHasZeroDash(key, j, i);
    forall m, i' | 0 <= m < |Legacy| && OccursAt(key, Legacy[m], i')
      ensures i' == i && m == j
    {
      OccurrenceHasZeroDash(key, m, i');
      LegacyShape(m);
      LegacyShape(j);
      LegacyDistinct(m, j);
    }
  }

  /** Splicing a 12-hour form in for the only `0-` leaves no `0-` at all. */
  lemma SpliceHasNoZeroDash(key: string, j: nat, i: nat)
    requires AtMostOneZeroDash(key)
    requires j < |Legacy| && OccursAt(key, Legacy[j], i)
    ensures NoZeroDash(key[..i] + Display[j] + key[i + |Legacy[j]|..])
  {
    LegacyShape(j);
    DisplayShape(j);
    OccurrenceHasZeroDash(key, j, i);
    var p, d, q := key[..i], Display[j], key[i + 11..];
    var r := p + d + q;
    forall x | 0 <= x && x + 1 < |r|
      ensures !ZeroDashAt(r, x)
    {
      if x + 1 < |p| {
        assert r[x] == key[x] && r[x + 1] == key[x + 1];
        assert !ZeroDashAt(key, x);
      } else if x + 1 == |p| {
        assert r[x + 1] == d[0];
      } else if x + 1 < |p| + |d| {
        assert r[x] == d[x - |p|] && r[x + 1] == d[x - |p| + 1];
        assert !ZeroDashAt(d, x - |p|);
      } else if x + 1 == |p| + |d| {
        assert r[x] == d[|d| - 1];
      } else {
        assert r[x] == key[x - |d| + 11] && r[x + 1] == key[x - |d| + 12];
        assert !ZeroDashAt(key, x - |d| + 11);
      }
    }
  }

  /**
   * Migrating a key twice is migrating it once, for every key with at most
   * one `0-` (which includes every key with at most one 24-hour range in
   * `day-slot` form).
   */
  lemma ConvertKeyIdempotent(key: string)
    requires AtMostOneZeroDash(key)
    ensures ConvertKey(ConvertKey(key)) == ConvertKey(key)
  {
    if !NoLegacy(key) {
      var j :| 0 <= j < |Legacy| && Contains(key, Legacy[j]);
      var i :| 0 <= i <= |key| - |Legacy[j]| && OccursAt(key, Legacy[j], i);
      SingleZeroDashSingleRange(key, j, i);
      ConvertKeyRewrites(key, j, i);
      SpliceHasNoZeroDash(key, j, i);
      NoZeroDashNoLegacy(ConvertKey(key));
    }
  }

  /** Migrating an entry twice is migrating it once. */
  lemma ConvertEntryIdempotent(e: ClassEntry)
    ensures ConvertEntry(ConvertEntry(e)) == ConvertEntry(e)
  {
    if e.timeSlot in Legacy {
      var j :| 0 <= j < |Legacy| && e.timeSlot == Legacy[j];
      DisplayIsNotLegacy(j);
    }
  }

  /** The `0-` pairs of `day-timeSlot` are those of the time slot, when the day has no digit. */
  lemma SlotKeyZeroDash(day: string, timeSlot: string, x: int)
    requires NoDigit(day)
    ensures ZeroDashAt(SlotKey(day, timeSlot), x) <==>
            x >= |day| + 1 && ZeroDashAt(timeSlot, x - |day| - 1)
  {
    var key := SlotKey(day, timeSlot);
    if 0 <= x < |day| {
      assert key[x] == day[x];
      assert !IsDigit(day[x]);
    } else if x >= |day| + 1 && x + 1 < |key| {
      assert key[x] == timeSlot[x - |day| - 1];
      assert key[x + 1] == timeSlot[x - |day|];
    }
  }

  /**
   * Migration commutes with building a slot key: the key of a day without
   * digits and a time slot in either format is migrated to the key built
   * from the migrated time slot, so key and `timeSlot` field stay in step.
   */
  lemma ConvertSlotKey(day: string, timeSlot: string)
    requires NoDigit(day)
    requires timeSlot in Legacy || timeSlot in TimeSlots
    ensures AtMostOneZeroDash(SlotKey(day, timeSlot))
    ensures ConvertKey(SlotKey(day, timeSlot)) == SlotKey(day, ConvertTimeSlot(timeSlot))
  {
    var key := SlotKey(day, timeSlot);
    forall x | true
      ensures ZeroDashAt(key, x) <==> x >= |day| + 1 && ZeroDashAt(timeSlot, x - |day| - 1)
    {
      SlotKeyZeroDash(day, timeSlot, x);
    }
    if timeSlot in Legacy {
      var j :| 0 <= j < |Legacy| && timeSlot == Legacy[j];
      LegacyShape(j);
      assert key[|day| + 1..] == timeSlot;
      SingleZeroDashSingleRange(key, j, |day| + 1);
      ConvertKeyRewrites(key, j, |day| + 1);
      assert key[..|day| + 1] == day + "-";
    } else {
      var m :| 0 <= m < |TimeSlots| && timeSlot == TimeSlots[m];
      DisplayIsTimeSlots();
      DisplayShape(m);
      DisplayIsNotLegacy(m);
      NoZeroDashNoLegacy(key);
    }
  }

  /** The old-format key and the new-format key of one slot collapse into one. */
  lemma LegacyAndDisplayKeysCollide(day: string, j: nat)
    requires NoDigit(day) && j < |Legacy|
    ensures ConvertKey(SlotKey(day, Legacy[j])) == ConvertKey(SlotKey(day, Display[j]))
            == SlotKey(day, Display[j])
  {
    DisplayIsTimeSlots();
    ConvertSlotKey(day, Legacy[j]);
    ConvertSlotKey(day, Display[j]);
    DisplayIsNotLegacy(j);
  }

  // ---------------------------------------------------------------------
  // One scope: the slots folded left into a fresh map
  // ---------------------------------------------------------------------

  /** `newStreamData` after the given slots were visited in order; a later key overwrites an earlier one. */
  function MigratePairs(pairs: seq<(string, ClassEntry)>): (r: Scope)
    ensures r.Keys == NewKeys(pairs)
    ensures |r| <= |pairs|
  {
    if pairs == [] then map[]
    else
      var init, last := pairs[..|pairs| - 1], pairs[|pairs| - 1];
      assert pairs == init + [last];
      NewKeysStep(init, last);
      MigratePairs(init)[ConvertKey(last.0) := ConvertEntry(last.1)]
  }

  /** The migrated keys of a list of slots. */
  ghost function NewKeys(pairs: seq<(string, ClassEntry)>): set<string>
  {
    set i | 0 <= i < |pairs| :: ConvertKey(pairs[i].0)
  }

  /** Visiting one more slot adds its migrated key. */
  lemma NewKeysStep(init: seq<(string, ClassEntry)>, last: (string, ClassEntry))
    ensures NewKeys(init + [last]) == NewKeys(init) + {ConvertKey(last.0)}
  {
    var pairs := init + [last];
    assert forall i :: 0 <= i < |init| ==> pairs[i] == init[i];
    assert pairs[|init|] == last;
  }

  /** The entry under a new key comes from the LAST slot that migrates to that key. */
  lemma {:induction false} MigratePairsLastWins(pairs: seq<(string, ClassEntry)>, i: nat)
    requires i < |pairs|
    requires forall j :: i < j < |pairs| ==> ConvertKey(pairs[j].0) != ConvertKey(pairs[i].0)
    ensures ConvertKey(pairs[i].0) in MigratePairs(pairs)
    ensures MigratePairs(pairs)[ConvertKey(pairs[i].0)] == ConvertEntry(pairs[i].1)
  {
    if i < |pairs| - 1 {
      var init := pairs[..|pairs| - 1];
      assert forall j :: 0 <= j < |init| ==> init[j] == pairs[j];
      MigratePairsLastWins(init, i);
    }
  }

  // ---------------------------------------------------------------------
  // Scopes and the whole data map
  // ---------------------------------------------------------------------

  /** `pairs` lists every slot of `scope` exactly once, in some order. */
  ghost predicate EnumerationOf(pairs: seq<(string, ClassEntry)>, scope: Scope)
  {
    && |pairs| == |scope|
    && (forall i :: 0 <= i < |pairs| ==> pairs[i].0 in scope && scope[pairs[i].0] == pairs[i].1)
    && (forall i, j :: 0 <= i < j < |pairs| ==> pairs[i].0 != pairs[j].0)
    && (forall k :: k in scope ==> exists i :: 0 <= i < |pairs| && pairs[i].0 == k)
  }

  /** `r` is what rebuilding `scope` gives for some enumeration order of its slots. */
  ghost predicate MigrationOf(r: Scope, scope: Scope)
  {
    exists pairs :: EnumerationOf(pairs, scope) && r == MigratePairs(pairs)
  }

  /** `after` is `before` with every scope rebuilt: same scope keys, each scope migrated. */
  ghost predicate DataMigrationOf(after: Data, before: Data)
  {
    && after.Keys == before.Keys
    && forall sk :: sk in after ==> MigrationOf(after[sk], before[sk])
  }

  /** Part way through: the scopes in `remaining` are still as they were, the others are rebuilt. */
  ghost predicate MigratedExcept(after: Data, before: Data, remaining: set<string>)
  {
    && after.Keys == before.Keys
    && remaining <= after.Keys
    && (forall sk :: sk in remaining ==> after[sk] == before[sk])
    && (forall sk :: sk in after && sk !in remaining ==> MigrationOf(after[sk], before[sk]))
  }

  /** Before any scope is rebuilt, every scope remains. */
  lemma MigratedNone(data: Data)
    ensures MigratedExcept(data, data, data.Keys)
  {
  }

  /** Rebuilding one more remaining scope keeps the data part way through. */
  lemma MigrateOneScope(after: Data, before: Data, remaining: set<string>, sk: string, r: Scope)
    requires MigratedExcept(after, before, remaining)
    requires sk in remaining && MigrationOf(r, after[sk])
    ensures MigratedExcept(after[sk := r], before, remaining - {sk})
  {
    var next := after[sk := r];
    assert next.Keys == after.Keys;
    forall s | s in next && s !in remaining - {sk}
      ensures MigrationOf(next[s], before[s])
    {
      if s == sk {
        assert next[s] == r && before[s] == after[sk];
      } else {
        assert next[s] == after[s];
      }
    }
  }

  /** Once no scope remains, the whole data map is migrated. */
  lemma MigratedAll(after: Data, before: Data)
    requires MigratedExcept(after, before, {})
    ensures DataMigrationOf(after, before)
  {
  }

  /** Migrating the keys of an enumeration gives the same keys as migrating the keys of the scope. */
  lemma EnumerationImage(pairs: seq<(string, ClassEntry)>, scope: Scope)
    requires EnumerationOf(pairs, scope)
    ensures (set i | 0 <= i < |pairs| :: ConvertKey(pairs[i].0)) == set k | k in scope :: ConvertKey(k)
  {
    var fromPairs := set i | 0 <= i < |pairs| :: ConvertKey(pairs[i].0);
    var fromScope := set k | k in scope :: ConvertKey(k);
    forall nk | nk in fromScope
      ensures nk in fromPairs
    {
      var k :| k in scope && ConvertKey(k) == nk;
      var i :| 0 <= i < |pairs| && pairs[i].0 == k;
    }
    forall nk | nk in fromPairs
      ensures nk in fromScope
    {
      var i :| 0 <= i < |pairs| && ConvertKey(pairs[i].0) == nk;
      assert pairs[i].0 in scope;
    }
  }

  /**
   * Rebuilding a scope keeps one key per distinct migrated key and never
   * increases the number of entries.
   */
  lemma MigrationKeys(r: Scope, scope: Scope)
    requires MigrationOf(r, scope)
    ensures r.Keys == set k | k in scope :: ConvertKey(k)
    ensures |r| <= |scope|
  {
    var pairs: seq<(string, ClassEntry)> :| EnumerationOf(pairs, scope) && r == MigratePairs(pairs);
    EnumerationImage(pairs, scope);
  }

  /**
   * When no two slots of a scope migrate to the same key, the order does
   * not matter: each migrated key holds the migrated entry of its slot.
   */
  lemma MigrationExact(r: Scope, scope: Scope)
    requires MigrationOf(r, scope)
    requires forall k1, k2 :: k1 in scope && k2 in scope && ConvertKey(k1) == ConvertKey(k2) ==> k1 == k2
    ensures forall k :: k in scope ==> ConvertKey(k) in r && r[ConvertKey(k)] == ConvertEntry(scope[k])
  {
    var pairs: seq<(string, ClassEntry)> :| EnumerationOf(pairs, scope) && r == MigratePairs(pairs);
    forall k | k in scope
      ensures ConvertKey(k) in r && r[ConvertKey(k)] == ConvertEntry(scope[k])
    {
      var i :| 0 <= i < |pairs| && pairs[i].0 == k;
      MigratePairsLastWins(pairs, i);
    }
  }

  /** A scope whose keys are all in the new format is rebuilt with the same keys. */
  lemma MigrationKeysFixed(r: Scope, scope: Scope)
    requires MigrationOf(r, scope)
    requires forall k :: k in scope ==> ConvertKey(k) == k
    ensures r.Keys == scope.Keys
  {
    MigrationKeys(r, scope);
    forall k | k in r
      ensures k in scope
    {
      var k' :| k' in scope && ConvertKey(k') == k;
    }
  }

  /** A scope whose keys and entries are all in the new format is rebuilt unchanged. */
  lemma MigrationOfMigrated(r: Scope, scope: Scope)
    requires MigrationOf(r, scope)
    requires forall k :: k in scope ==> ConvertKey(k) == k && ConvertEntry(scope[k]) == scope[k]
    ensures r == scope
  {
    MigrationKeysFixed(r, scope);
    MigrationExact(r, scope);
    forall k | k in scope
      ensures r[k] == scope[k]
    {
      assert ConvertKey(k) == k;
    }
  }

  /**
   * Running the migration on its own output changes nothing, for scopes
   * whose keys each hold at most one `0-`.
   */
  lemma MigrationIdempotent(r1: Scope, r2: Scope, scope: Scope)
    requires forall k :: k in scope ==> AtMostOneZeroDash(k)
    requires MigrationOf(r1, scope) && MigrationOf(r2, r1)
    ensures r2 == r1
  {
    MigrationKeys(r1, scope);
    var pairs: seq<(string, ClassEntry)> :| EnumerationOf(pairs, scope) && r1 == MigratePairs(pairs);
    forall nk | nk in r1
      ensures ConvertKey(nk) == nk && ConvertEntry(r1[nk]) == r1[nk]
    {
      var k :| k in scope && ConvertKey(k) == nk;
      var i :| 0 <= i < |pairs| && pairs[i].0 == k;
      MigratedSlotFixed(pairs, i);
    }
    MigrationOfMigrated(r2, r1);
  }

  /** The slot a visited key migrates to holds a key and an entry that migrate to themselves. */
  lemma MigratedSlotFixed(pairs: seq<(string, ClassEntry)>, i: nat)
    requires i < |pairs| && AtMostOneZeroDash(pairs[i].0)
    ensures var nk := ConvertKey(pairs[i].0);
      nk in MigratePairs(pairs) && ConvertKey(nk) == nk && ConvertEntry(MigratePairs(pairs)[nk]) == MigratePairs(pairs)[nk]
  {
    var nk := ConvertKey(pairs[i].0);
    ConvertKeyIdempotent(pairs[i].0);
    LastIndexExists(pairs, i, nk);
    var last :| 0 <= last < |pairs| && ConvertKey(pairs[last].0) == nk &&
      (forall j :: last < j < |pairs| ==> ConvertKey(pairs[j].0) != nk);
    MigratePairsLastWins(pairs, last);
    var e := pairs[last].1;
    ConvertEntryIdempotent(e);
    var r := MigratePairs(pairs);
    assert nk in r && r[nk] == ConvertEntry(e);
  }

  lemma {:induction false} LastIndexExists(pairs: seq<(string, ClassEntry)>, i: nat, nk: string)
    requires i < |pairs| && ConvertKey(pairs[i].0) == nk
    ensures exists last :: (0 <= last < |pairs| && ConvertKey(pairs[last].0) == nk &&
                            forall j :: last < j < |pairs| ==> ConvertKey(pairs[j].0) != nk)
    decreases |pairs| - i
  {
    if exists j :: i < j < |pairs| && ConvertKey(pairs[j].0) == nk {
      var j :| i < j < |pairs| && ConvertKey(pairs[j].0) == nk;
      LastIndexExists(pairs, j, nk);
    } else {
      assert ConvertKey(pairs[i].0) == nk &&
        (forall j :: i < j < |pairs| ==> ConvertKey(pairs[j].0) != nk);
    }
  }

  /** Applying the whole-data migration twice gives the result of applying it once. */
  lemma DataMigrationIdempotent(once: Data, twice: Data, data: Data)
    requires forall sk, k :: sk in data && k in data[sk] ==> AtMostOneZeroDash(k)
    requires DataMigrationOf(once, data) && DataMigrationOf(twice, once)
    ensures twice == once
  {
    forall sk | sk in once
      ensures twice[sk] == once[sk]
    {
      MigrationIdempotent(once[sk], twice[sk], data[sk]);
    }
  }

  /**
   * Loop state of the rebuild: `pairs` lists the visited slots of `scope`
   * once each, and `remaining` holds exactly the slots not yet visited.
   */
  ghost predicate VisitedSoFar(pairs: seq<(string, ClassEntry)>, scope: Scope, remaining: set<string>)
  {
    && remaining <= scope.Keys
    && |pairs| + |remaining| == |scope|
    && (forall i :: 0 <= i < |pairs| ==>
          pairs[i].0 in scope && pairs[i].0 !in remaining && scope[pairs[i].0] == pairs[i].1)
    && (forall i, j :: 0 <= i < j < |pairs| ==> pairs[i].0 != pairs[j].0)
    && (forall k :: k in scope ==> k in remaining || exists i :: 0 <= i < |pairs| && pairs[i].0 == k)
  }

  /** Visiting one more remaining slot keeps the loop state. */
  lemma VisitOne(pairs: seq<(string, ClassEntry)>, scope: Scope, remaining: set<string>, key: string)
    requires VisitedSoFar(pairs, scope, remaining) && key in remaining
    ensures VisitedSoFar(pairs + [(key, scope[key])], scope, remaining - {key})
  {
    var next := pairs + [(key, scope[key])];
    assert forall i :: 0 <= i < |pairs| ==> next[i] == pairs[i];
    assert next[|pairs|].0 == key;
    forall k | k in scope && k !in remaining - {key}
      ensures exists i :: 0 <= i < |next| && next[i].0 == k
    {
      if k == key {
        assert next[|pairs|].0 == k;
      } else {
        var i :| 0 <= i < |pairs| && pairs[i].0 == k;
        assert next[i].0 == k;
      }
    }
  }

  /** Once nothing remains, the visited slots enumerate the scope. */
  lemma VisitedAll(pairs: seq<(string, ClassEntry)>, scope: Scope)
    requires VisitedSoFar(pairs, scope, {})
    ensures EnumerationOf(pairs, scope)
  {
  }

  /**
   * The rebuild of one scope (`newStreamData`): visits the slots in some
   * order and stores each migrated entry under its migrated key.
   */
  method MigrateScope(scope: Scope) returns (r: Scope, ghost pairs: seq<(string, ClassEntry)>)
    ensures EnumerationOf(pairs, scope) && r == MigratePairs(pairs)
    ensures MigrationOf(r, scope)
  {
    r := map[];
    pairs := [];
    var remaining := scope.Keys;
    while remaining != {}
      invariant VisitedSoFar(pairs, scope, remaining)
      invariant r == MigratePairs(pairs)
      decreases |remaining|
    {
      var key :| key in remaining;
      var newKey, newEntry := MigrateSlot(key, scope[key]);
      r := r[newKey := newEntry];
      VisitOne(pairs, scope, remaining, key);
      ghost var visited := pairs;
      pairs := pairs + [(key, scope[key])];
      assert pairs[..|pairs| - 1] == visited;
      assert r == MigratePairs(pairs);
      remaining := remaining - {key};
    }
    VisitedAll(pairs, scope);
  }

  /**
   * The loop of `convertTimeFormat` over the scopes: each scope, visited
   * in some order, is replaced by its rebuild.
   */
  method MigrateData(data: Data) returns (r: Data)
    ensures DataMigrationOf(r, data)
  {
    r := data;
    var remaining := data.Keys;
    MigratedNone(data);
    while remaining != {}
      invariant MigratedExcept(r, data, remaining)
      decreases |remaining|
    {
      var streamKey :| streamKey in remaining;
      assert streamKey in r;
      var newStreamData, _ := MigrateScope(r[streamKey]);
      MigrateOneScope(r, data, remaining, streamKey, newStreamData);
      r := r[streamKey := newStreamData];
      remaining := remaining - {streamKey};
    }
    MigratedAll(r, data);
  }
}
