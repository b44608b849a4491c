/**
 * The data model of the timetable manager: class entries, the two-level
 * map of scopes (one per stream, or per stream and semester) to slots
 * (one per day and time slot), the fixed reference tables, the key
 * formats and the input validation that guards every insertion.
 */
module Timetable {
  import opened Text

  /** One scheduled session; every field is free text taken from the form. */
  datatype ClassEntry = ClassEntry(
    subjectName: string,
    facultyName: string,
    classType: string,
    room: string,
    day: string,
    timeSlot: string)

  /** Slot key (`day-timeSlot`) to the entry stored there. */
  type Scope = map<string, ClassEntry>

  /** Scope key (`stream` or `stream_semester`) to its scope. */
  type Data = map<string, Scope>

  /** Static reference data about one academic programme. */
  datatype StreamInfo = StreamInfo(
    name: string,
    duration: string,
    totalSemesters: nat,
    description: string)

  const TimeSlots: seq<string> := [
    "9:00 AM - 11:00 AM", "11:00 AM - 12:00 PM", "12:00 PM - 1:00 PM", "1:00 PM - 2:00 PM",
    "2:00 PM - 3:00 PM", "3:00 PM - 4:00 PM", "4:00 PM - 5:00 PM"]

  const Days: seq<string> := ["Monday", "Tuesday", "Wednesday", "Thursday", "Friday", "Saturday"]

  /** Faculty allowed in the restricted AI/ML semesters, with the subject each teaches. */
  const AiMlFaculty: map<string, string> := map[
    "Dr. Suchit Purohit" := "Python Programming",
    "Ms. Anju Jha" := "Artificial Intelligence",
    "Mr. Vishal Prajapati" := "Mathematical Foundation",
    "Dr. Jigna Satani" := "Object Oriented Programming",
    "Ms.Arpana Sonawane" := "Linear Algebra & Numerical Methods"]

  const Streams: map<string, StreamInfo> := map[
    "MCA" := StreamInfo("Master of Computer Applications", "2 Years", 4,
                        "Advanced computer science and applications program"),
    "MSC_AI_ML" := StreamInfo("MSc Artificial Intelligence & Machine Learning", "2 Years", 4,
                              "Specialized program in AI and ML technologies"),
    "PGDCSA" := StreamInfo("Post Graduate Diploma in Computer Science & Applications", "5 Years", 10,
                           "Intensive computer science diploma program"),
    "INTEGRATED_CS" := StreamInfo("Integrated Computer Science", "5 Years", 10,
                                  "Comprehensive integrated computer science program")]

  // ---------------------------------------------------------------------
  // Keys
  // ---------------------------------------------------------------------

  /**
   * The scope of a selection: the stream id, followed by `_` and the
   * semester when a semester is selected.
   */
  function ScopeKey(stream: string, semester: string): (key: string)
    ensures |key| >= |stream| && key[..|stream|] == stream
    ensures semester == "" ==> key == stream
    ensures semester != "" ==> |key| == |stream| + 1 + |semester| && key[|stream|] == '_'
                               && key[|stream| + 1..] == semester
  {
    if semester != "" then stream + "_" + semester else stream
  }

  /** The key of a slot inside a scope: the day, a dash, then the time slot. */
  function SlotKey(day: string, timeSlot: string): (key: string)
    ensures |key| == |day| + 1 + |timeSlot|
    ensures key[..|day|] == day && key[|day|] == '-' && key[|day| + 1..] == timeSlot
  {
    day + "-" + timeSlot
  }

  /** `timetableData[key] || {}`: a missing scope reads as the empty scope. */
  function LookupScope(data: Data, key: string): (scope: Scope)
    ensures forall k :: k in scope <==> key in data && k in data[key]
    ensures forall k :: k in scope ==> scope[k] == data[key][k]
  {
    if key in data then data[key] else map[]
  }

  predicate NoDigit(s: string)
  {
    forall i :: 0 <= i < |s| ==> !IsDigit(s[i])
  }

  predicate NoDash(s: string)
  {
    forall i :: 0 <= i < |s| ==> s[i] != '-'
  }

  /** A semester value as the semester selector produces it: empty or a decimal number. */
  predicate SemesterValue(s: string)
  {
    s == "" || IsDigits(s)
  }

  /** Number of decimal digits at the end of `s`. */
  function DigitSuffixLength(s: string): nat
  {
    if s != [] && IsDigit(s[|s| - 1]) then 1 + DigitSuffixLength(s[..|s| - 1]) else 0
  }

  lemma {:induction false} DigitSuffixOf(p: string, n: string)
    requires p != [] && !IsDigit(p[|p| - 1])
    requires forall i :: 0 <= i < |n| ==> IsDigit(n[i])
    ensures DigitSuffixLength(p + n) == |n|
    decreases |n|
  {
    if n != [] {
      assert (p + n)[..|p + n| - 1] == p + n[..|n| - 1];
      DigitSuffixOf(p, n[..|n| - 1]);
    }
  }

  /** The semester is the digit suffix of its scope key. */
  lemma SemesterLength(stream: string, semester: string)
    requires NoDigit(stream) && SemesterValue(semester)
    ensures DigitSuffixLength(ScopeKey(stream, semester)) == |semester|
  {
    if semester != "" {
      DigitSuffixOf(stream + "_", semester);
      assert stream + "_" + semester == (stream + "_") + semester;
    }
  }

  /**
   * Two selections share a scope only if they are the same selection,
   * provided stream ids hold no digit and semesters are decimal numbers.
   */
  lemma ScopeKeyInjective(s1: string, n1: string, s2: string, n2: string)
    requires NoDigit(s1) && NoDigit(s2)
    requires SemesterValue(n1) && SemesterValue(n2)
    requires ScopeKey(s1, n1) == ScopeKey(s2, n2)
    ensures s1 == s2 && n1 == n2
  {
    var k := ScopeKey(s1, n1);
    SemesterLength(s1, n1);
    SemesterLength(s2, n2);
    if n1 != "" {
      assert s1 == k[..|k| - |n1| - 1] == s2;
      assert n1 == k[|k| - |n1|..] == n2;
    }
  }

  /** In `day-timeSlot`, the first dash ends the day when the day has none. */
  lemma FirstDashEndsDay(day: string, timeSlot: string)
    requires NoDash(day)
    ensures IndexOf(SlotKey(day, timeSlot), "-") == Some(|day|)
  {
    var k := SlotKey(day, timeSlot);
    assert OccursAt(k, "-", |day|);
    forall j | 0 <= j < |day|
      ensures !OccursAt(k, "-", j)
    {
      assert k[j] == day[j];
    }
  }

  /** Slot keys identify the day and time slot, for day names without a dash. */
  lemma SlotKeyInjective(d1: string, t1: string, d2: string, t2: string)
    requires NoDash(d1) && NoDash(d2)
    requires SlotKey(d1, t1) == SlotKey(d2, t2)
    ensures d1 == d2 && t1 == t2
  {
    var k := SlotKey(d1, t1);
    FirstDashEndsDay(d1, t1);
    FirstDashEndsDay(d2, t2);
    assert d1 == k[..|d1|] == d2;
    assert t1 == k[|d1| + 1..] == t2;
  }

  /** The reference tables satisfy the hypotheses of the two key lemmas. */
  lemma ReferenceKeysAreUnambiguous()
    ensures forall d :: d in Days ==> NoDash(d)
    ensures forall s :: s in Streams ==> NoDigit(s)
  {
  }

  // ---------------------------------------------------------------------
  // Writes
  // ---------------------------------------------------------------------

  /**
   * `timetableData[scopeKey][day-timeSlot] = e`, creating the scope first
   * when it is absent. A lookup at that scope and slot returns exactly
   * `e`; every other slot and every other scope is as it was.
   */
  function Store(data: Data, scopeKey: string, e: ClassEntry): (r: Data)
    ensures r.Keys == data.Keys + {scopeKey}
    ensures SlotKey(e.day, e.timeSlot) in r[scopeKey] && r[scopeKey][SlotKey(e.day, e.timeSlot)] == e
    ensures r[scopeKey].Keys == LookupScope(data, scopeKey).Keys + {SlotKey(e.day, e.timeSlot)}
    ensures forall k :: k in LookupScope(data, scopeKey) && k != SlotKey(e.day, e.timeSlot) ==>
      r[scopeKey][k] == data[scopeKey][k]
    ensures forall sk :: sk in data && sk != scopeKey ==> r[sk] == data[sk]
  {
    data[scopeKey := LookupScope(data, scopeKey)[SlotKey(e.day, e.timeSlot) := e]]
  }

  /**
   * `delete timetableData[scopeKey][key]` on an existing scope: only that
   * slot goes; removing an absent slot changes nothing.
   */
  function Remove(data: Data, scopeKey: string, key: string): (r: Data)
    requires scopeKey in data
    ensures r.Keys == data.Keys
    ensures r[scopeKey].Keys == data[scopeKey].Keys - {key}
    ensures forall k :: k in r[scopeKey] ==> r[scopeKey][k] == data[scopeKey][k]
    ensures forall sk :: sk in data && sk != scopeKey ==> r[sk] == data[sk]
    ensures key !in data[scopeKey] ==> r == data
  {
    assert key !in data[scopeKey] ==> data[scopeKey] - {key} == data[scopeKey];
    data[scopeKey := data[scopeKey] - {key}]
  }

  /** Deleting a slot just saved into a free place of an existing scope gives back the data. */
  lemma RemoveUndoesStore(data: Data, scopeKey: string, e: ClassEntry)
    requires scopeKey in data && SlotKey(e.day, e.timeSlot) !in data[scopeKey]
    ensures Remove(Store(data, scopeKey, e), scopeKey, SlotKey(e.day, e.timeSlot)) == data
  {
    var key := SlotKey(e.day, e.timeSlot);
    var r := Remove(Store(data, scopeKey, e), scopeKey, key);
    assert r[scopeKey] == data[scopeKey];
  }

  /** Every entry sits under the slot key built from its own day and time slot. */
  ghost predicate WellKeyed(data: Data)
  {
    forall sk, k :: sk in data && k in data[sk] ==> k == SlotKey(data[sk][k].day, data[sk][k].timeSlot)
  }

  /** Storing and removing keep every entry under its own slot key. */
  lemma WritesKeepWellKeyed(data: Data, scopeKey: string, e: ClassEntry, key: string)
    requires WellKeyed(data)
    ensures WellKeyed(Store(data, scopeKey, e))
    ensures scopeKey in data ==> WellKeyed(Remove(data, scopeKey, key))
    ensures WellKeyed(data[scopeKey := map[]])
  {
    StoreKeepsWellKeyed(data, scopeKey, e);
    if scopeKey in data {
      RemoveKeepsWellKeyed(data, scopeKey, key);
    }
    ClearKeepsWellKeyed(data, scopeKey);
  }

  lemma ClearKeepsWellKeyed(data: Data, scopeKey: string)
    requires WellKeyed(data)
    ensures WellKeyed(data[scopeKey := map[]])
  {
    var r: Data := data[scopeKey := map[]];
    forall sk, k | sk in r && k in r[sk]
      ensures k == SlotKey(r[sk][k].day, r[sk][k].timeSlot)
    {
      assert sk != scopeKey && k in data[sk];
    }
  }

  lemma StoreKeepsWellKeyed(data: Data, scopeKey: string, e: ClassEntry)
    requires WellKeyed(data)
    ensures WellKeyed(Store(data, scopeKey, e))
  {
    var r: Data := Store(data, scopeKey, e);
    forall sk, k | sk in r && k in r[sk]
      ensures k == SlotKey(r[sk][k].day, r[sk][k].timeSlot)
    {
      if sk == scopeKey && k != SlotKey(e.day, e.timeSlot) {
        assert k in data[scopeKey];
      }
    }
  }

  lemma RemoveKeepsWellKeyed(data: Data, scopeKey: string, key: string)
    requires WellKeyed(data) && scopeKey in data
    ensures WellKeyed(Remove(data, scopeKey, key))
  {
    var r: Data := Remove(data, scopeKey, key);
    forall sk, k | sk in r && k in r[sk]
      ensures k == SlotKey(r[sk][k].day, r[sk][k].timeSlot)
    {
      assert k in data[sk];
    }
  }

  // ---------------------------------------------------------------------
  // Validation
  // ---------------------------------------------------------------------

  /** `value.trim()` is truthy. */
  predicate NonBlank(value: string)
  {
    Trim(value) != ""
  }

  /** `Object.values(classData)`: the fields in the order the form object lists them. */
  function FieldValues(e: ClassEntry): (values: seq<string>)
    ensures |values| == 6
    ensures values[0] == e.subjectName && values[1] == e.facultyName && values[2] == e.classType
    ensures values[3] == e.room && values[4] == e.day && values[5] == e.timeSlot
  {
    [e.subjectName, e.facultyName, e.classType, e.room, e.day, e.timeSlot]
  }

  /** `values.every(value => value.trim())`. */
  predicate EveryNonBlank(values: seq<string>)
  {
    values == [] || (NonBlank(values[0]) && EveryNonBlank(values[1..]))
  }

  /** Every field of the entry is non-blank. */
  predicate AllFieldsFilled(e: ClassEntry)
  {
    EveryNonBlank(FieldValues(e))
  }

  /** `every` fails exactly when some value is empty or only whitespace. */
  lemma {:induction false} EveryNonBlankIff(values: seq<string>)
    ensures !EveryNonBlank(values) <==> exists i :: 0 <= i < |values| && AllWhitespace(values[i])
  {
    if values != [] {
      EveryNonBlankIff(values[1..]);
      TrimEmptyIffAllWhitespace(values[0]);
      if exists i :: 0 <= i < |values[1..]| && AllWhitespace(values[1..][i]) {
        var i :| 0 <= i < |values[1..]| && AllWhitespace(values[1..][i]);
        assert AllWhitespace(values[i + 1]);
      }
      if exists i :: 0 <= i < |values| && AllWhitespace(values[i]) {
        var i :| 0 <= i < |values| && AllWhitespace(values[i]);
        if i > 0 {
          assert AllWhitespace(values[1..][i - 1]);
        }
      }
    }
  }

  /** An entry is rejected for a blank field exactly when some field is empty or only whitespace. */
  lemma AllFieldsFilledIff(e: ClassEntry)
    ensures !AllFieldsFilled(e) <==>
      || AllWhitespace(e.subjectName) || AllWhitespace(e.facultyName)
      || AllWhitespace(e.classType) || AllWhitespace(e.room)
      || AllWhitespace(e.day) || AllWhitespace(e.timeSlot)
  {
    var values := FieldValues(e);
    EveryNonBlankIff(values);
    if exists i :: 0 <= i < |values| && AllWhitespace(values[i]) {
      var i :| 0 <= i < |values| && AllWhitespace(values[i]);
      assert i == 0 || i == 1 || i == 2 || i == 3 || i == 4 || i == 5;
    }
  }

  /** The faculty allow-list applies to the AI/ML programme in semesters 1 and 3 only. */
  predicate FacultyRestricted(stream: string, semester: string)
  {
    stream == "MSC_AI_ML" && (semester == "1" || semester == "3")
  }

  /**
   * For a stream id without digits and a semester from the selector, the
   * allow-list applies exactly to the two scopes `MSC_AI_ML_1` and
   * `MSC_AI_ML_3`.
   */
  lemma RestrictedScopes(stream: string, semester: string)
    requires NoDigit(stream) && SemesterValue(semester)
    ensures FacultyRestricted(stream, semester) <==>
      ScopeKey(stream, semester) == "MSC_AI_ML_1" || ScopeKey(stream, semester) == "MSC_AI_ML_3"
  {
    var key := ScopeKey(stream, semester);
    assert NoDigit("MSC_AI_ML") by {
      forall i | 0 <= i < |"MSC_AI_ML"| ensures !IsDigit("MSC_AI_ML"[i]) {
        assert i == 0 || i == 1 || i == 2 || i == 3 || i == 4 || i == 5 || i == 6 || i == 7 || i == 8;
      }
    }
    assert SemesterValue("1") && SemesterValue("3");
    assert ScopeKey("MSC_AI_ML", "1") == "MSC_AI_ML_1";
    assert ScopeKey("MSC_AI_ML", "3") == "MSC_AI_ML_3";
    if key == "MSC_AI_ML_1" {
      ScopeKeyInjective(stream, semester, "MSC_AI_ML", "1");
    } else if key == "MSC_AI_ML_3" {
      ScopeKeyInjective(stream, semester, "MSC_AI_ML", "3");
    }
  }

  /** `validateAiMlFaculty`: the name is exactly one of the allow-listed faculty names. */
  function ValidateAiMlFaculty(facultyName: string): (ok: bool)
    ensures ok <==> facultyName in {
      "Dr. Suchit Purohit", "Ms. Anju Jha", "Mr. Vishal Prajapati",
      "Dr. Jigna Satani", "Ms.Arpana Sonawane"}
  {
    facultyName in AiMlFaculty
  }

  /** Whether an entry may be stored under the given selection, as far as the faculty rule goes. */
  predicate FacultyAccepted(stream: string, semester: string, facultyName: string)
  {
    !FacultyRestricted(stream, semester) || ValidateAiMlFaculty(facultyName)
  }

  /**
   * Every other selection skips the faculty check; in a restricted one a
   * name passes exactly when it is on the allow-list.
   */
  lemma FacultyAcceptedWhen(stream: string, semester: string, name: string)
    ensures !FacultyRestricted(stream, semester) ==> FacultyAccepted(stream, semester, name)
    ensures FacultyRestricted(stream, semester) ==> (FacultyAccepted(stream, semester, name) <==> name in AiMlFaculty)
  {
  }

  /** The allow-list is checked without trimming or case folding, so a padded name is refused. */
  lemma FacultyCheckIsExact(stream: string, semester: string, name: string)
    requires FacultyRestricted(stream, semester)
    requires name in AiMlFaculty
    ensures FacultyAccepted(stream, semester, name)
    ensures !FacultyAccepted(stream, semester, name + " ")
  {
    var padded := name + " ";
    assert padded[|padded| - 1] == ' ';
  }
}
