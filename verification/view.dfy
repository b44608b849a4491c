/**
 * The computations behind what the manager shows: the style class of a
 * class item, the options of the semester selector, the header text and
 * the cell matrix of the exported timetable.
 */
module View {
  import opened Text
  import opened Timetable

  // ---------------------------------------------------------------------
  // Class items
  // ---------------------------------------------------------------------

  /** The subject names a break, case-insensitively. */
  predicate IsBreakSubject(e: ClassEntry)
  {
    Contains(Lower(e.subjectName), "break")
  }

  /** The class type, room or subject mentions a lab, case-insensitively. */
  predicate MentionsLab(e: ClassEntry)
  {
    Contains(Lower(e.classType), "lab") || Contains(Lower(e.room), "lab") || Contains(Lower(e.subjectName), "lab")
  }

  lemma LowerBreak()
    ensures Lower("BREAK") == "break"
  {
  }

  lemma LectureIsNoLab()
    ensures Lower("lecture") == "lecture" && !Contains("lecture", "lab")
  {
    var s := "lecture";
    assert 'a' !in s;
    forall i | 0 <= i <= |s| - 3
      ensures !OccursAt(s, "lab", i)
    {
      assert s[i..i + 3][1] == s[i + 1];
      assert s[i + 1] in s;
    }
    LowerOfNoUpper(s);
  }

  /** The class type the item starts from: lower-cased, `lecture` when empty. */
  lemma ClassTypeIsLower(classType: string)
    ensures var c := Lower(if classType != "" then classType else "lecture");
      c != "" && NoUpper(c)
  {
    var t := if classType != "" then classType else "lecture";
    assert |t| > 0;
    LowerIsLower(t);
  }

  /** The two fixed style classes are lower-case. */
  lemma FixedClassesAreLower()
    ensures NoUpper("break") && NoUpper("lab")
  {
    forall i | 0 <= i < |"break"| ensures !('A' <= "break"[i] <= 'Z') {
      assert i == 0 || i == 1 || i == 2 || i == 3 || i == 4;
    }
    forall i | 0 <= i < |"lab"| ensures !('A' <= "lab"[i] <= 'Z') {
      assert i == 0 || i == 1 || i == 2;
    }
  }

  /**
   * The style class of a class item, as the item builder computes it: a
   * subject `BREAK` or one mentioning "break" gives `break`; otherwise a
   * class type, room or subject mentioning "lab" gives `lab`; otherwise
   * the lower-cased class type, `lecture` when it is empty.
   */
  function ClassifyEntry(e: ClassEntry): (cls: string)
    ensures cls != "" && NoUpper(cls)
  {
    var classType := Lower(if e.classType != "" then e.classType else "lecture");
    ClassTypeIsLower(e.classType);
    FixedClassesAreLower();
    var isBreak := e.subjectName == "BREAK" ||
                   (e.subjectName != "" && Contains(Lower(e.subjectName), "break"));
    if isBreak then "break"
    else
      var isLab := Contains(classType, "lab") ||
                   (e.room != "" && Contains(Lower(e.room), "lab")) ||
                   (e.subjectName != "" && Contains(Lower(e.subjectName), "lab"));
      if isLab then "lab" else classType
  }

  /** The builder's break test is the case-insensitive "break" mention. */
  lemma BreakTestIsMention(e: ClassEntry)
    ensures (e.subjectName == "BREAK" || (e.subjectName != "" && Contains(Lower(e.subjectName), "break")))
            <==> IsBreakSubject(e)
  {
    if e.subjectName == "BREAK" {
      LowerBreak();
      assert OccursAt(Lower(e.subjectName), "break", 0);
    }
  }

  /** The builder's lab test is the case-insensitive "lab" mention. */
  lemma LabTestIsMention(e: ClassEntry)
    ensures (Contains(Lower(if e.classType != "" then e.classType else "lecture"), "lab") ||
             (e.room != "" && Contains(Lower(e.room), "lab")) ||
             (e.subjectName != "" && Contains(Lower(e.subjectName), "lab")))
            <==> MentionsLab(e)
  {
    if e.classType == "" {
      LectureIsNoLab();
    }
  }

  /**
   * The three outcomes of the classification: `break` for a break, else
   * `lab` for anything that mentions a lab, else the lower-cased class
   * type with `lecture` for an empty one.
   */
  lemma ClassifyEntrySpec(e: ClassEntry)
    ensures IsBreakSubject(e) ==> ClassifyEntry(e) == "break"
    ensures !IsBreakSubject(e) && MentionsLab(e) ==> ClassifyEntry(e) == "lab"
    ensures !IsBreakSubject(e) && !MentionsLab(e) ==>
      ClassifyEntry(e) == Lower(if e.classType == "" then "lecture" else e.classType)
  {
    BreakTestIsMention(e);
    LabTestIsMention(e);
  }

  /** The style class ignores the ASCII case of subject, class type and room. */
  lemma ClassifyIgnoresCase(e: ClassEntry)
    ensures ClassifyEntry(e.(subjectName := Lower(e.subjectName), classType := Lower(e.classType),
                             room := Lower(e.room))) == ClassifyEntry(e)
  {
    var e' := e.(subjectName := Lower(e.subjectName), classType := Lower(e.classType), room := Lower(e.room));
    LowerIsLower(e.subjectName);
    LowerIsLower(e.classType);
    LowerIsLower(e.room);
    assert IsBreakSubject(e') == IsBreakSubject(e);
    assert MentionsLab(e') == MentionsLab(e);
    ClassifyEntrySpec(e);
    ClassifyEntrySpec(e');
  }

  // ---------------------------------------------------------------------
  // Semester selector
  // ---------------------------------------------------------------------

  datatype SemesterOption = SemesterOption(value: string, caption: string)

  /** How many semesters the stream offers; none for a stream without reference data. */
  function SemesterCount(stream: string): (count: nat)
    ensures count == 0 <==> stream !in Streams
    ensures count == 4 <==> stream == "MCA" || stream == "MSC_AI_ML"
    ensures count == 10 <==> stream == "PGDCSA" || stream == "INTEGRATED_CS"
  {
    if stream in Streams then Streams[stream].totalSemesters else 0
  }

  /**
   * The options of the semester selector: a placeholder with the empty
   * value, then one option per semester of the stream, numbered from 1.
   */
  method PopulateSemesterOptions(stream: string) returns (options: seq<SemesterOption>)
    ensures |options| == SemesterCount(stream) + 1
    ensures options[0] == SemesterOption("", "Select Semester")
    ensures forall i :: 1 <= i < |options| ==>
      options[i] == SemesterOption(NatToString(i), "Semester " + NatToString(i))
  {
    options := [SemesterOption("", "Select Semester")];
    if stream in Streams {
      var info := Streams[stream];
      var i := 1;
      while i <= info.totalSemesters
        invariant 1 <= i <= info.totalSemesters + 1
        invariant |options| == i
        invariant options[0] == SemesterOption("", "Select Semester")
        invariant forall k :: 1 <= k < i ==>
          options[k] == SemesterOption(NatToString(k), "Semester " + NatToString(k))
      {
        options := options + [SemesterOption(NatToString(i), "Semester " + NatToString(i))];
        i := i + 1;
      }
    }
  }

  /**
   * Choosing the i-th option selects a non-empty decimal semester, and
   * the faculty rule applies to the AI/ML stream exactly for options 1 and 3.
   */
  lemma SemesterOptionValue(i: nat)
    requires i >= 1
    ensures SemesterValue(NatToString(i)) && NatToString(i) != ""
    ensures FacultyRestricted("MSC_AI_ML", NatToString(i)) <==> i == 1 || i == 3
  {
    assert NatToString(1) == "1";
    assert NatToString(3) == "3";
    if NatToString(i) == "1" {
      NatToStringInjective(i, 1);
    }
    if NatToString(i) == "3" {
      NatToStringInjective(i, 3);
    }
  }

  // ---------------------------------------------------------------------
  // Header
  // ---------------------------------------------------------------------

  /** The programme name from the reference data, or the raw id when there is none. */
  function Title(stream: string): (title: string)
    ensures stream !in Streams ==> title == stream
  {
    if stream in Streams then Streams[stream].name else stream
  }

  /** A known programme is titled by its name, which is non-empty and differs from its id. */
  lemma TitleOfKnownStream(stream: string)
    requires stream in Streams
    ensures Title(stream) == Streams[stream].name
    ensures Title(stream) != "" && Title(stream) != stream
  {
    assert stream == "MCA" || stream == "MSC_AI_ML" || stream == "PGDCSA" || stream == "INTEGRATED_CS";
  }

  /**
   * The timetable header: it starts with the programme title and, exactly
   * when a semester is selected, goes on with ` - Semester ` and the semester.
   */
  function HeaderText(stream: string, semester: string): (text: string)
    ensures |text| >= |Title(stream)| && text[..|Title(stream)|] == Title(stream)
    ensures semester == "" <==> |text| == |Title(stream)|
    ensures semester != "" ==> text[|Title(stream)|..] == " - Semester " + semester
  {
    var headerText := Title(stream);
    if semester != "" then
      var text := headerText + (" - Semester " + semester);
      assert text[..|headerText|] == headerText && text[|headerText|..] == " - Semester " + semester;
      text
    else headerText
  }

  // ---------------------------------------------------------------------
  // Export grid
  // ---------------------------------------------------------------------

  /** One cell of the exported table: the placeholder `-`, or subject, faculty and room. */
  datatype Cell = Placeholder | Filled(subject: string, faculty: string, room: string)

  /** The cell for a time slot and a day: the entry at `day-timeSlot`, if any. */
  function CellAt(scope: Scope, timeSlot: string, day: string): (c: Cell)
    ensures c.Filled? <==> SlotKey(day, timeSlot) in scope
    ensures c.Filled? ==> var e := scope[SlotKey(day, timeSlot)];
      c.subject == e.subjectName && c.faculty == e.facultyName && c.room == e.room
  {
    var key := SlotKey(day, timeSlot);
    if key in scope then Filled(scope[key].subjectName, scope[key].facultyName, scope[key].room)
    else Placeholder
  }

  /** One row per time slot, one column per day, both in declared order. */
  predicate IsGridOf(grid: seq<seq<Cell>>, scope: Scope)
  {
    && |grid| == |TimeSlots|
    && (forall t :: 0 <= t < |grid| ==> |grid[t]| == |Days|)
    && (forall t, d :: 0 <= t < |grid| && 0 <= d < |Days| ==>
          grid[t][d] == CellAt(scope, TimeSlots[t], Days[d]))
  }

  /** The two nested loops of the export over time slots and days. */
  method BuildGrid(scope: Scope) returns (grid: seq<seq<Cell>>)
    ensures IsGridOf(grid, scope)
  {
    grid := [];
    var t := 0;
    while t < |TimeSlots|
      invariant 0 <= t <= |TimeSlots| && |grid| == t
      invariant forall u :: 0 <= u < t ==> |grid[u]| == |Days|
      invariant forall u, d :: 0 <= u < t && 0 <= d < |Days| ==>
        grid[u][d] == CellAt(scope, TimeSlots[u], Days[d])
    {
      var row: seq<Cell> := [];
      var d := 0;
      while d < |Days|
        invariant 0 <= d <= |Days| && |row| == d
        invariant forall c :: 0 <= c < d ==> row[c] == CellAt(scope, TimeSlots[t], Days[c])
      {
        var key := SlotKey(Days[d], TimeSlots[t]);
        if key in scope {
          var e := scope[key];
          row := row + [Filled(e.subjectName, e.facultyName, e.room)];
        } else {
          row := row + [Placeholder];
        }
        d := d + 1;
      }
      grid := grid + [row];
      t := t + 1;
    }
  }

  /** A class saved at one of the grid's days and time slots shows in the grid of its scope. */
  lemma StoredClassShowsInItsScope(data: Data, scopeKey: string, e: ClassEntry, t: nat, d: nat)
    requires t < |TimeSlots| && d < |Days|
    requires e.day == Days[d] && e.timeSlot == TimeSlots[t]
    ensures CellAt(LookupScope(Store(data, scopeKey, e), scopeKey), TimeSlots[t], Days[d])
            == Filled(e.subjectName, e.facultyName, e.room)
  {
  }

  /**
   * A class saved under a semester scope leaves the stream-level scope
   * untouched, so a grid built from the stream-level scope does not show it.
   */
  lemma StoredClassMissingFromStreamScope(data: Data, stream: string, semester: string, e: ClassEntry)
    requires semester != ""
    requires SlotKey(e.day, e.timeSlot) !in LookupScope(data, stream)
    ensures CellAt(LookupScope(Store(data, ScopeKey(stream, semester), e), stream), e.timeSlot, e.day)
            == Placeholder
  {
    assert |ScopeKey(stream, semester)| > |stream|;
  }
}
