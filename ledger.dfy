/**
 * The attendance ledger: the Attendance table with its unique
 * (student, event) constraint, `get_or_create` on it, and the loop both
 * attendance views run over the students they mark.
 */
module Ledger {
  import opened Wrappers
  import opened Models

  /** Who marks a batch and how: a coordinator from a group photo, or an admin by hand with a note. */
  datatype Mode =
    | Automatic(coordinator: Student)
    | ManualEntry(admin: Student, adminNotes: string)

  /** The `defaults` of get_or_create: the fields used only when the row is created. */
  datatype Defaults = Defaults(markedBy: nat, isManual: bool, notes: Option<string>)

  /** At most one row per (student, event) pair. */
  predicate Unique(records: seq<Attendance>) {
    forall i, j :: 0 <= i < j < |records| ==>
      records[i].student != records[j].student || records[i].event != records[j].event
  }

  predicate Recorded(records: seq<Attendance>, student: nat, event: nat) {
    exists i :: 0 <= i < |records| && records[i].student == student && records[i].event == event
  }

  /** The row get_or_create inserts: the lookup fields, the defaults, and field defaults for the rest. */
  function Created(student: nat, event: nat, d: Defaults): Attendance {
    NewAttendance(student, event, d.markedBy).(isManual := d.isManual, notes := d.notes)
  }

  /** The defaults each view passes. */
  function ModeDefaults(mode: Mode): Defaults {
    match mode
    case Automatic(c) => Defaults(c.pk, false, None)
    case ManualEntry(a, notes) => Defaults(a.pk, true, Some("Manually marked by admin. " + notes))
  }

  /** The email a student gets when a row is created for it. */
  function MarkedNotice(s: Student, event: nat, mode: Mode): Notice {
    match mode
    case Automatic(c) => AttendanceMail(s.pk, event, c.pk, None)
    case ManualEntry(a, notes) =>
      AttendanceMail(s.pk, event, a.pk, Some(if notes != "" then notes else "Face not recognized in group photo"))
  }

  function Notices(created: seq<Student>, event: nat, mode: Mode): (r: seq<Notice>)
    ensures |r| == |created|
  {
    seq(|created|, k requires 0 <= k < |created| => MarkedNotice(created[k], event, mode))
  }

  /** The table after a batch, and the students (in order) whose rows the batch created. */
  datatype Marking = Marking(records: seq<Attendance>, created: seq<Student>)

  /**
   * get_or_create for each student in turn: a row is added only for a
   * student without one for this event. The rows before the batch stay as
   * they were, and each added row is the created row of one created student.
   */
  function Mark(records: seq<Attendance>, students: seq<Student>, event: nat, mode: Mode): (r: Marking)
    ensures |r.records| == |records| + |r.created|
    ensures r.records[..|records|] == records
    ensures forall k :: 0 <= k < |r.created| ==>
      r.records[|records| + k] == Created(r.created[k].pk, event, ModeDefaults(mode))
    decreases |students|
  {
    if students == [] then Marking(records, [])
    else
      var prev := Mark(records, students[..|students| - 1], event, mode);
      var s := students[|students| - 1];
      if Recorded(prev.records, s.pk, event) then prev
      else Marking(prev.records + [Created(s.pk, event, ModeDefaults(mode))], prev.created + [s])
  }

  /** A batch keeps the table free of duplicate (student, event) rows. */
  lemma {:induction false} MarkKeepsUnique(records: seq<Attendance>, students: seq<Student>, event: nat, mode: Mode)
    requires Unique(records)
    ensures Unique(Mark(records, students, event, mode).records)
    decreases |students|
  {
    if students != [] {
      var prev := Mark(records, students[..|students| - 1], event, mode);
      MarkKeepsUnique(records, students[..|students| - 1], event, mode);
    }
  }

  /** After a batch every student in it has a row for the event, and every earlier row is still there. */
  lemma {:induction false} MarkCovers(records: seq<Attendance>, students: seq<Student>, event: nat, mode: Mode)
    ensures forall k :: 0 <= k < |students| ==> Recorded(Mark(records, students, event, mode).records, students[k].pk, event)
    ensures forall st, e :: Recorded(records, st, e) ==> Recorded(Mark(records, students, event, mode).records, st, e)
    decreases |students|
  {
    var r := Mark(records, students, event, mode);
    if students != [] {
      var init := students[..|students| - 1];
      var prev := Mark(records, init, event, mode);
      MarkCovers(records, init, event, mode);
      assert r.records[..|prev.records|] == prev.records;
      forall k | 0 <= k < |students| ensures Recorded(r.records, students[k].pk, event) {
        if k < |init| {
          assert students[k] == init[k];
          var i :| 0 <= i < |prev.records| && prev.records[i].student == init[k].pk && prev.records[i].event == event;
          assert r.records[i] == prev.records[i];
        } else if !Recorded(prev.records, students[k].pk, event) {
          assert r.records[|prev.records|].student == students[k].pk;
        }
      }
      forall st, e | Recorded(records, st, e) ensures Recorded(r.records, st, e) {
        var i :| 0 <= i < |records| && records[i].student == st && records[i].event == e;
        assert r.records[i] == records[i];
      }
    }
  }

  /** Each of `created` is in the batch and had no row for the event before it. */
  predicate NewFor(records: seq<Attendance>, students: seq<Student>, created: seq<Student>, event: nat) {
    forall k :: 0 <= k < |created| ==> created[k] in students && !Recorded(records, created[k].pk, event)
  }

  predicate DistinctKeys(ss: seq<Student>) {
    forall k, k' :: 0 <= k < k' < |ss| ==> ss[k].pk != ss[k'].pk
  }

  /**
   * A batch creates rows only for students of the batch that had none
   * before, each such student once: duplicates in the batch are absorbed.
   */
  lemma {:induction false} MarkCreatesOnlyMissing(records: seq<Attendance>, students: seq<Student>, event: nat, mode: Mode)
    ensures NewFor(records, students, Mark(records, students, event, mode).created, event)
    ensures DistinctKeys(Mark(records, students, event, mode).created)
    decreases |students|
  {
    if students != [] {
      var init := students[..|students| - 1];
      var s := students[|students| - 1];
      var prev := Mark(records, init, event, mode);
      MarkCreatesOnlyMissing(records, init, event, mode);
      var c := Mark(records, students, event, mode).created;
      if !Recorded(prev.records, s.pk, event) {
        assert c == prev.created + [s];
        forall k | 0 <= k < |prev.created| ensures prev.created[k].pk != s.pk {
          var i := |records| + k;
          assert prev.records[i].student == prev.created[k].pk && prev.records[i].event == event;
        }
        forall i | 0 <= i < |records| ensures records[i].student != s.pk || records[i].event != event {
          assert prev.records[i] == records[i];
        }
      } else {
        assert c == prev.created;
      }
      forall k | 0 <= k < |c| ensures c[k] in students && !Recorded(records, c[k].pk, event) {
        if k < |prev.created| {
          assert c[k] == prev.created[k] && prev.created[k] in init;
          var j :| 0 <= j < |init| && init[j] == c[k];
          assert students[j] == c[k];
        }
      }
    }
  }

  /** Who a mode records as the marker. */
  function Marker(mode: Mode): nat {
    match mode
    case Automatic(c) => c.pk
    case ManualEntry(a, _) => a.pk
  }

  /**
   * Every row a batch adds is for the batch's event and carries the mode:
   * a group-photo row is not manual, has no note and is marked by the
   * coordinator; a manual row is manual, marked by the admin, and its note
   * is the fixed prefix followed by the admin's text.
   */
  lemma MarkedRowsCarryMode(records: seq<Attendance>, students: seq<Student>, event: nat, mode: Mode)
    ensures forall k :: |records| <= k < |Mark(records, students, event, mode).records| ==>
      && Mark(records, students, event, mode).records[k].event == event
      && Mark(records, students, event, mode).records[k].markedBy == Marker(mode)
      && Mark(records, students, event, mode).records[k].isManual == mode.ManualEntry?
      && Mark(records, students, event, mode).records[k].notes
           == (if mode.ManualEntry? then Some("Manually marked by admin. " + mode.adminNotes) else None)
  {
    var m := Mark(records, students, event, mode);
    forall k | |records| <= k < |m.records|
      ensures m.records[k] == Created(m.created[k - |records|].pk, event, ModeDefaults(mode))
    {
      assert m.records[|records| + (k - |records|)] == Created(m.created[k - |records|].pk, event, ModeDefaults(mode));
    }
  }

  predicate MailsForCreated(records: seq<Attendance>, students: seq<Student>, m: Marking, event: nat, mode: Mode) {
    forall k :: 0 <= k < |m.created| ==>
      && Notices(m.created, event, mode)[k].AttendanceMail?
      && Notices(m.created, event, mode)[k].recipient == m.created[k].pk
      && Notices(m.created, event, mode)[k].event == event
      && Notices(m.created, event, mode)[k].markedBy == Marker(mode)
      && m.created[k] in students
      && !Recorded(records, m.created[k].pk, event)
      && Recorded(m.records, m.created[k].pk, event)
  }

  /**
   * The k-th email of a batch goes to the k-th created student, about this
   * event, from the marker: a student of the batch that had no row for the
   * event before and has one after. Nobody else is emailed.
   */
  lemma MarkNotifiesOnlyCreated(records: seq<Attendance>, students: seq<Student>, event: nat, mode: Mode)
    ensures MailsForCreated(records, students, Mark(records, students, event, mode), event, mode)
  {
    var m := Mark(records, students, event, mode);
    MarkCreatesOnlyMissing(records, students, event, mode);
    forall k | 0 <= k < |m.created| ensures Recorded(m.records, m.created[k].pk, event) {
      assert m.records[|records| + k].student == m.created[k].pk;
    }
  }

  /** A batch in which every student already has a row changes nothing and creates nothing. */
  lemma {:induction false} MarkAllRecordedIsNoOp(records: seq<Attendance>, students: seq<Student>, event: nat, mode: Mode)
    requires forall k :: 0 <= k < |students| ==> Recorded(records, students[k].pk, event)
    ensures Mark(records, students, event, mode) == Marking(records, [])
    decreases |students|
  {
    if students != [] {
      MarkAllRecordedIsNoOp(records, students[..|students| - 1], event, mode);
    }
  }

  /**
   * Resubmitting a batch for the same event, in either mode, creates no row
   * and leaves the table as the first submission left it.
   */
  lemma Resubmission(records: seq<Attendance>, students: seq<Student>, event: nat, mode: Mode, again: Mode)
    ensures var first := Mark(records, students, event, mode).records;
      Mark(first, students, event, again) == Marking(first, [])
  {
    MarkCovers(records, students, event, mode);
    MarkAllRecordedIsNoOp(Mark(records, students, event, mode).records, students, event, again);
  }

  function Keys(ss: seq<Student>): set<nat> {
    set s | s in ss :: s.pk
  }

  lemma {:induction false} DistinctKeysCount(ss: seq<Student>)
    requires DistinctKeys(ss)
    ensures |Keys(ss)| == |ss|
    decreases |ss|
  {
    if ss != [] {
      var init := ss[..|ss| - 1];
      var last := ss[|ss| - 1];
      DistinctKeysCount(init);
      assert ss == init + [last];
      assert Keys(ss) == Keys(init) + {last.pk};
      assert last.pk !in Keys(init);
    }
  }

  /**
   * The number of rows a batch creates is at most the number of distinct
   * students in it, hence at most the batch length.
   */
  lemma CreatedAtMostDistinct(records: seq<Attendance>, students: seq<Student>, event: nat, mode: Mode)
    ensures |Mark(records, students, event, mode).created| <= |Keys(students)| <= |students|
  {
    var c := Mark(records, students, event, mode).created;
    MarkCreatesOnlyMissing(records, students, event, mode);
    DistinctKeysCount(c);
    assert Keys(c) <= Keys(students);
    SubsetCard(Keys(c), Keys(students));
    KeysCountAtMost(students);
  }

  lemma SubsetCard(a: set<nat>, b: set<nat>)
    requires a <= b
    ensures |a| <= |b|
  {
    assert b == a + (b - a);
  }

  lemma {:induction false} KeysCountAtMost(ss: seq<Student>)
    ensures |Keys(ss)| <= |ss|
    decreases |ss|
  {
    if ss != [] {
      var init := ss[..|ss| - 1];
      KeysCountAtMost(init);
      assert ss == init + [ss[|ss| - 1]];
      assert Keys(ss) == Keys(init) + {ss[|ss| - 1].pk};
    }
  }

  /** The Attendance table. */
  class AttendanceTable {
    var records: seq<Attendance>

    ghost predicate Valid()
      reads this
    {
      Unique(records)
    }

    constructor ()
      ensures Valid() && records == []
    {
      records := [];
    }

    /**
     * get_or_create: return the existing row for (student, event) without
     * touching the table, or insert the row built from the defaults.
     */
    method GetOrCreate(student: nat, event: nat, defaults: Defaults) returns (row: Attendance, created: bool)
      requires Valid()
      modifies this
      ensures Valid()
      ensures created <==> !Recorded(old(records), student, event)
      ensures created ==> row == Created(student, event, defaults) && records == old(records) + [row]
      ensures !created ==> records == old(records) && row in records && row.student == student && row.event == event
    {
      for i := 0 to |records|
        invariant forall j :: 0 <= j < i ==> records[j].student != student || records[j].event != event
      {
        if records[i].student == student && records[i].event == event {
          return records[i], false;
        }
      }
      row := Created(student, event, defaults);
      records := records + [row];
      created := true;
    }

    /**
     * The marking loop of both attendance views: get_or_create for each
     * student with the mode's defaults, counting the rows created and
     * emailing only the students whose row was created.
     */
    method MarkAll(students: seq<Student>, event: nat, mode: Mode) returns (count: nat, mails: seq<Notice>)
      requires Valid()
      modifies this
      ensures Valid()
      ensures var r := Mark(old(records), students, event, mode);
        records == r.records && count == |r.created| && mails == Notices(r.created, event, mode)
    {
      count, mails := 0, [];
      ghost var created: seq<Student> := [];
      for i := 0 to |students|
        invariant Valid()
        invariant Mark(old(records), students[..i], event, mode) == Marking(records, created)
        invariant count == |created| && mails == Notices(created, event, mode)
      {
        var s := students[i];
        assert students[..i + 1][..i] == students[..i];
        var row, wasCreated := GetOrCreate(s.pk, event, ModeDefaults(mode));
        if wasCreated {
          count := count + 1;
          mails := mails + [MarkedNotice(s, event, mode)];
          created := created + [s];
        }
      }
      assert students[..|students|] == students;
    }
  }
}
