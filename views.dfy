/**
 * The request handlers of the attendance application that decide
 * something: the role checks, approving and rejecting students and events,
 * attendance from a group photo, manual attendance, and the counts shown
 * with the attendance records.
 *
 * A handler is modelled from the point where the request has been parsed:
 * the event id of the form is an `Option<nat>` (None when the field is
 * missing or empty), the uploaded photo is the path it was saved under,
 * and the emails and in-app notifications a handler sends are returned as
 * a list of `Notice`s instead of being delivered.
 */
module Views {
  import opened Wrappers
  import opened Models
  import opened FaceUtils
  import opened Ledger

  // ---------------------------------------------------------------------
  // Roles.

  /** The Student profile of an account, if it has one. */
  function ProfileOf(ss: seq<Student>, userId: nat): (r: Option<Student>)
    ensures r.Some? <==> HasProfile(ss, userId)
    ensures r.Some? ==> r.value in ss && r.value.userId == userId
    decreases |ss|
  {
    if ss == [] then None
    else if ss[0].userId == userId then Some(ss[0])
    else
      var r := ProfileOf(ss[1..], userId);
      assert HasProfile(ss, userId) ==> HasProfile(ss[1..], userId) by {
        if HasProfile(ss, userId) {
          var i :| 0 <= i < |ss| && ss[i].userId == userId;
          assert ss[1..][i - 1] == ss[i];
        }
      }
      assert HasProfile(ss[1..], userId) ==> HasProfile(ss, userId) by {
        if HasProfile(ss[1..], userId) {
          var i :| 0 <= i < |ss[1..]| && ss[1..][i].userId == userId;
          assert ss[i + 1] == ss[1..][i];
        }
      }
      r
  }

  /**
   * The first admin check of the module: a profile with the admin role.
   * The student list and the student approve and reject pages are guarded
   * by it, since their decorators are evaluated before the name is bound
   * again further down.
   */
  predicate IsProfileAdmin(profile: Option<Student>) {
    profile.Some? && profile.value.role == AdminRole
  }

  /**
   * The second admin check of the module: a superuser, or a profile with
   * the admin role. It guards the pages defined after it: adding, editing
   * and deleting students, approving and rejecting events, and manual
   * attendance.
   */
  predicate IsAdmin(u: User, profile: Option<Student>) {
    u.isSuperuser || (profile.Some? && profile.value.role == AdminRole)
  }

  /** The coordinator check: a profile with the admin or the coordinator role. */
  predicate IsCoordinator(profile: Option<Student>) {
    profile.Some? && profile.value.role in {AdminRole, CoordinatorRole}
  }

  /**
   * Every admin with a profile passes the coordinator check; a coordinator
   * who is not an admin has the coordinator role; an account without a
   * profile is an admin exactly when it is a superuser and never a
   * coordinator.
   */
  lemma RoleChecks(u: User, profile: Option<Student>)
    ensures IsAdmin(u, profile) && profile.Some? && profile.value.role != StudentRole ==> IsCoordinator(profile)
    ensures IsCoordinator(profile) && !IsAdmin(u, profile) ==> profile.value.role == CoordinatorRole
    ensures profile.None? ==> (IsAdmin(u, profile) <==> u.isSuperuser) && !IsCoordinator(profile)
    ensures !u.isSuperuser ==> (IsAdmin(u, profile) <==> profile.Some? && profile.value.role == AdminRole)
  {
  }

  /**
   * The two admin checks agree except on a superuser whose profile (if
   * any) lacks the admin role: the second check admits such an account,
   * the first does not. Whoever passes the first passes the second and the
   * coordinator check.
   */
  lemma AdminChecksDiffer(u: User, profile: Option<Student>)
    ensures IsProfileAdmin(profile) ==> IsAdmin(u, profile) && IsCoordinator(profile)
    ensures IsAdmin(u, profile) && !IsProfileAdmin(profile) <==> u.isSuperuser && !(profile.Some? && profile.value.role == AdminRole)
    ensures !u.isSuperuser ==> (IsAdmin(u, profile) <==> IsProfileAdmin(profile))
  {
  }

  /**
   * Evaluated on an account's own profile: an account with no Student row
   * passes neither the first admin check nor the coordinator check, and
   * passes the second admin check exactly when it is a superuser.
   */
  lemma AccountWithoutProfile(u: User, ss: seq<Student>)
    requires !HasProfile(ss, u.id)
    ensures !IsProfileAdmin(ProfileOf(ss, u.id)) && !IsCoordinator(ProfileOf(ss, u.id))
    ensures IsAdmin(u, ProfileOf(ss, u.id)) <==> u.isSuperuser
  {
  }

  // ---------------------------------------------------------------------
  // Approving and rejecting students.

  /** The position of the first Student row with this student id. */
  function IndexOfStudentId(ss: seq<Student>, sid: string): (r: Option<nat>)
    ensures r.Some? <==> StudentIdTaken(ss, sid)
    ensures r.Some? ==> r.value < |ss| && ss[r.value].studentId == sid
    ensures r.Some? ==> forall j :: 0 <= j < r.value ==> ss[j].studentId != sid
    decreases |ss|
  {
    if ss == [] then None
    else if ss[0].studentId == sid then Some(0)
    else
      var r := IndexOfStudentId(ss[1..], sid);
      assert StudentIdTaken(ss, sid) ==> StudentIdTaken(ss[1..], sid) by {
        if StudentIdTaken(ss, sid) {
          var i :| 0 <= i < |ss| && ss[i].studentId == sid;
          assert ss[1..][i - 1] == ss[i];
        }
      }
      if r.None? then None
      else
        assert ss[r.value + 1] == ss[1..][r.value];
        assert forall j :: 1 <= j < r.value + 1 ==> ss[j] == ss[1..][j - 1];
        Some(r.value + 1)
  }

  function Decision(approve: bool): Status {
    if approve then Approved else Rejected
  }

  /**
   * The Student rows after a decision on `sid`: the row found gets the
   * decided approval status, every other row and every other field stays.
   */
  function DecidedStudents(ss: seq<Student>, sid: string, approve: bool): (r: seq<Student>)
    ensures |r| == |ss|
    ensures forall i :: 0 <= i < |ss| ==>
      r[i].studentId == ss[i].studentId && r[i].pk == ss[i].pk && r[i].userId == ss[i].userId
    ensures forall i :: 0 <= i < |ss| && r[i] != ss[i] ==>
      IndexOfStudentId(ss, sid) == Some(i) && r[i] == ss[i].(approval := Decision(approve))
    ensures StudentIdTaken(ss, sid) ==> r[IndexOfStudentId(ss, sid).value].approval == Decision(approve)
  {
    match IndexOfStudentId(ss, sid)
    case None => ss
    case Some(i) => ss[i := ss[i].(approval := Decision(approve))]
  }

  lemma {:induction false} IndexOfStudentIdSameIds(a: seq<Student>, b: seq<Student>, sid: string)
    requires |a| == |b|
    requires forall i :: 0 <= i < |a| ==> a[i].studentId == b[i].studentId
    ensures IndexOfStudentId(a, sid) == IndexOfStudentId(b, sid)
    decreases |a|
  {
    if a != [] && a[0].studentId != sid {
      IndexOfStudentIdSameIds(a[1..], b[1..], sid);
    }
  }

  /** Of two decisions on one student, the later one is what remains. */
  lemma LastStudentDecisionWins(ss: seq<Student>, sid: string, first: bool, second: bool)
    ensures DecidedStudents(DecidedStudents(ss, sid, first), sid, second) == DecidedStudents(ss, sid, second)
  {
    var once := DecidedStudents(ss, sid, first);
    IndexOfStudentIdSameIds(once, ss, sid);
  }

  /**
   * `approve_student` (approve) and `reject_student` (not approve): a
   * missing student id is a not-found reply with nothing changed;
   * otherwise the student's approval status becomes approved or rejected,
   * its account is activated or deactivated, and one notification goes to
   * the student.
   */
  method DecideStudent(store: Store, sid: string, approve: bool) returns (found: bool, notices: seq<Notice>)
    requires store.Valid()
    modifies store
    ensures store.Valid()
    ensures found <==> StudentIdTaken(old(store.students), sid)
    ensures store.students == DecidedStudents(old(store.students), sid, approve)
    ensures store.events == old(store.events)
    ensures !found ==> store.users == old(store.users) && notices == []
    ensures found ==>
      var s := old(store.students)[IndexOfStudentId(old(store.students), sid).value];
      && store.users == old(store.users)[s.userId := old(store.users)[s.userId].(isActive := approve)]
      && notices == [Notify(s.pk, if approve then "Account approved" else "Account rejected")]
  {
    var index := IndexOfStudentId(store.students, sid);
    if index.None? {
      return false, [];
    }
    var s := store.students[index.value];
    store.users := store.users[s.userId := store.users[s.userId].(isActive := approve)];
    store.students := store.students[index.value := s.(approval := Decision(approve))];
    found := true;
    notices := [Notify(s.pk, if approve then "Account approved" else "Account rejected")];
  }

  // ---------------------------------------------------------------------
  // Approving and rejecting events.

  /** The events after a decision on `id`: that event gets the decided status, nothing else changes. */
  function DecidedEvents(events: map<nat, Event>, id: nat, approve: bool): (r: map<nat, Event>)
    ensures r.Keys == events.Keys
    ensures id in events ==> r[id] == events[id].(status := Decision(approve))
    ensures forall other :: other in events && other != id ==> r[other] == events[other]
  {
    if id in events then events[id := events[id].(status := Decision(approve))] else events
  }

  /** Of two decisions on one event, the later one is what remains. */
  lemma LastEventDecisionWins(events: map<nat, Event>, id: nat, first: bool, second: bool)
    ensures DecidedEvents(DecidedEvents(events, id, first), id, second) == DecidedEvents(events, id, second)
  {
    var a := DecidedEvents(DecidedEvents(events, id, first), id, second);
    var b := DecidedEvents(events, id, second);
    assert forall k :: k in a ==> a[k] == b[k];
  }

  /**
   * A newly created event starts out pending, and one decision on it
   * settles it as approved or rejected, leaving its other fields and every
   * other event as they were.
   */
  lemma NewEventAwaitsDecision(events: map<nat, Event>, id: nat, title: string, coordinator: nat, approve: bool)
    ensures NewEvent(id, title, coordinator).status == Pending
    ensures var after := DecidedEvents(events[id := NewEvent(id, title, coordinator)], id, approve);
      && after[id] == Event(id, title, coordinator, if approve then Approved else Rejected)
      && forall other :: other in events && other != id ==> after[other] == events[other]
  {
  }

  /**
   * `approve_event` and `reject_event`: a missing event is a not-found
   * reply; otherwise the event's status becomes approved or rejected, its
   * coordinator gets a notification and, unless the request came from a
   * script, an email about the decision.
   */
  method DecideEvent(store: Store, id: nat, approve: bool, ajax: bool) returns (found: bool, notices: seq<Notice>)
    requires store.Valid()
    modifies store
    ensures store.Valid()
    ensures found <==> id in old(store.events)
    ensures store.events == DecidedEvents(old(store.events), id, approve)
    ensures store.students == old(store.students) && store.users == old(store.users)
    ensures !found ==> notices == []
    ensures found ==>
      var e := old(store.events)[id];
      notices == [Notify(e.coordinator, if approve then "Event approved" else "Event rejected")]
        + (if ajax then [] else [EventMail(e.coordinator, id, approve)])
  {
    if id !in store.events {
      return false, [];
    }
    var e := store.events[id];
    store.events := store.events[id := e.(status := Decision(approve))];
    found := true;
    notices := [Notify(e.coordinator, if approve then "Event approved" else "Event rejected")];
    if !ajax {
      notices := notices + [EventMail(e.coordinator, id, approve)];
    }
  }

  // ---------------------------------------------------------------------
  // Recognizing the students in a group photo.

  /** The first active student with this student id (the query the group loop runs per face). */
  function FindActive(ss: seq<Student>, sid: string): (r: Option<Student>)
    ensures r.Some? <==> exists s :: s in ss && s.isActive && s.studentId == sid
    ensures r.Some? ==> r.value in ss && r.value.isActive && r.value.studentId == sid
    decreases |ss|
  {
    if ss == [] then None
    else if ss[0].isActive && ss[0].studentId == sid then Some(ss[0])
    else
      var r := FindActive(ss[1..], sid);
      assert forall s :: s in ss && s != ss[0] ==> s in ss[1..];
      r
  }

  /**
   * What one detected face contributes: the student it is recognized as,
   * if its distance is strictly below 70, its label is in the label map,
   * the mapped student id is not empty, and an active student has that id.
   */
  function ResolveFace(m: ModelState, v: Vision, ss: seq<Student>, g: Gray, r: Rect): (res: Option<Student>)
    requires m.Trained?
    ensures res.Some? <==>
      && Predict(m, v, g, r).confidence < Threshold
      && Predict(m, v, g, r).classLabel in m.labelIds
      && m.labelIds[Predict(m, v, g, r).classLabel] != ""
      && exists s :: s in ss && s.isActive && s.studentId == m.labelIds[Predict(m, v, g, r).classLabel]
    ensures res.Some? ==>
      && res.value in ss && res.value.isActive
      && res.value.studentId == m.labelIds[Predict(m, v, g, r).classLabel]
  {
    var p := Predict(m, v, g, r);
    if p.confidence < Threshold && p.classLabel in m.labelIds && m.labelIds[p.classLabel] != "" then
      FindActive(ss, m.labelIds[p.classLabel])
    else None
  }

  /**
   * The recognized students of a group photo, in detection order: one
   * entry per face that resolves to a student. A student whose face is
   * detected twice appears twice.
   */
  function Accepted(m: ModelState, v: Vision, ss: seq<Student>, g: Gray, rects: seq<Rect>): (r: seq<Student>)
    requires m.Trained?
    ensures |r| <= |rects|
    decreases |rects|
  {
    if rects == [] then []
    else
      var init := Accepted(m, v, ss, g, rects[..|rects| - 1]);
      match ResolveFace(m, v, ss, g, rects[|rects| - 1])
      case Some(s) => init + [s]
      case None => init
  }

  /**
   * A student is recognized exactly when some detected face resolves to
   * it; every face below the threshold whose label maps to an active
   * student's id is kept, and the loop never stops early.
   */
  lemma {:induction false} AcceptedIff(m: ModelState, v: Vision, ss: seq<Student>, g: Gray, rects: seq<Rect>, s: Student)
    requires m.Trained?
    ensures s in Accepted(m, v, ss, g, rects) <==>
      exists k :: 0 <= k < |rects| && ResolveFace(m, v, ss, g, rects[k]) == Some(s)
    decreases |rects|
  {
    if rects != [] {
      var init := rects[..|rects| - 1];
      var last := |rects| - 1;
      AcceptedIff(m, v, ss, g, init, s);
      if s in Accepted(m, v, ss, g, rects) {
        if s !in Accepted(m, v, ss, g, init) {
          assert ResolveFace(m, v, ss, g, rects[last]) == Some(s);
        } else {
          var k :| 0 <= k < |init| && ResolveFace(m, v, ss, g, init[k]) == Some(s);
          assert rects[k] == init[k];
        }
      }
      if exists k :: 0 <= k < |rects| && ResolveFace(m, v, ss, g, rects[k]) == Some(s) {
        var k :| 0 <= k < |rects| && ResolveFace(m, v, ss, g, rects[k]) == Some(s);
        if k < last {
          assert init[k] == rects[k];
        }
      }
    }
  }

  /** Every recognized student is an active student of the table. */
  lemma AcceptedAreActive(m: ModelState, v: Vision, ss: seq<Student>, g: Gray, rects: seq<Rect>)
    requires m.Trained?
    ensures forall s :: s in Accepted(m, v, ss, g, rects) ==> s in ss && s.isActive
  {
    forall s | s in Accepted(m, v, ss, g, rects) ensures s in ss && s.isActive {
      AcceptedIff(m, v, ss, g, rects, s);
    }
  }

  /** The per-face loop of the group handler over a trained model. */
  method RecognizeGroup(m: ModelState, v: Vision, ss: seq<Student>, g: Gray, rects: seq<Rect>) returns (recognized: seq<Student>)
    requires m.Trained?
    ensures recognized == Accepted(m, v, ss, g, rects)
  {
    recognized := [];
    for i := 0 to |rects|
      invariant recognized == Accepted(m, v, ss, g, rects[..i])
    {
      assert rects[..i + 1][..i] == rects[..i];
      var p := v.predict(m.faces, m.labels, Patch(g, rects[i]));
      if p.confidence < Threshold && p.classLabel in m.labelIds {
        var sid := m.labelIds[p.classLabel];
        if sid != "" {
          var student := FindActive(ss, sid);
          if student.Some? {
            recognized := recognized + [student.value];
          }
        }
      }
    }
    assert rects[..|rects|] == rects;
  }

  // ---------------------------------------------------------------------
  // Handler outcomes.

  datatype Outcome =
    | NoEventSelected                 // group photo posted without an event
    | SelectionMissing                // manual form without an event or without students
    | EventNotFound                   // 404 on the event
    | ProfileNotFound                 // 404 on the acting user's Student profile
    | InvalidImage                    // the group photo does not decode
    | NoFacesDetected
    | RecognitionError                // the classifier was asked to predict without a model
    | GroupCompleted(facesDetected: nat, recognized: nat, marked: nat)
    | ManualCompleted(marked: nat)

  /** What a handler leaves behind: its outcome, the Attendance table, and what it sent. */
  datatype Run = Run(outcome: Outcome, records: seq<Attendance>, mails: seq<Notice>)

  predicate Completed(o: Outcome) {
    o.GroupCompleted? || o.ManualCompleted?
  }

  // ---------------------------------------------------------------------
  // Attendance from a group photo.

  /**
   * `group_attendance` on a posted photo. The recognizer is new on every
   * request, so it is always trained first; when training finds no face
   * the first prediction fails and the handler reports an error without
   * writing. Otherwise the recognized students are marked present with
   * get_or_create, each newly marked student is emailed, and the
   * coordinator gets a summary.
   */
  function GroupRun(records: seq<Attendance>, students: seq<Student>, events: map<nat, Event>,
                    coordinator: Student, v: Vision, eventId: Option<nat>, photo: Path): Run
  {
    if eventId.None? then Run(NoEventSelected, records, [])
    else if eventId.value !in events then Run(EventNotFound, records, [])
    else
      match v.readGray(photo)
      case None => Run(InvalidImage, records, [])
      case Some(g) =>
        var rects := v.detect(g);
        if |rects| == 0 then Run(NoFacesDetected, records, [])
        else
          var m := Train(students, v);
          if m.Untrained? then Run(RecognitionError, records, [])
          else
            var recognized := Accepted(m, v, students, g, rects);
            var mk := Mark(records, recognized, eventId.value, Automatic(coordinator));
            var marked := |mk.created|;
            Run(GroupCompleted(|rects|, |recognized|, marked), mk.records,
                Notices(mk.created, eventId.value, Automatic(coordinator))
                  + [SummaryMail(coordinator.pk, eventId.value, |rects|, |recognized|, marked)])
  }

  /**
   * Once the event is known, the group handler gets past its image checks
   * exactly when the face check of the recognizer accepts the photo; when
   * it does not, the request is an invalid image or no faces detected and
   * leaves the table and the mailbox alone.
   */
  lemma GroupPhotoNeedsFace(records: seq<Attendance>, students: seq<Student>, events: map<nat, Event>,
                            coordinator: Student, v: Vision, event: nat, photo: Path)
    requires event in events
    ensures var r := GroupRun(records, students, events, coordinator, v, Some(event), photo);
      && (!DetectFace(v, photo) <==> r.outcome.InvalidImage? || r.outcome.NoFacesDetected?)
      && (!DetectFace(v, photo) ==> r.records == records && r.mails == [])
      && (v.readGray(photo).None? <==> r.outcome.InvalidImage?)
  {
  }

  /** The group handler, with its recognizer object and the Attendance table. */
  method GroupAttendance(ledger: AttendanceTable, students: seq<Student>, events: map<nat, Event>,
                         coordinator: Student, v: Vision, eventId: Option<nat>, photo: Path)
    returns (outcome: Outcome, mails: seq<Notice>)
    requires ledger.Valid()
    modifies ledger
    ensures ledger.Valid()
    ensures var r := GroupRun(old(ledger.records), students, events, coordinator, v, eventId, photo);
      outcome == r.outcome && ledger.records == r.records && mails == r.mails
  {
    if eventId.None? {
      return NoEventSelected, [];
    }
    var event := eventId.value;
    if event !in events {
      return EventNotFound, [];
    }
    var recognizer := new FaceRecognizer();
    var image := v.readGray(photo);
    if image.None? {
      return InvalidImage, [];
    }
    var gray := image.value;
    var faces := v.detect(gray);
    if |faces| == 0 {
      return NoFacesDetected, [];
    }
    if recognizer.state.Untrained? {
      var trained := recognizer.LoadAndTrain(students, v);
    }
    if recognizer.state.Untrained? {
      return RecognitionError, [];
    }
    var recognized := RecognizeGroup(recognizer.state, v, students, gray, faces);
    var count;
    count, mails := ledger.MarkAll(recognized, event, Automatic(coordinator));
    mails := mails + [SummaryMail(coordinator.pk, event, |faces|, |recognized|, count)];
    outcome := GroupCompleted(|faces|, |recognized|, count);
  }

  /**
   * Nothing is written and nothing is sent unless the run completes: no
   * event, an unknown event, an unreadable photo, a photo without faces and
   * a failed training all leave the table as it was.
   */
  lemma GroupWritesOnlyWhenCompleted(records: seq<Attendance>, students: seq<Student>, events: map<nat, Event>,
                                     coordinator: Student, v: Vision, eventId: Option<nat>, photo: Path)
    ensures var r := GroupRun(records, students, events, coordinator, v, eventId, photo);
      !r.outcome.GroupCompleted? ==> r.records == records && r.mails == []
    ensures var r := GroupRun(records, students, events, coordinator, v, eventId, photo);
      r.outcome == NoFacesDetected <==>
        eventId.Some? && eventId.value in events && v.readGray(photo).Some? && |v.detect(v.readGray(photo).value)| == 0
    ensures var r := GroupRun(records, students, events, coordinator, v, eventId, photo);
      r.outcome == RecognitionError <==>
        && eventId.Some? && eventId.value in events && v.readGray(photo).Some?
        && |v.detect(v.readGray(photo).value)| > 0 && Train(students, v).Untrained?
  {
  }

  /**
   * On completion at least one face was detected, at most one student is
   * recognized per face, and at most one row is created per distinct
   * recognized student: marked <= distinct recognized <= recognized <= faces.
   */
  lemma GroupCounts(records: seq<Attendance>, students: seq<Student>, events: map<nat, Event>,
                    coordinator: Student, v: Vision, eventId: Option<nat>, photo: Path)
    ensures var r := GroupRun(records, students, events, coordinator, v, eventId, photo);
      r.outcome.GroupCompleted? ==>
        && 0 < r.outcome.facesDetected
        && r.outcome.marked <= r.outcome.recognized <= r.outcome.facesDetected
        && |r.records| == |records| + r.outcome.marked
        && |r.mails| == r.outcome.marked + 1
  {
    var r := GroupRun(records, students, events, coordinator, v, eventId, photo);
    if r.outcome.GroupCompleted? {
      var g := v.readGray(photo).value;
      var m := Train(students, v);
      var recognized := Accepted(m, v, students, g, v.detect(g));
      CreatedAtMostDistinct(records, recognized, eventId.value, Automatic(coordinator));
    }
  }

  /**
   * The rows a completed group run adds are for the chosen event, not manual, without a note and
   * marked by the coordinator; and every email but the closing summary
   * goes to a recognized student that had no row for the event before and
   * has one now.
   */
  lemma GroupRecordsAndMails(records: seq<Attendance>, students: seq<Student>, events: map<nat, Event>,
                             coordinator: Student, v: Vision, eventId: Option<nat>, photo: Path)
    ensures var r := GroupRun(records, students, events, coordinator, v, eventId, photo);
      (r.outcome.GroupCompleted? ==>
        && (forall k :: |records| <= k < |r.records| ==>
              && r.records[k].event == eventId.value && !r.records[k].isManual
              && r.records[k].notes.None? && r.records[k].markedBy == coordinator.pk)
        && (forall k :: 0 <= k < |r.mails| - 1 ==>
              && r.mails[k].AttendanceMail?
              && r.mails[k].event == eventId.value
              && !Recorded(records, r.mails[k].recipient, eventId.value)
              && Recorded(r.records, r.mails[k].recipient, eventId.value))
        && r.mails[|r.mails| - 1] == SummaryMail(coordinator.pk, eventId.value,
              r.outcome.facesDetected, r.outcome.recognized, r.outcome.marked))
  {
    var r := GroupRun(records, students, events, coordinator, v, eventId, photo);
    if r.outcome.GroupCompleted? {
      var g := v.readGray(photo).value;
      var m := Train(students, v);
      var recognized := Accepted(m, v, students, g, v.detect(g));
      var e := eventId.value;
      var mode := Automatic(coordinator);
      var mk := Mark(records, recognized, e, mode);
      var notices := Notices(mk.created, e, mode);
      var summary := SummaryMail(coordinator.pk, e, |v.detect(g)|, |recognized|, |mk.created|);
      assert r == Run(GroupCompleted(|v.detect(g)|, |recognized|, |mk.created|), mk.records, notices + [summary]);
      MarkedRowsCarryMode(records, recognized, e, mode);
      MarkNotifiesOnlyCreated(records, recognized, e, mode);
      forall k | 0 <= k < |r.mails| - 1
        ensures && r.mails[k].AttendanceMail? && r.mails[k].event == e
                && !Recorded(records, r.mails[k].recipient, e) && Recorded(r.records, r.mails[k].recipient, e)
      {
        assert r.mails[k] == notices[k];
        assert MailsForCreated(records, recognized, mk, e, mode);
      }
    }
  }

  /** A group run keeps at most one row per (student, event). */
  lemma GroupKeepsUnique(records: seq<Attendance>, students: seq<Student>, events: map<nat, Event>,
                         coordinator: Student, v: Vision, eventId: Option<nat>, photo: Path)
    requires Unique(records)
    ensures Unique(GroupRun(records, students, events, coordinator, v, eventId, photo).records)
  {
    var r := GroupRun(records, students, events, coordinator, v, eventId, photo);
    if r.outcome.GroupCompleted? {
      var g := v.readGray(photo).value;
      var m := Train(students, v);
      MarkKeepsUnique(records, Accepted(m, v, students, g, v.detect(g)), eventId.value, Automatic(coordinator));
    }
  }

  /**
   * Posting the same photo for the same event again, with the same
   * students and model, recognizes the same students, creates no row,
   * leaves the table as it is and emails only the summary.
   */
  lemma GroupResubmission(records: seq<Attendance>, students: seq<Student>, events: map<nat, Event>,
                          coordinator: Student, v: Vision, eventId: Option<nat>, photo: Path)
    ensures var first := GroupRun(records, students, events, coordinator, v, eventId, photo);
      var again := GroupRun(first.records, students, events, coordinator, v, eventId, photo);
      && again.records == first.records
      && (first.outcome.GroupCompleted? ==>
            again.outcome == first.outcome.(marked := 0) && |again.mails| == 1)
  {
    var first := GroupRun(records, students, events, coordinator, v, eventId, photo);
    if first.outcome.GroupCompleted? {
      var g := v.readGray(photo).value;
      var m := Train(students, v);
      var recognized := Accepted(m, v, students, g, v.detect(g));
      Resubmission(records, recognized, eventId.value, Automatic(coordinator), Automatic(coordinator));
    }
  }

  // ---------------------------------------------------------------------
  // Manual attendance.

  /** The first active student with this primary key (the query the manual loop runs per id). */
  function FindActiveByPk(ss: seq<Student>, pk: nat): (r: Option<Student>)
    ensures r.Some? <==> exists s :: s in ss && s.isActive && s.pk == pk
    ensures r.Some? ==> r.value in ss && r.value.isActive && r.value.pk == pk
    decreases |ss|
  {
    if ss == [] then None
    else if ss[0].isActive && ss[0].pk == pk then Some(ss[0])
    else
      var r := FindActiveByPk(ss[1..], pk);
      assert forall s :: s in ss && s != ss[0] ==> s in ss[1..];
      r
  }

  /** The selected ids that name an active student, in selection order; the others are skipped. */
  function Chosen(ss: seq<Student>, ids: seq<nat>): (r: seq<Student>)
    ensures |r| <= |ids|
    decreases |ids|
  {
    if ids == [] then []
    else
      var init := Chosen(ss, ids[..|ids| - 1]);
      match FindActiveByPk(ss, ids[|ids| - 1])
      case Some(s) => init + [s]
      case None => init
  }

  /** A student is chosen exactly when it is active and one of the selected ids is its key. */
  lemma {:induction false} ChosenIff(ss: seq<Student>, ids: seq<nat>, s: Student)
    ensures s in Chosen(ss, ids) ==> s in ss && s.isActive && s.pk in ids
    ensures s in ss && s.isActive && s.pk in ids ==> exists t :: t in Chosen(ss, ids) && t.pk == s.pk
    decreases |ids|
  {
    if ids != [] {
      var init := ids[..|ids| - 1];
      var last := ids[|ids| - 1];
      ChosenIff(ss, init, s);
      assert ids == init + [last];
      if s in Chosen(ss, ids) && s !in Chosen(ss, init) {
        assert FindActiveByPk(ss, last) == Some(s);
      }
      if s in ss && s.isActive && s.pk in ids && s.pk !in init {
        assert s.pk == last;
        assert FindActiveByPk(ss, last).value in Chosen(ss, ids);
      }
    }
  }

  /**
   * `manual_attendance` on a posted form: without an event or without any
   * selected student nothing happens; an unknown event or an acting user
   * without a profile is a not-found reply; otherwise each selected active
   * student is marked present with get_or_create as a manual row carrying
   * the admin's note, and each newly marked student is emailed.
   */
  function ManualRun(records: seq<Attendance>, students: seq<Student>, events: map<nat, Event>,
                     admin: Option<Student>, eventId: Option<nat>, ids: seq<nat>, notes: string): Run
  {
    if eventId.None? || ids == [] then Run(SelectionMissing, records, [])
    else if eventId.value !in events then Run(EventNotFound, records, [])
    else if admin.None? then Run(ProfileNotFound, records, [])
    else
      var mode := ManualEntry(admin.value, notes);
      var mk := Mark(records, Chosen(students, ids), eventId.value, mode);
      Run(ManualCompleted(|mk.created|), mk.records, Notices(mk.created, eventId.value, mode))
  }

  /** The manual handler: resolve the selected ids, then mark them on the Attendance table. */
  method ManualAttendance(ledger: AttendanceTable, students: seq<Student>, events: map<nat, Event>,
                          admin: Option<Student>, eventId: Option<nat>, ids: seq<nat>, notes: string)
    returns (outcome: Outcome, mails: seq<Notice>)
    requires ledger.Valid()
    modifies ledger
    ensures ledger.Valid()
    ensures var r := ManualRun(old(ledger.records), students, events, admin, eventId, ids, notes);
      outcome == r.outcome && ledger.records == r.records && mails == r.mails
  {
    if eventId.None? || ids == [] {
      return SelectionMissing, [];
    }
    var event := eventId.value;
    if event !in events {
      return EventNotFound, [];
    }
    if admin.None? {
      return ProfileNotFound, [];
    }
    var chosen := [];
    for i := 0 to |ids|
      invariant chosen == Chosen(students, ids[..i])
    {
      assert ids[..i + 1][..i] == ids[..i];
      var student := FindActiveByPk(students, ids[i]);
      if student.Some? {
        chosen := chosen + [student.value];
      }
    }
    assert ids[..|ids|] == ids;
    var count;
    count, mails := ledger.MarkAll(chosen, event, ManualEntry(admin.value, notes));
    outcome := ManualCompleted(count);
  }

  /**
   * A manual run writes and sends nothing unless it completes; it creates
   * at most one row per selected id; its rows are manual, marked by the admin,
   * with the note "Manually marked by admin. " followed by the admin's
   * text; and each email goes to a newly marked student, giving the admin's
   * text as the reason, or the stock reason when the text is empty.
   */
  lemma ManualRecordsAndMails(records: seq<Attendance>, students: seq<Student>, events: map<nat, Event>,
                              admin: Option<Student>, eventId: Option<nat>, ids: seq<nat>, notes: string)
    ensures var r := ManualRun(records, students, events, admin, eventId, ids, notes);
      && (!r.outcome.ManualCompleted? ==> r.records == records && r.mails == [])
      && (r.outcome.ManualCompleted? ==>
        && r.outcome.marked <= |ids|
        && |r.records| == |records| + r.outcome.marked
        && (forall k :: |records| <= k < |r.records| ==>
              && r.records[k].event == eventId.value && r.records[k].isManual
              && r.records[k].markedBy == admin.value.pk
              && r.records[k].notes == Some("Manually marked by admin. " + notes))
        && (forall k :: 0 <= k < |r.mails| ==>
              && r.mails[k].AttendanceMail?
              && r.mails[k].reason == Some(if notes == "" then "Face not recognized in group photo" else notes)
              && !Recorded(records, r.mails[k].recipient, eventId.value)
              && Recorded(r.records, r.mails[k].recipient, eventId.value)))
  {
    var r := ManualRun(records, students, events, admin, eventId, ids, notes);
    if r.outcome.ManualCompleted? {
      var mode := ManualEntry(admin.value, notes);
      var chosen := Chosen(students, ids);
      MarkedRowsCarryMode(records, chosen, eventId.value, mode);
      MarkNotifiesOnlyCreated(records, chosen, eventId.value, mode);
      CreatedAtMostDistinct(records, chosen, eventId.value, mode);
    }
  }

  /** A manual run keeps at most one row per (student, event). */
  lemma ManualKeepsUnique(records: seq<Attendance>, students: seq<Student>, events: map<nat, Event>,
                          admin: Option<Student>, eventId: Option<nat>, ids: seq<nat>, notes: string)
    requires Unique(records)
    ensures Unique(ManualRun(records, students, events, admin, eventId, ids, notes).records)
  {
    if ManualRun(records, students, events, admin, eventId, ids, notes).outcome.ManualCompleted? {
      MarkKeepsUnique(records, Chosen(students, ids), eventId.value, ManualEntry(admin.value, notes));
    }
  }

  /** Submitting the same selection again for the same event creates no row and sends nothing. */
  lemma ManualResubmission(records: seq<Attendance>, students: seq<Student>, events: map<nat, Event>,
                           admin: Option<Student>, eventId: Option<nat>, ids: seq<nat>, notes: string, again: string)
    ensures var first := ManualRun(records, students, events, admin, eventId, ids, notes);
      var second := ManualRun(first.records, students, events, admin, eventId, ids, again);
      && second.records == first.records && second.mails == []
      && (first.outcome.ManualCompleted? ==> second.outcome == ManualCompleted(0))
  {
    var first := ManualRun(records, students, events, admin, eventId, ids, notes);
    if first.outcome.ManualCompleted? {
      Resubmission(records, Chosen(students, ids), eventId.value,
                   ManualEntry(admin.value, notes), ManualEntry(admin.value, again));
    }
  }

  /**
   * A superuser with no Student row passes the manual page's admin check,
   * but a complete submission by that account still stops at the profile
   * lookup: nothing is marked and nothing is sent.
   */
  lemma ManualNeedsProfile(records: seq<Attendance>, students: seq<Student>, events: map<nat, Event>,
                           u: User, event: nat, ids: seq<nat>, notes: string)
    requires u.isSuperuser && !HasProfile(students, u.id)
    requires event in events && ids != []
    ensures IsAdmin(u, ProfileOf(students, u.id))
    ensures ManualRun(records, students, events, ProfileOf(students, u.id), Some(event), ids, notes)
      == Run(ProfileNotFound, records, [])
  {
  }

  /**
   * A student recognized in a group photo and then selected by hand for
   * the same event is not marked twice: the manual run creates no row for
   * a student the group run marked.
   */
  lemma GroupThenManual(records: seq<Attendance>, students: seq<Student>, events: map<nat, Event>,
                        coordinator: Student, v: Vision, eventId: Option<nat>, photo: Path,
                        admin: Option<Student>, ids: seq<nat>, notes: string)
    ensures var first := GroupRun(records, students, events, coordinator, v, eventId, photo);
      var second := ManualRun(first.records, students, events, admin, eventId, ids, notes);
      forall k :: 0 <= k < |second.mails| ==>
        !Recorded(first.records, second.mails[k].recipient, eventId.value)
  {
    var first := GroupRun(records, students, events, coordinator, v, eventId, photo);
    ManualRecordsAndMails(first.records, students, events, admin, eventId, ids, notes);
  }

  // ---------------------------------------------------------------------
  // Any sequence of submissions.

  datatype Submission =
    | GroupPhoto(coordinator: Student, eventId: Option<nat>, photo: Path)
    | ManualSelection(admin: Option<Student>, eventId: Option<nat>, ids: seq<nat>, notes: string)

  /** The Attendance table after the submissions, one after another. */
  function Replay(records: seq<Attendance>, students: seq<Student>, events: map<nat, Event>, v: Vision,
                  subs: seq<Submission>): seq<Attendance>
    decreases |subs|
  {
    if subs == [] then records
    else
      var next := match subs[0]
        case GroupPhoto(c, e, p) => GroupRun(records, students, events, c, v, e, p).records
        case ManualSelection(a, e, ids, n) => ManualRun(records, students, events, a, e, ids, n).records;
      Replay(next, students, events, v, subs[1..])
  }

  /** However group and manual submissions interleave, no (student, event) pair is ever recorded twice. */
  lemma {:induction false} ReplayKeepsUnique(records: seq<Attendance>, students: seq<Student>, events: map<nat, Event>,
                                             v: Vision, subs: seq<Submission>)
    requires Unique(records)
    ensures Unique(Replay(records, students, events, v, subs))
    decreases |subs|
  {
    if subs != [] {
      match subs[0]
      case GroupPhoto(c, e, p) =>
        GroupKeepsUnique(records, students, events, c, v, e, p);
        ReplayKeepsUnique(GroupRun(records, students, events, c, v, e, p).records, students, events, v, subs[1..]);
      case ManualSelection(a, e, ids, n) =>
        ManualKeepsUnique(records, students, events, a, e, ids, n);
        ReplayKeepsUnique(ManualRun(records, students, events, a, e, ids, n).records, students, events, v, subs[1..]);
    }
  }

  // ---------------------------------------------------------------------
  // The attendance records page.

  /** Which rows a viewer is shown: all for an admin, its events' rows for a coordinator, its own otherwise. */
  predicate Visible(viewer: Student, events: map<nat, Event>, a: Attendance) {
    match viewer.role
    case AdminRole => true
    case CoordinatorRole => a.event in events && events[a.event].coordinator == viewer.pk
    case StudentRole => a.student == viewer.pk
  }

  function VisibleRecords(viewer: Student, events: map<nat, Event>, records: seq<Attendance>): (r: seq<Attendance>)
    ensures forall a :: a in r <==> a in records && Visible(viewer, events, a)
    ensures |r| <= |records|
    decreases |records|
  {
    if records == [] then []
    else
      (if Visible(viewer, events, records[0]) then [records[0]] else [])
        + VisibleRecords(viewer, events, records[1..])
  }

  /** The three counts shown with the records. */
  datatype RecordStats = RecordStats(faceRecognition: nat, manual: nat, uniqueStudents: nat)

  /** The number of rows whose manual flag is `manual`. */
  function CountByFlag(records: seq<Attendance>, manual: bool): nat
    decreases |records|
  {
    if records == [] then 0
    else (if records[0].isManual == manual then 1 else 0) + CountByFlag(records[1..], manual)
  }

  function StudentsOf(records: seq<Attendance>): set<nat> {
    set a | a in records :: a.student
  }

  function Stats(records: seq<Attendance>): RecordStats {
    RecordStats(CountByFlag(records, false), CountByFlag(records, true), |StudentsOf(records)|)
  }

  lemma {:induction false} StudentsOfBound(records: seq<Attendance>)
    ensures |StudentsOf(records)| <= |records|
    ensures records != [] ==> |StudentsOf(records)| >= 1
    decreases |records|
  {
    if records != [] {
      StudentsOfBound(records[1..]);
      assert StudentsOf(records) == {records[0].student} + StudentsOf(records[1..]);
    }
  }

  /**
   * The face-recognition and the manual counts split the rows shown, and
   * the distinct students shown are at least one (when any row is shown)
   * and at most the number of rows.
   */
  lemma {:induction false} StatsConsistent(records: seq<Attendance>)
    ensures Stats(records).faceRecognition + Stats(records).manual == |records|
    ensures Stats(records).uniqueStudents <= |records|
    ensures records != [] ==> Stats(records).uniqueStudents >= 1
    decreases |records|
  {
    if records != [] {
      StatsConsistent(records[1..]);
    }
    StudentsOfBound(records);
  }

  /** Filtering keeps a table free of duplicate (student, event) rows. */
  lemma {:induction false} VisibleKeepsUnique(viewer: Student, events: map<nat, Event>, records: seq<Attendance>)
    requires Unique(records)
    ensures Unique(VisibleRecords(viewer, events, records))
    decreases |records|
  {
    if records != [] {
      var rest := records[1..];
      assert Unique(rest) by {
        forall i, j | 0 <= i < j < |rest|
          ensures rest[i].student != rest[j].student || rest[i].event != rest[j].event
        {
          assert rest[i] == records[i + 1] && rest[j] == records[j + 1];
        }
      }
      VisibleKeepsUnique(viewer, events, rest);
      var tail := VisibleRecords(viewer, events, rest);
      forall a | a in tail ensures a.student != records[0].student || a.event != records[0].event {
        var j :| 0 <= j < |rest| && rest[j] == a;
        assert records[j + 1] == a;
      }
    }
  }

  /**
   * A student sees only its own rows, so its distinct-students count is at
   * most one, and each of its events at most once.
   */
  lemma StudentSeesOwnRows(viewer: Student, events: map<nat, Event>, records: seq<Attendance>)
    requires viewer.role == StudentRole
    requires Unique(records)
    ensures var r := VisibleRecords(viewer, events, records);
      && Stats(r).uniqueStudents <= 1
      && forall i, j :: 0 <= i < j < |r| ==> r[i].event != r[j].event
  {
    var r := VisibleRecords(viewer, events, records);
    assert StudentsOf(r) <= {viewer.pk};
    SubsetCard(StudentsOf(r), {viewer.pk});
    VisibleKeepsUnique(viewer, events, records);
    forall i, j | 0 <= i < j < |r| ensures r[i].event != r[j].event {
      assert r[i] in r && r[j] in r;
    }
  }
}
