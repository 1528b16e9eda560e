/**
 * The record shapes of the attendance application (its Student, Event,
 * Attendance and User rows), their field defaults, the `STU0042` default
 * student id, and the table of students, users and events that the
 * approval views and the post-save signal update in place.
 */
module Models {
  import opened Wrappers

  /** A file name as stored in an image field; the empty name means "no file". */
  type Path = string

  datatype Role = AdminRole | CoordinatorRole | StudentRole

  /** The choices shared by `Student.approval_status` and `Event.status`. */
  datatype Status = Pending | Approved | Rejected

  /**
   * A login account. `fullName` is what the account reports as its full
   * name (empty when none is set); `tempStudentId` is the transient
   * attribute a registration form attaches before saving.
   */
  datatype User = User(
    id: nat,
    username: string,
    fullName: string,
    email: string,
    isSuperuser: bool,
    isActive: bool,
    tempStudentId: Option<string>)

  /** One Student row; `pk` is its primary key, `userId` its one-to-one account. */
  datatype Student = Student(
    pk: nat,
    userId: nat,
    studentId: string,
    name: string,
    email: string,
    phone: string,
    role: Role,
    photo: Path,
    approval: Status,
    isActive: bool)

  /** One Event row; `coordinator` is the primary key of the coordinating Student. */
  datatype Event = Event(id: nat, title: string, coordinator: nat, status: Status)

  /** One Attendance row; `student`, `event` and `markedBy` are primary keys. */
  datatype Attendance = Attendance(
    student: nat,
    event: nat,
    markedBy: nat,
    isManual: bool,
    notes: Option<string>)

  /**
   * What the application sends out, addressed by the recipient's Student
   * key: an in-app notification, or an email (attendance marked, the group
   * summary for the coordinator, an event decision for its coordinator).
   */
  datatype Notice =
    | Notify(recipient: nat, title: string)
    | AttendanceMail(recipient: nat, event: nat, markedBy: nat, reason: Option<string>)
    | SummaryMail(recipient: nat, event: nat, facesDetected: nat, recognized: nat, marked: nat)
    | EventMail(recipient: nat, event: nat, approved: bool)

  /** A Student row as created with only the given fields set: every other field takes its default. */
  function NewStudent(pk: nat, userId: nat, studentId: string, name: string, email: string): Student
  {
    Student(pk, userId, studentId, name, email, "", StudentRole, "", Pending, true)
  }

  /** An Event row as created: its status defaults to pending. */
  function NewEvent(id: nat, title: string, coordinator: nat): Event
  {
    Event(id, title, coordinator, Pending)
  }

  /** An Attendance row as created with only its keys and marker set: not manual, no notes. */
  function NewAttendance(student: nat, event: nat, markedBy: nat): Attendance
  {
    Attendance(student, event, markedBy, false, None)
  }

  /** `Student.__str__`: the name followed by the student id in parentheses. */
  function StudentLabel(s: Student): string
  {
    s.name + " (" + s.studentId + ")"
  }

  lemma StudentLabelParts(s: Student)
    ensures var r := StudentLabel(s);
      && |r| == |s.name| + |s.studentId| + 3
      && r[..|s.name|] == s.name
      && r[|s.name|..|s.name| + 2] == " ("
      && r[|s.name| + 2..|r| - 1] == s.studentId
      && r[|r| - 1] == ')'
  {
  }

  // ---------------------------------------------------------------------
  // Decimal rendering for the default student id, `f"STU{id:04d}"`.

  predicate AllDigits(s: string) {
    forall i :: 0 <= i < |s| ==> '0' <= s[i] <= '9'
  }

  function DigitChar(d: nat): char
    requires d < 10
  {
    ('0' as int + d) as char
  }

  /** The decimal digits of `n`, most significant first, without leading zeros. */
  function Decimal(n: nat): (s: string)
    ensures 1 <= |s| && AllDigits(s)
    decreases n
  {
    if n < 10 then [DigitChar(n)] else Decimal(n / 10) + [DigitChar(n % 10)]
  }

  /** The number a string of decimal digits denotes (leading zeros allowed). */
  function ValueOf(s: string): nat
    requires AllDigits(s)
    decreases |s|
  {
    if s == [] then 0 else 10 * ValueOf(s[..|s| - 1]) + (s[|s| - 1] as int - '0' as int)
  }

  function Zeros(k: nat): (z: string)
    ensures |z| == k && AllDigits(z)
  {
    seq(k, _ => '0')
  }

  /** Left-pads `s` with '0' to at least `width` characters (the `0w` format flag). */
  function ZeroPad(s: string, width: nat): (r: string)
    ensures |r| == if |s| >= width then |s| else width
  {
    if |s| >= width then s else Zeros(width - |s|) + s
  }

  /** `f"STU{id:04d}"` for a non-negative user id. */
  function DefaultStudentId(userId: nat): string
  {
    "STU" + ZeroPad(Decimal(userId), 4)
  }

  function Pow10(k: nat): (p: nat)
    ensures p >= 1
  {
    if k == 0 then 1 else 10 * Pow10(k - 1)
  }

  lemma {:induction false} ValueOfDecimal(n: nat)
    ensures ValueOf(Decimal(n)) == n
    decreases n
  {
    var s := Decimal(n);
    if n >= 10 {
      ValueOfDecimal(n / 10);
      assert s[..|s| - 1] == Decimal(n / 10);
    }
  }

  lemma {:induction false} ValueOfZeros(k: nat)
    ensures ValueOf(Zeros(k)) == 0
  {
    if k > 0 {
      assert Zeros(k)[..k - 1] == Zeros(k - 1);
      ValueOfZeros(k - 1);
    }
  }

  lemma {:induction false} ValueOfIgnoresLeadingZeros(k: nat, s: string)
    requires AllDigits(s)
    ensures AllDigits(Zeros(k) + s) && ValueOf(Zeros(k) + s) == ValueOf(s)
    decreases |s|
  {
    var t := Zeros(k) + s;
    if s == [] {
      assert t == Zeros(k);
      ValueOfZeros(k);
    } else {
      assert t[..|t| - 1] == Zeros(k) + s[..|s| - 1];
      ValueOfIgnoresLeadingZeros(k, s[..|s| - 1]);
    }
  }

  lemma {:induction false} DecimalLength(n: nat, k: nat)
    requires 1 <= k && n < Pow10(k)
    ensures |Decimal(n)| <= k
    decreases k
  {
    if n >= 10 {
      assert k >= 2;
      DecimalLength(n / 10, k - 1);
    }
  }

  /** A positive number is written without a leading zero. */
  lemma {:induction false} DecimalLeadingDigit(n: nat)
    requires n >= 1
    ensures Decimal(n)[0] != '0'
    decreases n
  {
    if n >= 10 {
      DecimalLeadingDigit(n / 10);
      assert Decimal(n)[0] == Decimal(n / 10)[0];
    }
  }

  /** A number of at least 10^k needs more than k digits. */
  lemma {:induction false} DecimalAtLeast(n: nat, k: nat)
    requires n >= Pow10(k)
    ensures |Decimal(n)| >= k + 1
    decreases k
  {
    if k > 0 {
      assert n >= 10 && n / 10 >= Pow10(k - 1);
      DecimalAtLeast(n / 10, k - 1);
    }
  }

  /**
   * The default student id is "STU" followed by the user id in decimal,
   * zero-padded to at least four digits: exactly seven characters for ids
   * below 10000, more for larger ids, and the digits after "STU" denote the
   * user id again; from 1000 on no padding is added, so the digits are the
   * plain decimal rendering with no leading zero.
   */
  lemma DefaultStudentIdDecodes(userId: nat)
    ensures var r := DefaultStudentId(userId);
      && 7 <= |r|
      && (userId < 10000 <==> |r| == 7)
      && r[..3] == "STU"
      && AllDigits(r[3..])
      && ValueOf(r[3..]) == userId
      && (userId >= 1000 ==> r[3..] == Decimal(userId) && r[3] != '0')
  {
    var d := Decimal(userId);
    var r := DefaultStudentId(userId);
    assert r[3..] == ZeroPad(d, 4);
    ValueOfDecimal(userId);
    if |d| < 4 {
      ValueOfIgnoresLeadingZeros(4 - |d|, d);
    }
    assert Pow10(1) == 10 && Pow10(2) == 100;
    assert Pow10(3) == 1000 && Pow10(4) == 10000;
    if userId < 10000 {
      DecimalLength(userId, 4);
    } else {
      DecimalAtLeast(userId, 4);
    }
    if userId >= 1000 {
      DecimalAtLeast(userId, 3);
      DecimalLeadingDigit(userId);
      assert r[3] == d[0];
    }
  }

  /** Distinct user ids never share a default student id. */
  lemma DefaultStudentIdInjective(a: nat, b: nat)
    requires DefaultStudentId(a) == DefaultStudentId(b)
    ensures a == b
  {
    DefaultStudentIdDecodes(a);
    DefaultStudentIdDecodes(b);
  }

  // ---------------------------------------------------------------------
  // The Student table and its uniqueness constraints.

  /** Primary keys, student ids (declared unique) and accounts (one-to-one) are pairwise distinct. */
  predicate DistinctStudents(ss: seq<Student>) {
    forall i, j :: 0 <= i < j < |ss| ==>
      ss[i].pk != ss[j].pk && ss[i].studentId != ss[j].studentId && ss[i].userId != ss[j].userId
  }

  /** The next auto-increment key: larger than every key in use. */
  function NextPk(ss: seq<Student>): (r: nat)
    ensures r >= 1
    ensures forall i :: 0 <= i < |ss| ==> ss[i].pk < r
  {
    if ss == [] then 1
    else
      var rest := NextPk(ss[1..]);
      if ss[0].pk + 1 > rest then ss[0].pk + 1 else rest
  }

  predicate StudentIdTaken(ss: seq<Student>, sid: string) {
    exists i :: 0 <= i < |ss| && ss[i].studentId == sid
  }

  predicate HasProfile(ss: seq<Student>, userId: nat) {
    exists i :: 0 <= i < |ss| && ss[i].userId == userId
  }

  /** The student id a new profile gets: the form-supplied one, else `STU` and the padded user id. */
  function ProfileStudentId(u: User): string {
    u.tempStudentId.GetOr(DefaultStudentId(u.id))
  }

  /** The name a new profile gets: the full name, or the username when that is empty. */
  function ProfileName(u: User): string {
    if u.fullName != "" then u.fullName else u.username
  }

  datatype ProfileOutcome =
    | Unchanged               // the account was updated, not created
    | ProfileCreated(student: Student)
    | IntegrityError          // a unique constraint refused the insert

  /** What the post-save signal does for a saved account, given the current Student rows. */
  function ProfileFor(ss: seq<Student>, u: User, created: bool): ProfileOutcome {
    if !created then Unchanged
    else
      var sid := ProfileStudentId(u);
      if StudentIdTaken(ss, sid) || HasProfile(ss, u.id) then IntegrityError
      else ProfileCreated(NewStudent(NextPk(ss), u.id, sid, ProfileName(u), u.email))
  }

  /**
   * The signal acts only on creation; the profile it adds has the student
   * role, is pending approval and active, has no photo, carries the
   * supplied or default student id and the name fallback, and keeps the
   * table's uniqueness constraints.
   */
  lemma ProfileForDefaults(ss: seq<Student>, u: User, created: bool)
    requires DistinctStudents(ss)
    ensures !created ==> ProfileFor(ss, u, created) == Unchanged
    ensures ProfileFor(ss, u, created).ProfileCreated? ==>
      var s := ProfileFor(ss, u, created).student;
      && created
      && s.role == StudentRole && s.approval == Pending && s.isActive && s.photo == ""
      && s.userId == u.id && s.email == u.email
      && (u.tempStudentId.Some? ==> s.studentId == u.tempStudentId.value)
      && (u.tempStudentId.None? ==> s.studentId == DefaultStudentId(u.id))
      && s.name == (if u.fullName == "" then u.username else u.fullName)
      && DistinctStudents(ss + [s])
  {
    if ProfileFor(ss, u, created).ProfileCreated? {
      var s := ProfileFor(ss, u, created).student;
      var t := ss + [s];
      assert !StudentIdTaken(ss, s.studentId) && !HasProfile(ss, u.id);
      forall i, j | 0 <= i < j < |t|
        ensures t[i].pk != t[j].pk && t[i].studentId != t[j].studentId && t[i].userId != t[j].userId
      {
        if j == |ss| {
          assert t[i] == ss[i];
        }
      }
    }
  }

  /**
   * The tables the approval views and the post-save signal write: Student
   * rows, accounts by id and events by id.
   */
  class Store {
    var students: seq<Student>
    var users: map<nat, User>
    var events: map<nat, Event>

    ghost predicate Valid()
      reads this
    {
      && DistinctStudents(students)
      && (forall i :: 0 <= i < |students| ==> students[i].userId in users)
      && (forall id :: id in users ==> users[id].id == id)
      && (forall id :: id in events ==> events[id].id == id)
    }

    constructor ()
      ensures Valid()
      ensures students == [] && users == map[] && events == map[]
    {
      students, users, events := [], map[], map[];
    }

    /**
     * The post-save signal for accounts: on creation only, insert the
     * default Student profile; a clash on the unique student id or on the
     * one-to-one account inserts nothing.
     */
    method CreateStudentProfile(u: User, created: bool) returns (outcome: ProfileOutcome)
      requires Valid()
      requires u.id in users
      modifies this
      ensures Valid()
      ensures users == old(users) && events == old(events)
      ensures outcome == ProfileFor(old(students), u, created)
      ensures students == if outcome.ProfileCreated? then old(students) + [outcome.student] else old(students)
    {
      outcome := ProfileFor(students, u, created);
      if outcome.ProfileCreated? {
        ProfileForDefaults(students, u, created);
        students := students + [outcome.student];
      }
    }
  }
}
