# Face-recognition attendance: a Dafny model

This project models the decision logic of an NSS event-attendance web
application. In the application:

- students register and wait for an administrator to approve them;
- coordinators run approved events;
- a coordinator uploads a group photo of an event, and every student whose
  face the recognizer knows is marked present;
- an administrator can also mark students present by hand.

The face detector and the LBPH face classifier are treated as opaque
services. Everything around them is modelled and proved:

- how the training set and its label map are built;
- which face is accepted;
- the Attendance table and its one-row-per-(student, event) rule;
- the two attendance handlers, the approval handlers, the role checks and
  the counts on the records page.

The modules:

- `Wrappers` (`wrappers.dfy`): an `Option` type and dictionary lookup.
- `Models` (`models.dfy`): the Student, Event, Attendance and User records
  and their field defaults. It also holds the `STU0042` default student id
  and the post-save signal that creates a Student profile for a new
  account. That signal is a method on the `Store` class, which holds the
  Student, User and Event tables.
- `FaceUtils` (`face_utils.dfy`): the recognizer.
  - The image services are the fields of a `Vision` value: file existence,
    decoding to gray, face detection, and prediction by a classifier
    trained on given patches and labels.
  - Training is a nested loop (`CollectSamples`) proved against a
    specification (`Train`). Properties of `Train` are proved as lemmas.
  - Recognition is a loop with early return (`MatchFirstFace`) proved
    against `FirstMatch`.
  - The recognizer object is the class `FaceRecognizer`. Its state is
    `Untrained` until a training collects at least one face.
- `Ledger` (`ledger.dfy`): the Attendance table as a class holding a
  sequence of rows.
  - `GetOrCreate` is `get_or_create` with its defaults.
  - `MarkAll` is the marking loop that both attendance handlers run.
  - `Mark` specifies the loop: the new table, and the students whose rows
    were created, in order.
- `Views` (`views.dfy`): the handlers.
  - Each attendance handler is a module-level method (`GroupAttendance`,
    `ManualAttendance`) that takes the Attendance table as a parameter. It
    is proved against a specification function (`GroupRun`, `ManualRun`).
  - The lemmas state what the handlers promise across calls: uniqueness,
    counts, which rows and emails appear, and that resubmission is a no-op.

Emails and in-app notifications are not delivered. A handler returns them
as a list of `Notice` values, addressed by the recipient's Student key.

## Model

| member | source | states |
|---|---|---|
| Models.StudentLabelParts | models.py:34-35 | A student's display string is its name, then " (", the student id and ")". |
| Models.DefaultStudentIdDecodes | models.py:114 | The default student id is "STU" followed by decimal digits whose value is the account id. It has exactly 7 characters when the id is below 10000 and more otherwise. From id 1000 on, the digits are the plain decimal rendering of the id, with no leading zero. |
| Models.DefaultStudentIdInjective | models.py:114 | Different accounts get different default student ids. |
| Models.ValueOfDecimal | models.py:114 | The decimal rendering of a number reads back as that number. |
| Models.ValueOfIgnoresLeadingZeros | models.py:114 | Zero padding does not change the value of a digit string. |
| Models.DecimalLength | models.py:114 | A number below 10^k has at most k decimal digits, so padding it to 4 gives 4 digits when it is below 10000. |
| Models.NextPk | models.py:10-32 | The key a new row gets is larger than every key in use. |
| Models.ProfileForDefaults | models.py:109-117 | The signal acts only when the account is created. The profile it creates has the student role, is pending approval, is active and has no photo. Its student id is the one the form supplied, else the default. Its name is the full name, or the username when that is empty. Student keys, student ids and accounts stay unique. |
| Models.Store.CreateStudentProfile | models.py:109-117 | Inserts the profile described by `ProfileFor` and nothing else. A clash on the unique student id or on the one-to-one account inserts nothing. The store invariant is kept. |
| FaceUtils.ActiveStudents | face_utils.py:22 | Exactly the active students are walked. |
| FaceUtils.StudentSamples | face_utils.py:25-46 | A student without a photo, with a missing file, or with a photo that does not decode contributes no face. Otherwise it contributes one face per detected region. |
| FaceUtils.StudentSampleAt | face_utils.py:38-45 | Sample k of a student is the k-th detected region of its decoded photo, labelled with its student id. |
| FaceUtils.CollectSamples | face_utils.py:17-46 | The nested loop appends, per detected face, its patch, the next consecutive label and the label-to-student-id entry. The result is the patches, labels 0..n-1 and label map of the specification. |
| FaceUtils.TrainSucceedsIff | face_utils.py:48-55 | Training succeeds exactly when some active student has a readable photo with at least one detected face. |
| FaceUtils.TrainedLabelsMapToTheirFaces | face_utils.py:38-50 | After training, the labels are 0, 1, ..., n-1, one per face. The label map has exactly those keys. Each label maps to the student id of an active student whose photo exists and decodes, and the label's face is a region detected in that photo. |
| FaceUtils.StudentOwnsConsecutiveLabels | face_utils.py:24-46 | A student with k detected faces owns k consecutive labels. They start after the faces of the active students before it, and each maps to its student id. |
| FaceUtils.FlattenEmptyIff | face_utils.py:48 | No face is collected exactly when every student contributes none. |
| FaceUtils.FlattenSlice | face_utils.py:42-46 | A student's faces occupy one consecutive block of the training list. |
| FaceUtils.FlattenOrigin | face_utils.py:42-46 | Every training face comes from one student's photo. |
| FaceUtils.ModelAt | face_utils.py:42-45 | Entry l of the trained model is sample l's patch, label l, and l mapped to sample l's owner. |
| FaceUtils.ModelAppend | face_utils.py:42-46 | One loop step appends one patch, the next label and one map entry. |
| FaceUtils.FirstMatchIff | face_utils.py:82-94 | Recognition returns `id` exactly when the first face, in detection order, with distance strictly below 70 has a label mapped to `id`. A distance of exactly 70 is rejected. |
| FaceUtils.FirstMatchIgnoresLaterFaces | face_utils.py:82-92 | Faces after an accepted face never change the result. |
| FaceUtils.MatchFirstFace | face_utils.py:82-94 | The loop with early return computes `FirstMatch`. |
| FaceUtils.DetectFace | face_utils.py:109-125 | True exactly when the image decodes and at least one face is detected in it. |
| FaceUtils.RecognizeNeedsModelAndFace | face_utils.py:64-94 | Recognition yields an id only when the model is trained, the image decodes, a face is detected and some face is accepted. An untrainable enrolment never recognizes anything. |
| FaceUtils.FaceRecognizer.constructor | face_utils.py:8-12 | A new recognizer has no label map. |
| FaceUtils.FaceRecognizer.LoadAndTrain | face_utils.py:14-59 | Returns true exactly when a face was collected. Only then is the model replaced by the trained one; otherwise the state is unchanged. |
| FaceUtils.FaceRecognizer.RecognizeFace | face_utils.py:61-98 | Trains first when there is no label map. The result is `Recognize` of the state before the call. |
| FaceUtils.FaceRecognizer.VerifyFace | face_utils.py:100-107 | True exactly when recognition returns this student id. |
| Ledger.Mark | views.py:562-572 | A batch keeps the earlier rows as they were. It appends exactly one row per created student: that student's key, the event and the mode's defaults. |
| Ledger.MarkKeepsUnique | models.py:81-82 | A batch keeps at most one row per (student, event). |
| Ledger.MarkCovers | views.py:562-570 | After a batch every student in it has a row for the event, and no earlier row is lost. |
| Ledger.MarkCreatesOnlyMissing | views.py:562-572 | Rows are created only for students of the batch that had none, and each such student at most once. Duplicate recognitions are absorbed. |
| Ledger.MarkedRowsCarryMode | views.py:562-570 | Group rows are not manual, have no note and are marked by the coordinator. Manual rows (views.py:812-816) are manual, are marked by the admin and carry "Manually marked by admin. " plus the admin's note. |
| Ledger.MarkNotifiesOnlyCreated | views.py:571-592 | The k-th email (here and at views.py:818-841) goes to the k-th newly created student, which had no row before and has one after. No one else is emailed. |
| Ledger.MarkAllRecordedIsNoOp | views.py:562-572 | A batch in which everyone already has a row changes nothing and creates nothing. |
| Ledger.Resubmission | views.py:562-572 | Marking the same batch again, in either mode, creates nothing and changes nothing. |
| Ledger.CreatedAtMostDistinct | views.py:561-572 | The number of rows created is at most the number of distinct students in the batch, and so at most its length. |
| Ledger.DistinctKeysCount | views.py:561-572 | Students with pairwise distinct keys are as many as their keys. |
| Ledger.KeysCountAtMost | views.py:556 | A batch has at most as many distinct students as entries. |
| Ledger.AttendanceTable.constructor | models.py:81-82 | The empty table satisfies the uniqueness rule. |
| Ledger.AttendanceTable.GetOrCreate | views.py:563-570 | Creates a row exactly when none exists for (student, event); the created row is built from the defaults. Otherwise it returns the existing row and leaves the table unchanged. Uniqueness is kept. |
| Ledger.AttendanceTable.MarkAll | views.py:561-592 | The loop leaves the table of `Mark`. The count is the number of rows created, and one email goes out per created row. |
| Views.ProfileOf | views.py:20-36 | An account has a profile exactly when a Student row points to it. |
| Views.RoleChecks | views.py:219-220 | The second admin check is: a superuser, or a profile with the admin role. The coordinator check (views.py:32-33) is: a profile with the admin or the coordinator role. A superuser without a profile passes the first and fails the second. |
| Views.AdminChecksDiffer | views.py:20-21 | The first admin check (a profile with the admin role) guards the student list and the student approve and reject pages (views.py:174-196). The second (views.py:219-220) guards the pages defined after it. They differ exactly on a superuser without an admin-role profile, whom only the second admits. Whoever passes the first passes the second and the coordinator check. |
| Views.AccountWithoutProfile | views.py:20-36 | On an account's own profile: without a Student row it fails the first admin check and the coordinator check, and passes the second admin check exactly when it is a superuser. |
| Views.IndexOfStudentId | views.py:183 | The lookup finds the first row with the student id, and finds one exactly when the id is in use. |
| Views.DecidedStudents | views.py:181-206 | A decision changes only the approval status of the row found. |
| Views.LastStudentDecisionWins | views.py:181-206 | Of two decisions on one student, the later one is what remains. |
| Views.DecideStudent | views.py:181-206 | Reached through the first admin check (views.py:20-21). Approve sets the status to approved and activates the account; reject sets rejected and deactivates it. Either way the student gets one notification. An unknown id changes nothing. |
| Views.DecidedEvents | views.py:420-484 | A decision changes only the status of that event. |
| Views.LastEventDecisionWins | views.py:420-484 | Of two decisions on one event, the later one is what remains. |
| Views.NewEventAwaitsDecision | models.py:61 | A new event is pending. One decision (views.py:420-484) makes it approved or rejected and leaves its other fields and every other event unchanged. |
| Views.DecideEvent | views.py:420-484 | Sets the status to approved or rejected. The coordinator gets a notification, and also an email unless the request came from a script. An unknown event changes nothing. |
| Views.FindActive | views.py:555 | The lookup finds an active student with the id exactly when one exists. |
| Views.ResolveFace | views.py:548-558 | A face yields a student exactly when its distance is below 70, its label is mapped to a non-empty student id, and an active student has that id. |
| Views.Accepted | views.py:544-558 | At most one recognized student per detected face. |
| Views.AcceptedIff | views.py:544-558 | A student is recognized exactly when some face resolves to it. Faces that fail to resolve are skipped without ending the loop. |
| Views.AcceptedAreActive | views.py:555-556 | Every recognized student is an active student. |
| Views.RecognizeGroup | views.py:544-558 | The per-face loop computes `Accepted`. |
| Views.GroupAttendance | views.py:489-623 | The handler leaves the outcome, table and emails of `GroupRun`. It uses a fresh recognizer that is always trained first. |
| Views.GroupWritesOnlyWhenCompleted | views.py:498-617 | Without a selected event, with an unknown event, with an unreadable photo, with no faces detected or with failed training, nothing is written or sent. No faces detected and recognition error each happen exactly under their condition. |
| Views.GroupPhotoNeedsFace | views.py:521-537 | With a known event, the group handler stops with invalid image or no faces detected exactly when `detect_face` rejects the photo, and then writes and sends nothing. Invalid image happens exactly when the photo does not decode. |
| Views.GroupCounts | views.py:561-604 | marked <= recognized <= faces detected. At least one face was detected. One row is added per mark, and the run sends one email per mark plus the summary. |
| Views.GroupRecordsAndMails | views.py:561-604 | The new rows are for the chosen event, are not manual, have no note and are marked by the coordinator. Every email but the closing summary goes to a student that had no row before and has one now. |
| Views.GroupKeepsUnique | models.py:81-82 | A group run keeps at most one row per (student, event). |
| Views.GroupResubmission | views.py:561-572 | Posting the same photo again creates nothing, changes nothing and sends only the summary. |
| Views.FindActiveByPk | views.py:810 | The lookup finds an active student with the key exactly when one exists. |
| Views.ChosenIff | views.py:808-844 | Selected keys of active students are marked. Other keys are skipped. |
| Views.ManualAttendance | views.py:787-847 | The handler leaves the outcome, table and emails of `ManualRun`. |
| Views.ManualRecordsAndMails | views.py:796-844 | Without an event or a selection, or with an unknown event or no admin profile, nothing is written. Otherwise at most one row is created per selected id. The rows are manual, are marked by the admin and carry the prefixed note. Each email goes to a newly marked student and gives the admin's note, or the stock reason when the note is empty. |
| Views.ManualKeepsUnique | models.py:81-82 | A manual run keeps at most one row per (student, event). |
| Views.ManualNeedsProfile | views.py:803 | A superuser without a Student row passes the manual page's admin check, yet a complete submission stops at the profile lookup with nothing written or sent. |
| Views.ManualResubmission | views.py:809-819 | Submitting the same selection again creates nothing and sends nothing. |
| Views.GroupThenManual | views.py:809-819 | A student marked from a group photo (views.py:562-570) is not emailed again when later selected by hand for the same event. |
| Views.ReplayKeepsUnique | models.py:81-82 | Any interleaving of group and manual submissions keeps at most one row per (student, event). |
| Views.VisibleRecords | views.py:712-720 | An admin sees every row. A coordinator sees the rows of its events. Anyone else sees their own rows. |
| Views.StudentsOfBound | views.py:725 | The number of distinct students shown is between 1 (when any row is shown) and the number of rows. |
| Views.StatsConsistent | views.py:723-725 | The face-recognition count and the manual count add up to the rows shown. The distinct-student count is at most the rows shown. |
| Views.VisibleKeepsUnique | views.py:712-720 | Filtering rows for a viewer keeps the uniqueness rule. |
| Views.StudentSeesOwnRows | views.py:719-725 | A student's distinct-student count is at most one, and it sees each event at most once. |
| Wrappers.Get | views.py:552 | A dictionary lookup finds a value exactly when the key is present, and it is the stored value. |

## Left out

**Foreign services**
- The image library is a parameter (`Vision`):
  - image decoding, gray conversion, cropping and resizing to 100x100;
  - the cascade detector;
  - the LBPH classifier's training and prediction.
- Only the strict comparison of the returned distance with 70 is modelled. Distances are reals, not floating point.
- File I/O is not modelled: saving the upload to a temporary file, removing it, and the photo deletion in `Student.delete`.
- Email and notification delivery is not modelled. Failed sends are swallowed in the source, so they change nothing modelled. Timestamps, message bodies and subjects are not modelled.
- Exceptions raised inside the image services or during training are not modelled. In the source they make `recognize_face`, `verify_face` and `detect_face` return None or False, and make training return False.
  - The one modelled failure is prediction without a trained model. In the model this is the only way a group request ends in its catch-all error; in the source, image-library and database errors also reach it (views.py:616).

**Request plumbing**
- Rendering, redirects and messages are not modelled, and neither are the GET pages and their listing queries.
- Login and decorators are not modelled. The handlers take the acting user's profile as a parameter, and the group handler assumes the profile that the coordinator check guarantees.
- The optional event id in the group and manual URLs is not modelled. Its only effect is an early 404 before the form is read.
- Non-numeric event or student ids in a form are not modelled. In the source they raise a ValueError that the handlers do not catch. The model takes ids as numbers.
- The earlier `manual_attendance` (views.py:638-707) is not modelled. Python rebinds the name later in the module (views.py:787), and the later binding is the one modelled.
- Both `is_admin` bindings are modelled. A decorator is evaluated where its view is defined, so the student list and the student approve and reject pages use the first (`Views.IsProfileAdmin`), and every admin page defined after views.py:219 uses the second (`Views.IsAdmin`).
- `Views.FindActive`, `Views.FindActiveByPk` and `Views.IndexOfStudentId` return the first match. The unique constraint on student ids makes that the only match. A duplicated id, which would raise in the source, is not modelled.

**Tables and ordering**
- Query ordering (`order_by('-attendance_time')`, `-created_at`) and creation timestamps are not modelled. Rows are kept in insertion order.
- Field length limits are not modelled.
- `Models.NextPk`: the next primary key is modelled as one more than the largest key in use. This is the only property the model relies on. The database's actual auto-increment value is not modelled.
- Concurrent requests racing on `get_or_create` are not modelled. Writes are sequential.

**Order of work in the manual handler**
- The source interleaves lookups and `get_or_create` per selected id. `Views.ManualAttendance` resolves all ids first and then marks.
  - The lookups read only the Student table, which the loop never writes, so the rows, counts and emails come out in the same order.

**Other files**
- forms.py is not part of this model. The registration forms only feed `temp_student_id` to the signal; `Models.User.tempStudentId` stands for it. A form that sets it to None is not modelled.
- The commented-out signal handlers in models.py are dead code.
