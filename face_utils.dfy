/**
 * The face recognizer: training a label-per-face model from the photos of
 * active students, and recognizing the first acceptable face of an image.
 *
 * The image library is not modelled; its four services are the fields of
 * a `Vision` value (total functions the caller supplies):
 *   - `fileExists` is the file-system existence test of a photo path,
 *   - `readGray` reads an image and converts it to gray (None: unreadable),
 *   - `detect` is the frontal-face cascade with scale factor 1.1, five
 *     neighbours and a 30x30 minimum size, returning rectangles in order,
 *   - `predict` is the LBPH classifier trained on the given patches and
 *     labels, applied to one patch; it returns a label and a distance
 *     ("confidence", lower is a closer match).
 */
module FaceUtils {
  import opened Wrappers
  import opened Models

  /** A grayscale intensity matrix. */
  type Gray = seq<seq<int>>

  /** A face rectangle (x, y, width, height) as the detector reports it. */
  datatype Rect = Rect(x: int, y: int, w: int, h: int)

  /** The patch cut out of `image` at `region` and resized to 100 x 100 pixels. */
  datatype Patch = Patch(image: Gray, region: Rect)

  datatype Prediction = Prediction(classLabel: int, confidence: real)

  datatype Vision = Vision(
    fileExists: Path -> bool,
    readGray: Path -> Option<Gray>,
    detect: Gray -> seq<Rect>,
    predict: (seq<Patch>, seq<int>, Patch) -> Prediction)

  /** A prediction is accepted when its distance is strictly below this. */
  const Threshold: real := 70.0

  /**
   * The recognizer's state. Before a successful training there is no label
   * map; afterwards the classifier holds the training patches with their
   * labels, and `labelIds` maps each label to a student id.
   */
  datatype ModelState =
    | Untrained
    | Trained(faces: seq<Patch>, labels: seq<int>, labelIds: map<int, string>)

  /** One training face and the student id it was enrolled under. */
  datatype Sample = Sample(patch: Patch, owner: string)

  // ---------------------------------------------------------------------
  // What training collects.

  /** The rows of the active-students query, in table order. */
  function ActiveStudents(ss: seq<Student>): (r: seq<Student>)
    ensures forall s :: s in r ==> s in ss && s.isActive
    ensures forall s :: s in ss && s.isActive ==> s in r
  {
    if ss == [] then []
    else (if ss[0].isActive then [ss[0]] else []) + ActiveStudents(ss[1..])
  }

  /** The gray photo of a student: none without a photo, with a missing file, or when it does not decode. */
  function PhotoGray(s: Student, v: Vision): Option<Gray> {
    if s.photo != "" && v.fileExists(s.photo) then v.readGray(s.photo) else None
  }

  /** One sample per face detected in the student's photo, in detection order. */
  function StudentSamples(s: Student, v: Vision): (r: seq<Sample>)
    ensures PhotoGray(s, v).None? ==> r == []
    ensures PhotoGray(s, v).Some? ==> |r| == |v.detect(PhotoGray(s, v).value)|
  {
    match PhotoGray(s, v)
    case None => []
    case Some(g) =>
      var rects := v.detect(g);
      seq(|rects|, k requires 0 <= k < |rects| => Sample(Patch(g, rects[k]), s.studentId))
  }

  /** Sample k of a student is face k of its photo, labelled with its student id. */
  lemma StudentSampleAt(s: Student, v: Vision, k: nat)
    requires k < |StudentSamples(s, v)|
    ensures var x := StudentSamples(s, v)[k];
      && x.owner == s.studentId
      && PhotoGray(s, v) == Some(x.patch.image)
      && x.patch.region == v.detect(x.patch.image)[k]
  {
  }

  /** The parts concatenated in order. */
  function Flatten<T>(parts: seq<seq<T>>): seq<T>
    decreases |parts|
  {
    if parts == [] then [] else Flatten(parts[..|parts| - 1]) + parts[|parts| - 1]
  }

  /** The samples of each student, in table order. */
  function Parts(ss: seq<Student>, v: Vision): (r: seq<seq<Sample>>)
    ensures |r| == |ss|
  {
    seq(|ss|, i requires 0 <= i < |ss| => StudentSamples(ss[i], v))
  }

  /** The samples of all the given students, student by student. */
  function Samples(ss: seq<Student>, v: Vision): seq<Sample> {
    Flatten(Parts(ss, v))
  }

  function PatchesOf(samples: seq<Sample>): (r: seq<Patch>)
    ensures |r| == |samples|
  {
    seq(|samples|, i requires 0 <= i < |samples| => samples[i].patch)
  }

  /** The labels 0, 1, ..., n - 1. */
  function LabelRange(n: nat): (r: seq<int>)
    ensures |r| == n
  {
    seq(n, i => i)
  }

  /** Label l names the owner of sample l. */
  function LabelMap(samples: seq<Sample>): map<int, string> {
    map l | 0 <= l < |samples| :: samples[l].owner
  }

  /**
   * The state a successful training produces, or Untrained when no face
   * was collected (training then fails and changes nothing).
   */
  function Train(students: seq<Student>, v: Vision): ModelState {
    var samples := Samples(ActiveStudents(students), v);
    if |samples| == 0 then Untrained
    else Trained(PatchesOf(samples), LabelRange(|samples|), LabelMap(samples))
  }

  lemma {:induction false} FlattenEmptyIff<T>(parts: seq<seq<T>>)
    ensures Flatten(parts) == [] <==> forall i :: 0 <= i < |parts| ==> parts[i] == []
    decreases |parts|
  {
    if parts != [] {
      FlattenEmptyIff(parts[..|parts| - 1]);
    }
  }

  /** Part i of a flattening starts where the parts before it end. */
  lemma {:induction false} FlattenSlice<T>(parts: seq<seq<T>>, i: nat)
    requires i < |parts|
    ensures var o := |Flatten(parts[..i])|;
      && o + |parts[i]| <= |Flatten(parts)|
      && forall l :: o <= l < o + |parts[i]| ==> Flatten(parts)[l] == parts[i][l - o]
    decreases |parts|
  {
    var init := parts[..|parts| - 1];
    if i < |parts| - 1 {
      FlattenSlice(init, i);
      assert init[..i] == parts[..i];
    }
  }

  lemma {:induction false} FlattenOrigin<T>(parts: seq<seq<T>>, l: nat)
    requires l < |Flatten(parts)|
    ensures exists i, k :: 0 <= i < |parts| && 0 <= k < |parts[i]| && Flatten(parts)[l] == parts[i][k]
    decreases |parts|
  {
    var init := parts[..|parts| - 1];
    if l < |Flatten(init)| {
      FlattenOrigin(init, l);
      var i, k :| 0 <= i < |init| && 0 <= k < |init[i]| && Flatten(init)[l] == init[i][k];
      assert parts[i] == init[i];
    } else {
      var k := l - |Flatten(init)|;
      assert Flatten(parts)[l] == parts[|parts| - 1][k];
    }
  }

  /**
   * Training succeeds exactly when some active student has a readable photo
   * in which at least one face is detected.
   */
  lemma TrainSucceedsIff(students: seq<Student>, v: Vision)
    ensures Train(students, v).Trained? <==>
      exists s :: s in students && s.isActive && StudentSamples(s, v) != []
  {
    var act := ActiveStudents(students);
    FlattenEmptyIff(Parts(act, v));
    if Train(students, v).Trained? {
      var i :| 0 <= i < |act| && Parts(act, v)[i] != [];
      assert act[i] in act;
    } else {
      forall s | s in students && s.isActive ensures StudentSamples(s, v) == [] {
        var i :| 0 <= i < |act| && act[i] == s;
        assert Parts(act, v)[i] == StudentSamples(s, v);
      }
    }
  }

  /**
   * The labels handed out are 0, 1, ..., n - 1, one per training face;
   * every label maps to the student id of an active student whose photo
   * exists and decodes, and the label's face is a region detected in that
   * photo.
   */
  lemma TrainedLabelsMapToTheirFaces(students: seq<Student>, v: Vision)
    requires Train(students, v).Trained?
    ensures var m := Train(students, v);
      && |m.faces| == |m.labels| > 0
      && (forall l :: 0 <= l < |m.labels| ==> m.labels[l] == l)
      && (forall l :: l in m.labelIds <==> 0 <= l < |m.faces|)
      && forall l :: 0 <= l < |m.faces| ==>
           exists s ::
             && s in students && s.isActive && s.photo != "" && v.fileExists(s.photo)
             && PhotoGray(s, v) == Some(m.faces[l].image)
             && m.faces[l].region in v.detect(m.faces[l].image)
             && m.labelIds[l] == s.studentId
  {
    var act := ActiveStudents(students);
    var samples := Samples(act, v);
    var m := Train(students, v);
    forall l | 0 <= l < |m.faces|
      ensures exists s ::
        && s in students && s.isActive && s.photo != "" && v.fileExists(s.photo)
        && PhotoGray(s, v) == Some(m.faces[l].image)
        && m.faces[l].region in v.detect(m.faces[l].image)
        && m.labelIds[l] == s.studentId
    {
      FlattenOrigin(Parts(act, v), l);
      var i, k :| 0 <= i < |act| && 0 <= k < |StudentSamples(act[i], v)| &&
        samples[l] == StudentSamples(act[i], v)[k];
      assert act[i] in act;
      assert m.faces[l] == samples[l].patch;
      StudentSampleAt(act[i], v, k);
    }
  }

  /** Labels o, ..., o + |own| - 1 of the model are the faces `own`, in order, all mapped to `sid`. */
  predicate LabelsOwnedBy(m: ModelState, own: seq<Sample>, o: nat, sid: string) {
    && m.Trained?
    && o + |own| <= |m.faces| == |m.labels|
    && forall l :: o <= l < o + |own| ==>
         && l in m.labelIds && m.labelIds[l] == sid
         && m.labels[l] == l && m.faces[l] == own[l - o].patch
  }

  /**
   * A student's faces get consecutive labels: the i-th active student, with
   * k faces detected in its photo, owns exactly the labels o, ..., o + k - 1
   * where o counts the faces of the active students before it.
   */
  lemma StudentOwnsConsecutiveLabels(students: seq<Student>, v: Vision, i: nat)
    requires Train(students, v).Trained?
    requires i < |ActiveStudents(students)|
    ensures LabelsOwnedBy(Train(students, v), StudentSamples(ActiveStudents(students)[i], v),
                          |Samples(ActiveStudents(students)[..i], v)|, ActiveStudents(students)[i].studentId)
  {
    var act := ActiveStudents(students);
    var own := StudentSamples(act[i], v);
    var samples := Samples(act, v);
    var o := |Samples(act[..i], v)|;
    OwnSlice(act, v, i);
    var m := Train(students, v);
    assert m == Trained(PatchesOf(samples), LabelRange(|samples|), LabelMap(samples));
    forall l | o <= l < o + |own|
      ensures m.labelIds[l] == act[i].studentId && m.labels[l] == l && m.faces[l] == own[l - o].patch
    {
      ModelAt(samples, l);
      StudentSampleAt(act[i], v, l - o);
    }
    assert LabelsOwnedBy(m, own, o, act[i].studentId);
  }

  /** The samples of student i sit right after those of the students before it. */
  lemma OwnSlice(ss: seq<Student>, v: Vision, i: nat)
    requires i < |ss|
    ensures var o := |Samples(ss[..i], v)|;
      var own := StudentSamples(ss[i], v);
      && o + |own| <= |Samples(ss, v)|
      && forall l :: o <= l < o + |own| ==> Samples(ss, v)[l] == own[l - o]
  {
    var parts := Parts(ss, v);
    FlattenSlice(parts, i);
    assert parts[..i] == Parts(ss[..i], v);
  }

  /** Entry l of the model built from some samples. */
  lemma ModelAt(samples: seq<Sample>, l: nat)
    requires l < |samples|
    ensures PatchesOf(samples)[l] == samples[l].patch
    ensures LabelRange(|samples|)[l] == l
    ensures l in LabelMap(samples) && LabelMap(samples)[l] == samples[l].owner
  {
  }

  // ---------------------------------------------------------------------
  // The training loop.

  lemma ModelAppend(samples: seq<Sample>, x: Sample)
    ensures PatchesOf(samples + [x]) == PatchesOf(samples) + [x.patch]
    ensures LabelRange(|samples| + 1) == LabelRange(|samples|) + [|samples|]
    ensures LabelMap(samples + [x]) == LabelMap(samples)[|samples| := x.owner]
  {
  }

  /**
   * The nested loop of training: for every student with a readable photo,
   * every detected face is appended with the next consecutive label, and
   * the label is mapped to the student's id.
   */
  method CollectSamples(students: seq<Student>, v: Vision)
    returns (faces: seq<Patch>, labels: seq<int>, labelIds: map<int, string>)
    ensures faces == PatchesOf(Samples(students, v))
    ensures labels == LabelRange(|faces|)
    ensures labelIds == LabelMap(Samples(students, v))
  {
    faces, labels, labelIds := [], [], map[];
    var currentId := 0;
    ghost var samples: seq<Sample> := [];
    for i := 0 to |students|
      invariant samples == Samples(students[..i], v)
      invariant faces == PatchesOf(samples) && labels == LabelRange(|samples|)
      invariant labelIds == LabelMap(samples) && currentId == |samples|
    {
      var student := students[i];
      assert Parts(students[..i + 1], v) == Parts(students[..i], v) + [StudentSamples(student, v)];
      ghost var own := StudentSamples(student, v);
      if student.photo != "" && v.fileExists(student.photo) {
        var image := v.readGray(student.photo);
        if image.Some? {
          var gray := image.value;
          var rects := v.detect(gray);
          for j := 0 to |rects|
            invariant samples == Samples(students[..i], v) + own[..j]
            invariant faces == PatchesOf(samples) && labels == LabelRange(|samples|)
            invariant labelIds == LabelMap(samples) && currentId == |samples|
          {
            ModelAppend(samples, own[j]);
            faces := faces + [Patch(gray, rects[j])];
            labels := labels + [currentId];
            labelIds := labelIds[currentId := student.studentId];
            samples := samples + [own[j]];
            currentId := currentId + 1;
            assert own[..j + 1] == own[..j] + [own[j]];
          }
          assert own[..|rects|] == own;
        }
      }
    }
    assert students[..|students|] == students;
  }

  // ---------------------------------------------------------------------
  // Recognition.

  /** What the classifier of a trained model says about one detected face. */
  function Predict(m: ModelState, v: Vision, g: Gray, r: Rect): Prediction
    requires m.Trained?
  {
    v.predict(m.faces, m.labels, Patch(g, r))
  }

  /** Face k is the first one, in detection order, whose distance is below the threshold. */
  predicate FirstAcceptedAt(m: ModelState, v: Vision, g: Gray, rects: seq<Rect>, k: int)
    requires m.Trained?
  {
    && 0 <= k < |rects|
    && Predict(m, v, g, rects[k]).confidence < Threshold
    && forall j :: 0 <= j < k ==> Predict(m, v, g, rects[j]).confidence >= Threshold
  }

  /** The label mapping of the first accepted face; None when no face is accepted or its label is unmapped. */
  function FirstMatch(m: ModelState, v: Vision, g: Gray, rects: seq<Rect>): Option<string>
    requires m.Trained?
    decreases |rects|
  {
    if rects == [] then None
    else
      var p := Predict(m, v, g, rects[0]);
      if p.confidence < Threshold then Get(m.labelIds, p.classLabel) else FirstMatch(m, v, g, rects[1..])
  }

  /**
   * The first face whose distance is strictly below 70 decides: the result
   * is `id` exactly when that face's label maps to `id`. A face at distance
   * exactly 70 is not accepted, and no later face is looked at.
   */
  lemma {:induction false} FirstMatchIff(m: ModelState, v: Vision, g: Gray, rects: seq<Rect>, id: string)
    requires m.Trained?
    ensures FirstMatch(m, v, g, rects) == Some(id) <==>
      exists k :: FirstAcceptedAt(m, v, g, rects, k)
        && Predict(m, v, g, rects[k]).classLabel in m.labelIds
        && m.labelIds[Predict(m, v, g, rects[k]).classLabel] == id
    decreases |rects|
  {
    if rects != [] {
      var rest := rects[1..];
      if Predict(m, v, g, rects[0]).confidence < Threshold {
        assert FirstAcceptedAt(m, v, g, rects, 0);
        forall k | FirstAcceptedAt(m, v, g, rects, k) ensures k == 0 {
        }
      } else {
        FirstMatchIff(m, v, g, rest, id);
        forall k | 0 <= k < |rest|
          ensures FirstAcceptedAt(m, v, g, rest, k) <==> FirstAcceptedAt(m, v, g, rects, k + 1)
        {
          assert rects[k + 1] == rest[k];
          if FirstAcceptedAt(m, v, g, rest, k) {
            forall j | 0 <= j < k + 1 ensures Predict(m, v, g, rects[j]).confidence >= Threshold {
              if j > 0 { assert rects[j] == rest[j - 1]; }
            }
          }
          if FirstAcceptedAt(m, v, g, rects, k + 1) {
            forall j | 0 <= j < k ensures Predict(m, v, g, rest[j]).confidence >= Threshold {
              assert rest[j] == rects[j + 1];
            }
          }
        }
        if FirstMatch(m, v, g, rects) == Some(id) {
          var k :| FirstAcceptedAt(m, v, g, rest, k) && Predict(m, v, g, rest[k]).classLabel in m.labelIds
            && m.labelIds[Predict(m, v, g, rest[k]).classLabel] == id;
          assert FirstAcceptedAt(m, v, g, rects, k + 1);
        }
        if exists k :: FirstAcceptedAt(m, v, g, rects, k) && Predict(m, v, g, rects[k]).classLabel in m.labelIds
            && m.labelIds[Predict(m, v, g, rects[k]).classLabel] == id {
          var k :| FirstAcceptedAt(m, v, g, rects, k) && Predict(m, v, g, rects[k]).classLabel in m.labelIds
            && m.labelIds[Predict(m, v, g, rects[k]).classLabel] == id;
          assert k != 0;
          assert FirstAcceptedAt(m, v, g, rest, k - 1);
        }
      }
    }
  }

  /** Faces detected after an accepted one never change the result. */
  lemma {:induction false} FirstMatchIgnoresLaterFaces(m: ModelState, v: Vision, g: Gray, rects: seq<Rect>, later: seq<Rect>, k: nat)
    requires m.Trained?
    requires k < |rects| && Predict(m, v, g, rects[k]).confidence < Threshold
    ensures FirstMatch(m, v, g, rects + later) == FirstMatch(m, v, g, rects)
    decreases |rects|
  {
    if Predict(m, v, g, rects[0]).confidence >= Threshold {
      assert (rects + later)[1..] == rects[1..] + later;
      FirstMatchIgnoresLaterFaces(m, v, g, rects[1..], later, k - 1);
    }
  }

  /** The loop of recognition: the first face below the threshold returns its mapping. */
  method MatchFirstFace(m: ModelState, v: Vision, g: Gray, rects: seq<Rect>) returns (r: Option<string>)
    requires m.Trained?
    ensures r == FirstMatch(m, v, g, rects)
  {
    for i := 0 to |rects|
      invariant FirstMatch(m, v, g, rects) == FirstMatch(m, v, g, rects[i..])
    {
      assert rects[i..][1..] == rects[i + 1..];
      var p := v.predict(m.faces, m.labels, Patch(g, rects[i]));
      if p.confidence < Threshold {
        return Get(m.labelIds, p.classLabel);
      }
    }
    return None;
  }

  /** The state recognition works with: trained on demand when there is no label map yet. */
  function Ready(state: ModelState, students: seq<Student>, v: Vision): ModelState {
    if state.Untrained? then Train(students, v) else state
  }

  /** What `recognize_face` returns for an image path, given the recognizer's state before the call. */
  function Recognize(state: ModelState, students: seq<Student>, v: Vision, path: Path): Option<string> {
    var m := Ready(state, students, v);
    if m.Untrained? then None
    else
      match v.readGray(path)
      case None => None
      case Some(g) => if |v.detect(g)| == 0 then None else FirstMatch(m, v, g, v.detect(g))
  }

  /** `detect_face`: the image decodes and at least one face is found in it. */
  function DetectFace(v: Vision, path: Path): (r: bool)
    ensures r ==> v.readGray(path).Some?
    ensures v.readGray(path).Some? ==> (r <==> v.detect(v.readGray(path).value) != [])
  {
    match v.readGray(path)
    case None => false
    case Some(g) => |v.detect(g)| > 0
  }

  /**
   * Recognition yields an id only for an image in which a face is detected,
   * only with a trained model, and the id is the mapping of the first
   * accepted face; an untrainable enrolment never recognizes anything.
   */
  lemma RecognizeNeedsModelAndFace(state: ModelState, students: seq<Student>, v: Vision, path: Path)
    ensures Recognize(state, students, v, path).Some? ==>
      && DetectFace(v, path)
      && Ready(state, students, v).Trained?
      && var g := v.readGray(path).value;
         exists k :: FirstAcceptedAt(Ready(state, students, v), v, g, v.detect(g), k)
    ensures state.Untrained? && Train(students, v).Untrained? ==> Recognize(state, students, v, path).None?
  {
    var r := Recognize(state, students, v, path);
    if r.Some? {
      var m := Ready(state, students, v);
      var g := v.readGray(path).value;
      FirstMatchIff(m, v, g, v.detect(g), r.value);
    }
  }

  /**
   * The face recognizer object. A new one has no label map; training sets
   * it only when at least one face was collected.
   */
  class FaceRecognizer {
    var state: ModelState

    constructor ()
      ensures state == Untrained
    {
      state := Untrained;
    }

    /**
     * `load_and_train`: collect the faces of the active students and train
     * on them; succeed (and replace the model) only if a face was found.
     */
    method LoadAndTrain(students: seq<Student>, v: Vision) returns (trained: bool)
      modifies this
      ensures trained <==> Train(students, v).Trained?
      ensures state == if trained then Train(students, v) else old(state)
    {
      var faces, labels, labelIds := CollectSamples(ActiveStudents(students), v);
      if |faces| > 0 && |labels| > 0 {
        state := Trained(faces, labels, labelIds);
        trained := true;
      } else {
        trained := false;
      }
    }

    /**
     * `recognize_face`: train when there is no label map yet (None if that
     * fails), then None for an unreadable image or one without faces, else
     * the mapping of the first face below the threshold.
     */
    method RecognizeFace(students: seq<Student>, v: Vision, path: Path) returns (r: Option<string>)
      modifies this
      ensures state == Ready(old(state), students, v)
      ensures r == Recognize(old(state), students, v, path)
    {
      if state.Untrained? {
        var trained := LoadAndTrain(students, v);
        if !trained {
          return None;
        }
      }
      var image := v.readGray(path);
      if image.None? {
        return None;
      }
      var gray := image.value;
      var faces := v.detect(gray);
      if |faces| == 0 {
        return None;
      }
      r := MatchFirstFace(state, v, gray, faces);
    }

    /** `verify_face`: whether the image is recognized as exactly this student id. */
    method VerifyFace(studentId: string, students: seq<Student>, v: Vision, path: Path) returns (same: bool)
      modifies this
      ensures state == Ready(old(state), students, v)
      ensures same <==> Recognize(old(state), students, v, path) == Some(studentId)
    {
      var recognized := RecognizeFace(students, v, path);
      same := recognized == Some(studentId);
    }
  }
}
