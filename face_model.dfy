/** The face-detection result handler as a specification: data, the failure
    oracle, and the effect of each step of `classify` on the collaborators'
    state (detection table, app config, job list) and on the log of calls
    made to them. */
module FaceModel {
  import opened Platform
  import opened CallLog

  const IMAGE_TIMEOUT: nat := 120
  const IMAGE_PUREJS_TIMEOUT: nat := 360
  const MIN_FACE_RECOGNITION_SCORE: real := 0.8
  const MODEL_NAME := "faces"
  const CLUSTER_FACES_JOB := "ClusterFacesJob"
  const STATUS_KEY := StatusKey(MODEL_NAME)

  /** One face reported by the inference process: bounding box, confidence
      and embedding vector. */
  datatype Face = Face(x: int, y: int, width: int, height: int, score: real, vector: seq<real>)

  /** What the inference process yields for one file. */
  type Yield = (QueueFile, seq<Face>)

  /** A stored face detection row, scoped to one user. */
  datatype Detection = Detection(userId: UserId, fileId: FileId, x: int, y: int, width: int, height: int, vector: seq<real>)

  /** The user mount cache: the users (one per mount, repeats allowed) that
      see a storage root. */
  type Mounts = map<RootId, seq<UserId>>

  /** Identifies one insert attempt: the index of the yielded file in the
      batch, of the face in that file's result, and of the mount. */
  datatype InsertSite = InsertSite(pass: nat, face: nat, mount: nat)

  /** Which database operations throw: the lookup of a pass, the delete of a
      row in a pass, an insert attempt. */
  datatype Failures = Failures(lookups: set<nat>, deletes: set<(nat, Detection)>, inserts: set<InsertSite>)

  /** A recorded call to a collaborator: the inference call, the calls whose
      exception `classify` catches (with their outcome) and the calls that
      change state. Reads that change nothing and whose exceptions are not
      caught (`getAppValue`, `getMountsForRootId`, `has`) are not recorded. */
  datatype Call =
    | CallClassifyFiles(model: string, files: seq<QueueFile>, timeout: nat)
    | CallFindByFileId(fileId: FileId, ok: bool)
    | CallDelete(row: Detection, ok: bool)
    | CallInsert(row: Detection, ok: bool)
    | CallSetAppValue(key: ConfigKey, value: string)
    | CallAdd(job: Job)

  /** The collaborators' state and the calls recorded so far. */
  datatype World = World(detections: seq<Detection>, config: Config, jobs: set<Job>, calls: seq<Call>)

  /** A world together with the `$usersToCluster` list being accumulated. */
  datatype Run = Run(w: World, toCluster: seq<UserId>)

  /** Timeout for the inference call: the portable backend gets longer. */
  function ImageTimeout(config: Config): (t: nat)
    ensures t == IMAGE_PUREJS_TIMEOUT <==> PUREJS_KEY in config && config[PUREJS_KEY] == "true"
    ensures t == IMAGE_TIMEOUT <==> !(PUREJS_KEY in config && config[PUREJS_KEY] == "true")
  {
    if PureJs(config) then IMAGE_PUREJS_TIMEOUT else IMAGE_TIMEOUT
  }

  function UsersForRoot(mounts: Mounts, rootId: RootId): seq<UserId>
  {
    if rootId in mounts then mounts[rootId] else []
  }

  /** A face is processed unless its score is below the threshold. */
  predicate Kept(face: Face)
  {
    face.score >= MIN_FACE_RECOGNITION_SCORE
  }

  /** The row stored for `face` on behalf of `userId`. */
  function Record(face: Face, fileId: FileId, userId: UserId): Detection
  {
    Detection(userId, fileId, face.x, face.y, face.width, face.height, face.vector)
  }

  // ---------------------------------------------------------------------
  // Removal of the detections already stored for a file

  /** `findByFileId`: the stored rows of one file, for every user, in table order. */
  function RowsOfFile(rows: seq<Detection>, fileId: FileId): (r: seq<Detection>)
    ensures forall x :: x in r <==> x in rows && x.fileId == fileId
    ensures |r| <= |rows|
  {
    if rows == [] then []
    else
      var init := rows[..|rows| - 1];
      var last := rows[|rows| - 1];
      assert rows == init + [last];
      if last.fileId == fileId then RowsOfFile(init, fileId) + [last] else RowsOfFile(init, fileId)
  }

  /** The table after `delete` of `row`. */
  function Without(rows: seq<Detection>, row: Detection): (r: seq<Detection>)
    ensures forall x :: x in r <==> x in rows && x != row
  {
    if rows == [] then []
    else
      var init := rows[..|rows| - 1];
      var last := rows[|rows| - 1];
      assert rows == init + [last];
      if last == row then Without(init, row) else Without(init, row) + [last]
  }

  function DeleteRow(w: World, pass: nat, row: Detection, fail: Failures): World
  {
    var ok := (pass, row) !in fail.deletes;
    w.(detections := if ok then Without(w.detections, row) else w.detections,
       calls := w.calls + [CallDelete(row, ok)])
  }

  /** The first `n` deletes of the loop over the rows found. */
  function DeleteRows(w: World, pass: nat, existing: seq<Detection>, fail: Failures, n: nat): World
    requires n <= |existing|
  {
    if n == 0 then w
    else DeleteRow(DeleteRows(w, pass, existing, fail, n - 1), pass, existing[n - 1], fail)
  }

  /** `removeExistingFaces`: look the file's rows up and delete them one by
      one; a failed lookup deletes nothing. */
  function RemoveExisting(w: World, pass: nat, fileId: FileId, fail: Failures): World
  {
    if pass in fail.lookups then w.(calls := w.calls + [CallFindByFileId(fileId, false)])
    else
      var existing := RowsOfFile(w.detections, fileId);
      DeleteRows(w.(calls := w.calls + [CallFindByFileId(fileId, true)]), pass, existing, fail, |existing|)
  }

  // ---------------------------------------------------------------------
  // Fan-out of the kept faces to the users of the file's root

  function InsertAt(r: Run, site: InsertSite, row: Detection, fail: Failures): Run
  {
    var ok := site !in fail.inserts;
    Run(r.w.(detections := if ok then r.w.detections + [row] else r.w.detections,
             calls := r.w.calls + [CallInsert(row, ok)]),
        if ok then r.toCluster + [row.userId] else r.toCluster)
  }

  /** The first `m` inserts of one face, one per mount. */
  function InsertForUsers(r: Run, pass: nat, j: nat, face: Face, fileId: FileId, users: seq<UserId>, fail: Failures, m: nat): Run
    requires m <= |users|
  {
    if m == 0 then r
    else InsertAt(InsertForUsers(r, pass, j, face, fileId, users, fail, m - 1),
                  InsertSite(pass, j, m - 1), Record(face, fileId, users[m - 1]), fail)
  }

  function SetStatus(w: World): World
  {
    w.(config := w.config[STATUS_KEY := "true"], calls := w.calls + [CallSetAppValue(STATUS_KEY, "true")])
  }

  /** Face `j` of pass `pass`: skipped below the threshold, otherwise one
      insert per mount followed by the status write. */
  function ProcessFace(r: Run, pass: nat, j: nat, face: Face, qf: QueueFile, mounts: Mounts, fail: Failures): Run
  {
    if face.score < MIN_FACE_RECOGNITION_SCORE then r
    else
      var users := UsersForRoot(mounts, qf.rootId);
      var r' := InsertForUsers(r, pass, j, face, qf.fileId, users, fail, |users|);
      r'.(w := SetStatus(r'.w))
  }

  /** The first `n` faces of one file. */
  function ProcessFaces(r: Run, pass: nat, qf: QueueFile, faces: seq<Face>, mounts: Mounts, fail: Failures, n: nat): Run
    requires n <= |faces|
  {
    if n == 0 then r
    else ProcessFace(ProcessFaces(r, pass, qf, faces, mounts, fail, n - 1), pass, n - 1, faces[n - 1], qf, mounts, fail)
  }

  /** One yielded file: removal first, then its faces. */
  function ProcessFile(r: Run, pass: nat, y: Yield, mounts: Mounts, fail: Failures): Run
  {
    var removed := Run(RemoveExisting(r.w, pass, y.0.fileId, fail), r.toCluster);
    ProcessFaces(removed, pass, y.0, y.1, mounts, fail, |y.1|)
  }

  /** The first `n` yielded files. */
  function ProcessFiles(r: Run, ys: seq<Yield>, mounts: Mounts, fail: Failures, n: nat): Run
    requires n <= |ys|
  {
    if n == 0 then r
    else ProcessFile(ProcessFiles(r, ys, mounts, fail, n - 1), n - 1, ys[n - 1], mounts, fail)
  }

  // ---------------------------------------------------------------------
  // Scheduling of clustering jobs

  /** `array_unique`: the first occurrence of every user, in order. */
  function Unique(s: seq<UserId>): (u: seq<UserId>)
    ensures NoDuplicates(u)
    ensures forall x :: x in u <==> x in s
  {
    if s == [] then []
    else
      var init := s[..|s| - 1];
      var last := s[|s| - 1];
      assert s == init + [last];
      var u0 := Unique(init);
      if last in u0 then u0 else u0 + [last]
  }

  /** `has` then, when absent, `add`. */
  function ScheduleUser(w: World, userId: UserId): World
  {
    var job := Job(CLUSTER_FACES_JOB, userId);
    if job in w.jobs then w else w.(jobs := w.jobs + {job}, calls := w.calls + [CallAdd(job)])
  }

  /** The first `n` users of the de-duplicated list. */
  function Schedule(w: World, users: seq<UserId>, n: nat): World
    requires n <= |users|
  {
    if n == 0 then w else ScheduleUser(Schedule(w, users, n - 1), users[n - 1])
  }

  /** `classify` on a batch, given what the inference process yields for it. */
  function ClassifySpec(w: World, queueFiles: seq<QueueFile>, ys: seq<Yield>, mounts: Mounts, fail: Failures): World
  {
    var invoked := w.(calls := w.calls + [CallClassifyFiles(MODEL_NAME, queueFiles, ImageTimeout(w.config))]);
    var r := ProcessFiles(Run(invoked, []), ys, mounts, fail, |ys|);
    var users := Unique(r.toCluster);
    Schedule(r.w, users, |users|)
  }

  // ---------------------------------------------------------------------
  // Reference definitions the properties are stated with

  /** The rows left by the removal phase when the lookup succeeded: every row
      of other files, and the rows of this file whose delete failed. */
  function Survivors(rows: seq<Detection>, pass: nat, fileId: FileId, fail: Failures): (r: seq<Detection>)
    ensures forall x :: x in r <==> x in rows && (x.fileId != fileId || (pass, x) in fail.deletes)
  {
    if rows == [] then []
    else
      var init := rows[..|rows| - 1];
      var last := rows[|rows| - 1];
      assert rows == init + [last];
      if last.fileId != fileId || (pass, last) in fail.deletes then Survivors(init, pass, fileId, fail) + [last]
      else Survivors(init, pass, fileId, fail)
  }

  /** One delete attempt per row found, each with its own outcome. */
  function DeleteCalls(pass: nat, existing: seq<Detection>, fail: Failures): seq<Call>
  {
    seq(|existing|, k requires 0 <= k < |existing| => CallDelete(existing[k], (pass, existing[k]) !in fail.deletes))
  }

  /** One insert attempt per mount, carrying that mount's user. */
  function AttemptCalls(pass: nat, j: nat, face: Face, fileId: FileId, users: seq<UserId>, fail: Failures): seq<Call>
  {
    seq(|users|, k requires 0 <= k < |users| => CallInsert(Record(face, fileId, users[k]), InsertSite(pass, j, k) !in fail.inserts))
  }

  /** The rows of the inserts that succeeded, in call order. */
  function Successful(calls: seq<Call>): seq<Detection>
  {
    if calls == [] then []
    else
      var c := calls[|calls| - 1];
      Successful(calls[..|calls| - 1]) + (if c.CallInsert? && c.ok then [c.row] else [])
  }

  function UserIds(rows: seq<Detection>): seq<UserId>
  {
    if rows == [] then [] else UserIds(rows[..|rows| - 1]) + [rows[|rows| - 1].userId]
  }

  /** The number of insert attempts among `calls`. */
  function InsertAttempts(calls: seq<Call>): nat
  {
    if calls == [] then 0
    else InsertAttempts(calls[..|calls| - 1]) + (if calls[|calls| - 1].CallInsert? then 1 else 0)
  }

  /** The number of status writes among `calls`. */
  function StatusWrites(calls: seq<Call>): nat
  {
    if calls == [] then 0
    else StatusWrites(calls[..|calls| - 1]) + (if calls[|calls| - 1].CallSetAppValue? then 1 else 0)
  }

  /** How many of the first `n` faces pass the threshold. */
  function CountKept(faces: seq<Face>, n: nat): nat
    requires n <= |faces|
  {
    if n == 0 then 0 else CountKept(faces, n - 1) + (if Kept(faces[n - 1]) then 1 else 0)
  }

  predicate KeptAmong(faces: seq<Face>, n: nat)
    requires n <= |faces|
  {
    exists j :: 0 <= j < n && Kept(faces[j])
  }

  predicate AnyKept(ys: seq<Yield>, n: nat)
    requires n <= |ys|
  {
    exists i, j :: 0 <= i < n && 0 <= j < |ys[i].1| && Kept(ys[i].1[j])
  }

  predicate IsRemovalCall(c: Call)
  {
    c.CallFindByFileId? || c.CallDelete?
  }

  predicate IsInsertPhaseCall(c: Call)
  {
    c.CallInsert? || c == CallSetAppValue(STATUS_KEY, "true")
  }

  /** A call that the per-file processing may make. */
  predicate IsPassCall(c: Call)
  {
    IsRemovalCall(c) || IsInsertPhaseCall(c)
  }

  /** `row` was stored for a kept face among the first `n`, for a user of the root. */
  predicate FromKeptFace(row: Detection, qf: QueueFile, faces: seq<Face>, n: nat, users: seq<UserId>)
    requires n <= |faces|
  {
    && row.fileId == qf.fileId
    && row.userId in users
    && exists j :: 0 <= j < n && Kept(faces[j]) && row == Record(faces[j], qf.fileId, row.userId)
  }

  /** From `r` to `r'` only rows were appended, and the users collected are
      those of the inserts that succeeded. */
  predicate Appends(r: Run, r': Run)
  {
    && Extends(r.w.calls, r'.w.calls)
    && r'.w.detections == r.w.detections + Successful(Since(r.w.calls, r'.w.calls))
    && r'.toCluster == r.toCluster + UserIds(Successful(Since(r.w.calls, r'.w.calls)))
  }

  /** From `r` to `r'` the users collected are those of the inserts that succeeded. */
  predicate Collects(r: Run, r': Run)
  {
    && Extends(r.w.calls, r'.w.calls)
    && r'.toCluster == r.toCluster + UserIds(Successful(Since(r.w.calls, r'.w.calls)))
  }
}
