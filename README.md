# Result handling of the Recognize face and music classifiers

This project models two classifiers of the Nextcloud Recognize app. It covers
what each does with the output of its external inference process.

- **`ClusteringFaceClassifier::classify`** first picks the inference timeout:
  120 s, or 360 s when the pure-JavaScript backend is configured. Then, for
  every file the inference process yields, it:
  - deletes every stored face detection of that file, for all users, going on
    past a failed lookup or a failed delete;
  - skips each face scoring below 0.8;
  - stores every other face once per mount of the file's storage root, going
    on past a failed insert and remembering the users whose insert succeeded;
  - writes the `faces.status` flag for each such face.

  At the end it de-duplicates the remembered users. It adds a
  `ClusterFacesJob` for each one that does not already have one.
- **`MusicnnClassifier::classify`** picks the audio timeout: 40 s, or 300 s
  with the pure-JavaScript backend. For every yielded file, in order, it hands
  the file's results to the tag manager and writes the `musicnn.status` flag.

Both handlers are imperative, and the model keeps that form.
- `FaceClassifier.ClusteringFaceClassifier` and
  `AudioClassifier.MusicnnClassifier` are classes. Their fields hold the state
  of the collaborators:
  - the face detection table, a `seq<Detection>`;
  - the app config, a map from (app, key) to string;
  - the job list, a set of (job class, user id);
  - `calls`, a log of calls with their outcome. It records:
    - the inference call;
    - the calls whose exception the code catches: lookup, delete and insert;
    - the calls that change state: status writes, tag assignments and job
      adds.

    Reads that change nothing and whose exceptions the code does not catch
    (`getAppValue`, `getMountsForRootId`, `has`) are not recorded.
- `Classify` is written as the source's nested loops. Each loop carries the
  invariant that the state so far equals a specification function applied to
  the prefix processed. The specification functions are `FaceModel.ClassifySpec`
  and `AudioModel.ClassifySpec`.
- The modules `FaceProperties` and `AudioProperties` prove what the handlers
  promise about those functions. The promises include:
  - removal before insertion;
  - the score threshold;
  - one insert attempt per mount;
  - continue-on-error;
  - the status flag;
  - job scheduling with no duplicates.
- `CallLog` defines what "the calls made after a point of the log" means.

Three things are inputs to the model rather than part of it:
- The external inference process (`classifyFiles` of the parent class) is the
  function parameter `run`. It maps the model name, the batch and the timeout
  to the sequence of (queue file, per-file result) pairs it yields.
- The user mount cache is a map from root id to the sequence of user ids of
  the root's mounts.
- Database exceptions come from the oracle `FaceModel.Failures`, which names:
  - the passes whose lookup throws;
  - the (pass, row) deletes that throw;
  - the (pass, face, mount) inserts that throw.

  A "pass" is the position of a yielded file in the batch.

In four places the code does something other than one might expect, and the
model follows the code:
- One might expect the `faces.status` flag only after a successful insert.
  The code writes it once for every face at or above the threshold, even when
  none of that face's inserts succeeded.
- The `musicnn.status` flag is written for every yielded file, even one whose
  results are empty.
- The removal phase deletes the file's stored rows of every user, not only
  those of one user.
- A root with several mounts of the same user gets one insert per mount, so
  repeated users get repeated rows. Only the job scheduling de-duplicates.

## Model

| member | source | states |
|---|---|---|
| FaceModel.ImageTimeout | lib/Classifiers/Images/ClusteringFaceClassifier.php:51-55 | The timeout is 360 exactly when `recognize/tensorflow.purejs` is present and equals "true", and 120 for any other value or when absent |
| FaceModel.RowsOfFile | lib/Classifiers/Images/ClusteringFaceClassifier.php:104 | A row is returned by the lookup exactly when it is stored with the file's id, of any user, and the result is no longer than the table. Copy counts are in `FaceProperties.RowsOfFileCounts` |
| FaceModel.Without | lib/Classifiers/Images/ClusteringFaceClassifier.php:107 | After a delete a row is in the table exactly when it was there and differs from the deleted row. Copy counts are in `FaceProperties.WithoutCounts` |
| FaceModel.Survivors | lib/Classifiers/Images/ClusteringFaceClassifier.php:105-111 | After the removal phase a row is in the table exactly when it was there and belongs to another file or its delete threw. Copy counts are in `FaceProperties.SurvivorsCounts` |
| FaceProperties.RowsOfFileCounts | lib/Classifiers/Images/ClusteringFaceClassifier.php:104 | The lookup returns every stored row of the file as many times as the table holds it, and no row of another file |
| FaceProperties.WithoutCounts | lib/Classifiers/Images/ClusteringFaceClassifier.php:107 | A delete removes every copy of the deleted row and keeps every copy of every other row: the multiset of the table is the old one with that row's count set to 0 |
| FaceProperties.SurvivorsCounts | lib/Classifiers/Images/ClusteringFaceClassifier.php:105-111 | After the removal phase every copy of a row of another file, or of a row whose delete threw, remains; every other copy of a row of this file is gone |
| FaceModel.Unique | lib/Classifiers/Images/ClusteringFaceClassifier.php:94 | The de-duplicated user list has no repeats and holds exactly the users of the collected list |
| Platform.PureJs | lib/Classifiers/Images/ClusteringFaceClassifier.php:51 | No contract of its own. It defines the backend-mode test: the stored `recognize/tensorflow.purejs` value, defaulting to "false", equals "true" by strict comparison (also line 36 of the music classifier). The contracts of `FaceModel.ImageTimeout` and `AudioModel.AudioTimeout` state the resulting timeout choice |
| FaceModel.UsersForRoot | lib/Classifiers/Images/ClusteringFaceClassifier.php:74-77 | No contract of its own. It defines the user id of every mount of the file's root, in mount order, and none for a root the cache does not know. `FaceProperties.ProcessFaceEffect` states that one insert is attempted per user it lists |
| FaceModel.Kept | lib/Classifiers/Images/ClusteringFaceClassifier.php:63-65 | No contract of its own. It defines the threshold test: a face is processed unless its score is below 0.8. `FaceProperties.ProcessFaceEffect` states that a face it rejects changes nothing |
| FaceModel.Record | lib/Classifiers/Images/ClusteringFaceClassifier.php:66-81 | No contract of its own. It defines the row stored for one mount: the face's box and vector, the file's id, and that mount's user. `FaceProperties.ProcessFaceEffect` and `FaceProperties.InsertedRowsOfFile` state what the inserts store |
| FaceModel.DeleteRow | lib/Classifiers/Images/ClusteringFaceClassifier.php:106-110 | No contract of its own. It defines one delete in its own `try`: the delete is recorded with its outcome, and the row is removed unless it threw. `FaceProperties.DeleteRowsEffect` states its effect |
| FaceModel.DeleteRows | lib/Classifiers/Images/ClusteringFaceClassifier.php:105-111 | No contract of its own. It defines the first n deletes of the loop over the rows found. `FaceProperties.DeleteRowsEffect` states its effect |
| FaceModel.InsertAt | lib/Classifiers/Images/ClusteringFaceClassifier.php:82-88 | No contract of its own. It defines one insert in its own `try`: the attempt is recorded with its outcome, and only on success is the row stored and its user collected. `FaceProperties.InsertAtLog` states its effect |
| FaceModel.InsertForUsers | lib/Classifiers/Images/ClusteringFaceClassifier.php:80-89 | No contract of its own. It defines the first m iterations of the mount loop. `FaceProperties.InsertForUsersEffect` states its effect |
| FaceModel.SetStatus | lib/Classifiers/Images/ClusteringFaceClassifier.php:90 | No contract of its own. It defines the status write: `faces.status` is set to "true" and the write recorded. `FaceProperties.ProcessFaceEffect` states when it happens |
| FaceModel.ProcessFaces | lib/Classifiers/Images/ClusteringFaceClassifier.php:62-91 | No contract of its own. It defines the first n iterations of the face loop of one file. `FaceProperties.ProcessFacesLog` and `FaceProperties.ProcessFacesEffect` state its effect |
| FaceModel.ScheduleUser | lib/Classifiers/Images/ClusteringFaceClassifier.php:96-97 | No contract of its own. It defines one scheduling step: `has`, then `add` only when the user has no clustering job. `FaceProperties.ScheduleEffect` states its effect |
| FaceModel.RemoveExisting | lib/Classifiers/Images/ClusteringFaceClassifier.php:102-115 | No contract of its own. It defines `removeExistingFaces`: a failed lookup only records the lookup; otherwise each row found is deleted in turn, and a failed delete is recorded and skipped. `FaceProperties.RemoveExistingEffect` states its effect |
| FaceModel.ProcessFace | lib/Classifiers/Images/ClusteringFaceClassifier.php:62-91 | No contract of its own. It defines one face: below 0.8 it is skipped; otherwise there is one insert per mount, then the status write. `FaceProperties.ProcessFaceEffect` states its effect |
| FaceModel.ProcessFile | lib/Classifiers/Images/ClusteringFaceClassifier.php:60-92 | No contract of its own. It defines one yielded file: the removal, then each of its faces in order. `FaceProperties.ProcessFileEffect` states its effect |
| FaceModel.ProcessFiles | lib/Classifiers/Images/ClusteringFaceClassifier.php:60-92 | No contract of its own. It defines the first n yielded files, each as one pass. `FaceProperties.ProcessFilesEffect` states its effect |
| FaceModel.Schedule | lib/Classifiers/Images/ClusteringFaceClassifier.php:95-99 | No contract of its own. It defines the scheduling loop: per user, `has`, then `add` when absent. `FaceProperties.ScheduleEffect` states its effect |
| FaceModel.ClassifySpec | lib/Classifiers/Images/ClusteringFaceClassifier.php:50-100 | No contract of its own. It defines the whole of `classify`: the inference call, every yielded file, the de-duplication, then scheduling. `FaceProperties.ClassifyEffect` states its effect |
| FaceClassifier.ClusteringFaceClassifier.constructor | lib/Classifiers/Images/ClusteringFaceClassifier.php:36-43 | The classifier starts on the given table, config and job list, with no calls made |
| FaceClassifier.ClusteringFaceClassifier.ClassifyFiles | lib/Classifiers/Images/ClusteringFaceClassifier.php:58 | The inference process is invoked once with model "faces", the batch and the timeout. Its yield is returned and the call is appended to `calls` |
| FaceClassifier.ClusteringFaceClassifier.FindByFileId | lib/Classifiers/Images/ClusteringFaceClassifier.php:104 | When it throws, the lookup yields nothing. Otherwise it yields the file's rows. Either way the lookup and its outcome are appended to `calls` |
| FaceClassifier.ClusteringFaceClassifier.Delete | lib/Classifiers/Images/ClusteringFaceClassifier.php:106-110 | A delete that throws leaves the table unchanged. Any other delete removes the row. Either way the attempt and its outcome are appended to `calls` |
| FaceClassifier.ClusteringFaceClassifier.Insert | lib/Classifiers/Images/ClusteringFaceClassifier.php:82-87 | An insert that throws reports failure and leaves the table unchanged. Any other insert appends the row. Either way the attempt is appended to `calls` |
| FaceClassifier.ClusteringFaceClassifier.SetAppValue | lib/Classifiers/Images/ClusteringFaceClassifier.php:90 | The config maps the key to the value, other keys are unchanged, and the write is appended to `calls` |
| FaceClassifier.ClusteringFaceClassifier.Has | lib/Classifiers/Images/ClusteringFaceClassifier.php:96 | The result is true exactly when the job is in the job list |
| FaceClassifier.ClusteringFaceClassifier.Add | lib/Classifiers/Images/ClusteringFaceClassifier.php:97 | The job list gains the job and the add is appended to `calls` |
| FaceClassifier.ClusteringFaceClassifier.RemoveExistingFaces | lib/Classifiers/Images/ClusteringFaceClassifier.php:102-115 | The new state is `FaceModel.RemoveExisting` of the old one. The delete loop's invariant ties each prefix of the rows found to the deletes made so far |
| FaceClassifier.ClusteringFaceClassifier.Classify | lib/Classifiers/Images/ClusteringFaceClassifier.php:50-100 | The new state is `FaceModel.ClassifySpec` of the old one, for what the inference process yields with the chosen timeout. The file, face, mount and scheduling loops each keep the state equal to the specification of the prefix done |
| FaceProperties.DeleteRowsEffect | lib/Classifiers/Images/ClusteringFaceClassifier.php:105-111 | After the first n deletes, a row is gone exactly when it was among the first n rows found and its delete did not throw. One delete per row was appended to `calls` in order, and config and jobs are unchanged |
| FaceProperties.RemoveExistingEffect | lib/Classifiers/Images/ClusteringFaceClassifier.php:102-115 | A failed lookup only appends the lookup to `calls` and deletes nothing. A successful lookup leaves `Survivors` and appends one delete per row of the file, whatever earlier deletes did. Config and jobs never change |
| FaceProperties.RemovalCollectsNothing | lib/Classifiers/Images/ClusteringFaceClassifier.php:102-115 | The removal phase only appends lookups and deletes to `calls` and collects no user |
| FaceProperties.RemovalCallsShape | lib/Classifiers/Images/ClusteringFaceClassifier.php:102-115 | The removal calls start with the lookup, and every one is a lookup or a delete. Every delete is of a row of this file. After a successful lookup, every stored row of the file has its delete attempted |
| FaceProperties.InsertAtLog | lib/Classifiers/Images/ClusteringFaceClassifier.php:82-88 | One insert attempt is appended to `calls` with its outcome. The table gains the row and the collected users gain its user exactly when the insert did not throw. Config and jobs are unchanged |
| FaceProperties.InsertForUsersEffect | lib/Classifiers/Images/ClusteringFaceClassifier.php:80-89 | The first m mounts give exactly the first m insert attempts, in mount order. The table gains exactly the rows whose insert succeeded, the collected users gain exactly their users, and config and jobs are unchanged |
| FaceProperties.ProcessFaceEffect | lib/Classifiers/Images/ClusteringFaceClassifier.php:62-91 | A face scoring below 0.8 changes nothing and appends nothing to `calls`. A face at 0.8 or above appends one insert attempt per mount (each row with that mount's user and the face's box, vector and file), then one status write of "true". Only successful rows and their users are kept |
| FaceProperties.ProcessFaceLog | lib/Classifiers/Images/ClusteringFaceClassifier.php:62-91 | One face appends its calls to `calls` and the rows of its successful inserts to the table. It collects exactly those rows' users, and it sets the status flag exactly when the face is kept |
| FaceProperties.ProcessFacesLog | lib/Classifiers/Images/ClusteringFaceClassifier.php:62-91 | Over the first n faces: `calls` grows by the faces' calls, the table by the rows of their successful inserts, and the collected users by those rows' users. The status flag is set exactly when some face among them is kept |
| FaceProperties.FacesCallsShape | lib/Classifiers/Images/ClusteringFaceClassifier.php:63-83 | The fan-out phase appends only inserts and status writes to `calls`. Each insert stores a kept face of this file for a user of one of the root's mounts |
| FaceProperties.FaceCallsCounts | lib/Classifiers/Images/ClusteringFaceClassifier.php:63-90 | A kept face makes as many insert attempts as the root has mounts, and one status write. A face below the threshold makes neither |
| FaceProperties.FacesCallsCounts | lib/Classifiers/Images/ClusteringFaceClassifier.php:74-90 | The number of insert attempts is the number of kept faces times the number of mounts. The number of status writes is the number of kept faces |
| FaceProperties.ProcessFacesEffect | lib/Classifiers/Images/ClusteringFaceClassifier.php:62-91 | A file's faces only append rows and calls. The collected users are those of the successful inserts, and jobs are unchanged. The flag is set iff some face is kept. Every call is an insert or a status write, and every insert is of a kept face of this file |
| FaceProperties.ProcessFileEffect | lib/Classifiers/Images/ClusteringFaceClassifier.php:60-92 | One file's calls are its removal calls, then exactly the calls of its faces (inserts and status writes), whatever the lookup and the deletes did. Its collected users are those of its successful inserts, jobs are unchanged, and the flag is set iff one of its faces is kept |
| FaceProperties.FileLogSplit | lib/Classifiers/Images/ClusteringFaceClassifier.php:60-92 | One file's calls are exactly its removal calls followed by calls that are all inserts or status writes |
| FaceProperties.DeleteBeforeInsert | lib/Classifiers/Images/ClusteringFaceClassifier.php:60-83 | A file's pass starts with the lookup of its rows, and no lookup or delete follows an insert or status write. Only rows of this file are deleted. After a successful lookup, every stored row of the file, of any user, has a delete attempted |
| FaceProperties.StaleDetectionsReplaced | lib/Classifiers/Images/ClusteringFaceClassifier.php:60-92 | When the lookup and all deletes succeed, the file's stored rows afterwards are exactly the rows this pass inserted, in insertion order |
| FaceProperties.InsertedRowsOfFile | lib/Classifiers/Images/ClusteringFaceClassifier.php:72-83 | Every row the fan-out stores carries the file id of the file being processed |
| FaceProperties.ProcessFilesEffect | lib/Classifiers/Images/ClusteringFaceClassifier.php:60-92 | Over the first n files only per-file calls are appended to `calls`. The collected users are exactly those of all successful inserts, in order, and jobs are unchanged. The status flag is set exactly when some face of some file is kept |
| FaceProperties.ScheduleEffect | lib/Classifiers/Images/ClusteringFaceClassifier.php:94-99 | For a list without repeats: each listed user ends with a job and no other job appears. The only calls appended to `calls` are adds (`has` is not recorded), each for a listed user who had no job. Every such user gets one, and no add is appended twice |
| FaceProperties.ScheduledUsersNeedNothing | lib/Classifiers/Images/ClusteringFaceClassifier.php:95-99 | Users who all hold a clustering job already cause no change and no call |
| FaceProperties.ScheduleTwice | lib/Classifiers/Images/ClusteringFaceClassifier.php:94-99 | Scheduling the same users a second time changes nothing |
| FaceProperties.ClassifyEffect | lib/Classifiers/Images/ClusteringFaceClassifier.php:50-100 | The whole of `classify`, in the five items listed under this table |
| AudioModel.AudioTimeout | lib/Classifiers/Audio/MusicnnClassifier.php:36-40 | The timeout is 300 exactly when `recognize/tensorflow.purejs` is present and equals "true", and 40 otherwise |
| AudioModel.TagFile | lib/Classifiers/Audio/MusicnnClassifier.php:43-46 | No contract of its own. It defines one yielded file: the tag assignment, then the status write. `AudioProperties.TagFilesEffect` states its effect |
| AudioModel.TagFiles | lib/Classifiers/Audio/MusicnnClassifier.php:43-46 | No contract of its own. It defines the first n yielded files, in order. `AudioProperties.TagFilesEffect` and `AudioProperties.TagFilesCalls` state its effect |
| AudioModel.ClassifySpec | lib/Classifiers/Audio/MusicnnClassifier.php:35-47 | No contract of its own. It defines the whole of `classify`: the inference call with the chosen timeout, then every yielded file. `AudioProperties.ClassifyEffect` states its effect |
| AudioClassifier.MusicnnClassifier.constructor | lib/Classifiers/Audio/MusicnnClassifier.php:25-29 | The classifier starts on the given config with no calls made |
| AudioClassifier.MusicnnClassifier.ClassifyFiles | lib/Classifiers/Audio/MusicnnClassifier.php:41 | The inference process is invoked once with model "musicnn", the batch and the timeout. Its yield is returned and the call is appended to `calls` |
| AudioClassifier.MusicnnClassifier.AssignTags | lib/Classifiers/Audio/MusicnnClassifier.php:44 | The tag assignment is appended to `calls` with the file id and the results as given |
| AudioClassifier.MusicnnClassifier.SetAppValue | lib/Classifiers/Audio/MusicnnClassifier.php:45 | The config maps the key to the value, other keys are unchanged, and the write is appended to `calls` |
| AudioClassifier.MusicnnClassifier.Classify | lib/Classifiers/Audio/MusicnnClassifier.php:35-47 | The new state is `AudioModel.ClassifySpec` of the old one, for what the inference process yields with the chosen timeout. The loop keeps the state equal to the specification of the files done |
| AudioProperties.TagFilesEffect | lib/Classifiers/Audio/MusicnnClassifier.php:43-46 | The first n files append exactly 2n calls to `calls`. Position 2i assigns the tags of file i with its own id and results, and position 2i+1 writes the status flag "true". The flag is untouched when n is 0 |
| AudioProperties.TagFilesAssignments | lib/Classifiers/Audio/MusicnnClassifier.php:43-44 | The tag assignments appended to `calls` are exactly the (file id, results) pairs of the first n yielded files, in yield order |
| AudioProperties.TagFilesCalls | lib/Classifiers/Audio/MusicnnClassifier.php:43-46 | A whole batch's files append exactly `AudioModel.TagCalls` to `calls`: per file, its tag assignment, then a status write. Their assignments are exactly the yielded pairs, and the flag changes iff something was yielded |
| AudioProperties.ClassifyEffect | lib/Classifiers/Audio/MusicnnClassifier.php:35-47 | The calls are exactly the one inference call followed by `TagCalls` of the yield. The inference call has "musicnn", the whole batch and the chosen timeout. `TagCalls` is, per yielded file in order, its tag assignment with its results unchanged, then a status write "true". The assignments are exactly the yielded pairs. The only config change is the flag, made iff something was yielded |

The five items that `FaceProperties.ClassifyEffect` states:
1. The inference process is invoked exactly once, first, with model "faces",
   the whole batch and the chosen timeout.
2. After it come only per-file lookups, deletes, inserts and status writes,
   and then job adds.
3. No lookup, delete, insert or status write follows an add, and no add is
   repeated. (`has` is not recorded in `calls`, so this says nothing about
   where the `has` checks fall.)
4. Each add is for a user with a stored row who had no job, and every such
   user gets one. The job list afterwards is the old one plus exactly those
   users' clustering jobs.
5. The status flag is set iff some yielded face was kept.

## Left out

- `classifyFiles`, in the parent `Classifier` class, is not part of this
  model. It spawns the inference process and enforces the timeout. Here its
  yield is the parameter `run`, and the timeout is only an argument to it.
- The yield of that process is a lazy generator in the source. The model
  takes it as a finite sequence.
- Exceptions that escape `classify` and abort the batch are not modelled.
  These come from the inference process, the mount cache, `setAppValue`, the
  job list and `TagManager::assignTags` (line 44 of the music classifier). A
  mapper exception that is not an `OCP\DB\Exception` also escapes: the
  `catch` blocks at lines 84, 108 and 112 of the face classifier only catch
  that class. Caught database exceptions are the outcomes the `Failures`
  oracle chooses.
- Logger output is left out; it has no effect on state. A caught exception
  appears only as the failed outcome appended to `calls`.
- Entity ids and the ORM mapper's mechanics are not modelled. Each insert
  stores the row value it is given, and a delete removes every row equal in
  value to the one found.
- Delete outcomes are keyed by (pass, row value), so value-equal rows of one
  pass always share a delete outcome. The source deletes each entity in its
  own `try` (line 107 of the face classifier). There, one copy's delete can
  throw while another copy's succeeds, leaving some but not all copies. Such
  a partial removal is not modelled. Value-equal rows do occur: a user with
  two mounts of the same root gets two equal rows. `FaceProperties.SurvivorsCounts`
  states what the model does instead: after removal, a row of the file keeps
  all its copies or none.
- One `FaceDetection` object is re-used and mutated across the inserts of a
  face (lines 66-81 of the face classifier). This is not modelled: each insert
  is modelled as storing a fresh row for its user.
- Scores, box coordinates and vectors are modelled as mathematical reals and
  integers. PHP floating point is not modelled; only the `< 0.8` comparison
  matters.
- The internals of `TagManager::assignTags` are not part of this model. Only
  the call and its arguments are recorded. The promise that no existing tags
  are removed is therefore stated only as: the tag manager receives nothing but
  these assignments.
- `FaceModel.Unique`: its contract does not state that `array_unique` keeps
  the first occurrence of each user in order. The function's definition does
  so, and the scheduling loop and its lemmas use that definition.
- The job list is a set of (job class, user id). The job class is written as
  the name "ClusterFacesJob" instead of the PHP class-name string, and job
  execution is not modelled.
- The config store's persistence is not modelled. It is a map from
  (app id, key) to string.
- The mount cache's `ICachedMountInfo` and `IUser` objects are reduced to the
  user id of each mount. A root the cache does not know has no mounts.
