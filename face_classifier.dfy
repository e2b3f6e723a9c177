/** `ClusteringFaceClassifier`: the face result handler as the imperative
    code it is. The collaborators it calls (face detection mapper, app
    config, job list) are fields holding their state, and `calls` records
    the inference call, the calls whose exception is caught and the calls
    that change state; `getAppValue`, `getMountsForRootId` and `has` change
    nothing, their exceptions are not caught, and they are not recorded. */
module FaceClassifier {
  import opened Platform
  import opened FaceModel

  class ClusteringFaceClassifier {
    var detections: seq<Detection>
    var config: Config
    var jobs: set<Job>
    var calls: seq<Call>

    function State(): World
      reads this
    {
      World(detections, config, jobs, calls)
    }

    constructor (detections: seq<Detection>, config: Config, jobs: set<Job>)
      ensures State() == World(detections, config, jobs, [])
    {
      this.detections := detections;
      this.config := config;
      this.jobs := jobs;
      this.calls := [];
    }

    /** The parent class's `classifyFiles`: one call to the inference process,
        whose per-file output `run` stands for. */
    method ClassifyFiles(queueFiles: seq<QueueFile>, timeout: nat, run: (string, seq<QueueFile>, nat) -> seq<Yield>)
      returns (yielded: seq<Yield>)
      modifies this`calls
      ensures yielded == run(MODEL_NAME, queueFiles, timeout)
      ensures calls == old(calls) + [CallClassifyFiles(MODEL_NAME, queueFiles, timeout)]
    {
      yielded := run(MODEL_NAME, queueFiles, timeout);
      calls := calls + [CallClassifyFiles(MODEL_NAME, queueFiles, timeout)];
    }

    /** Mapper `findByFileId`; `None` when the query throws. */
    method FindByFileId(fileId: FileId, fails: bool) returns (found: Option<seq<Detection>>)
      modifies this`calls
      ensures found == if fails then None else Some(RowsOfFile(detections, fileId))
      ensures calls == old(calls) + [CallFindByFileId(fileId, !fails)]
    {
      found := if fails then None else Some(RowsOfFile(detections, fileId));
      calls := calls + [CallFindByFileId(fileId, !fails)];
    }

    /** Mapper `delete`; a failing delete leaves the table as it was. */
    method Delete(row: Detection, fails: bool)
      modifies this`detections, this`calls
      ensures detections == if fails then old(detections) else Without(old(detections), row)
      ensures calls == old(calls) + [CallDelete(row, !fails)]
    {
      if !fails {
        detections := Without(detections, row);
      }
      calls := calls + [CallDelete(row, !fails)];
    }

    /** Mapper `insert`; `ok` is false when it throws. */
    method Insert(row: Detection, fails: bool) returns (ok: bool)
      modifies this`detections, this`calls
      ensures ok == !fails
      ensures detections == if ok then old(detections) + [row] else old(detections)
      ensures calls == old(calls) + [CallInsert(row, ok)]
    {
      ok := !fails;
      if ok {
        detections := detections + [row];
      }
      calls := calls + [CallInsert(row, ok)];
    }

    method SetAppValue(key: ConfigKey, value: string)
      modifies this`config, this`calls
      ensures config == old(config)[key := value]
      ensures calls == old(calls) + [CallSetAppValue(key, value)]
    {
      config := config[key := value];
      calls := calls + [CallSetAppValue(key, value)];
    }

    method Has(job: Job) returns (present: bool)
      ensures present <==> job in jobs
    {
      present := job in jobs;
    }

    method Add(job: Job)
      modifies this`jobs, this`calls
      ensures jobs == old(jobs) + {job}
      ensures calls == old(calls) + [CallAdd(job)]
    {
      jobs := jobs + {job};
      calls := calls + [CallAdd(job)];
    }

    /** Deletes every stored detection of the file, for all users; a failing
        delete or lookup is logged and skipped. `pass` is the file's position
        in the batch, by which `fail` names the operations that throw. */
    method RemoveExistingFaces(queueFile: QueueFile, pass: nat, fail: Failures)
      modifies this
      ensures State() == RemoveExisting(old(State()), pass, queueFile.fileId, fail)
    {
      var found := FindByFileId(queueFile.fileId, pass in fail.lookups);
      if found.Some? {
        var existing := found.value;
        ghost var afterLookup := State();
        for k := 0 to |existing|
          invariant State() == DeleteRows(afterLookup, pass, existing, fail, k)
        {
          Delete(existing[k], (pass, existing[k]) in fail.deletes);
        }
      }
    }

    /** Classifies a batch: per yielded file, removes its stored detections,
        then stores each face scoring at least the threshold once per mount
        of the file's root and sets the status flag; finally adds a clustering
        job for each user with a stored detection that has none yet. */
    method Classify(queueFiles: seq<QueueFile>, run: (string, seq<QueueFile>, nat) -> seq<Yield>, mounts: Mounts, fail: Failures)
      modifies this
      ensures State() == ClassifySpec(old(State()), queueFiles, run(MODEL_NAME, queueFiles, ImageTimeout(old(config))), mounts, fail)
    {
      var timeout := ImageTimeout(config);
      var usersToCluster: seq<UserId> := [];
      var classifierProcess := ClassifyFiles(queueFiles, timeout, run);
      ghost var start := Run(State(), usersToCluster);

      for i := 0 to |classifierProcess|
        invariant Run(State(), usersToCluster) == ProcessFiles(start, classifierProcess, mounts, fail, i)
      {
        var queueFile := classifierProcess[i].0;
        var faces := classifierProcess[i].1;
        ghost var beforeFile := Run(State(), usersToCluster);
        RemoveExistingFaces(queueFile, i, fail);
        ghost var removed := Run(State(), usersToCluster);
        assert removed == Run(RemoveExisting(beforeFile.w, i, queueFile.fileId, fail), beforeFile.toCluster);

        for j := 0 to |faces|
          invariant Run(State(), usersToCluster) == ProcessFaces(removed, i, queueFile, faces, mounts, fail, j)
        {
          var face := faces[j];
          if face.score < MIN_FACE_RECOGNITION_SCORE {
            continue;
          }
          var userIds := UsersForRoot(mounts, queueFile.rootId);
          ghost var beforeFace := Run(State(), usersToCluster);
          for k := 0 to |userIds|
            invariant Run(State(), usersToCluster) == InsertForUsers(beforeFace, i, j, face, queueFile.fileId, userIds, fail, k)
          {
            var userId := userIds[k];
            var ok := Insert(Record(face, queueFile.fileId, userId), InsertSite(i, j, k) in fail.inserts);
            if ok {
              usersToCluster := usersToCluster + [userId];
            }
          }
          SetAppValue(STATUS_KEY, "true");
        }
      }

      var unique := Unique(usersToCluster);
      ghost var beforeScheduling := State();
      for k := 0 to |unique|
        invariant State() == Schedule(beforeScheduling, unique, k)
      {
        var job := Job(CLUSTER_FACES_JOB, unique[k]);
        var present := Has(job);
        if !present {
          Add(job);
        }
      }
    }
  }
}
