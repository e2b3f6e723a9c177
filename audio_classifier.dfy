/** `MusicnnClassifier`: the music-genre result handler as the imperative code
    it is. The app config is a field, and `calls` records the calls to the
    inference process, the tag manager and `setAppValue`; the one
    `getAppValue` read is not recorded. */
module AudioClassifier {
  import opened Platform
  import opened AudioModel

  class MusicnnClassifier {
    var config: Config
    var calls: seq<Call>

    function State(): World
      reads this
    {
      World(config, calls)
    }

    constructor (config: Config)
      ensures State() == World(config, [])
    {
      this.config := config;
      this.calls := [];
    }

    /** The parent class's `classifyFiles`: one call to the inference process,
        whose per-file output `run` stands for. */
    method ClassifyFiles(queueFiles: seq<QueueFile>, timeout: nat, run: (string, seq<QueueFile>, nat) -> seq<Yield>)
      returns (yielded: seq<Yield>)
      modifies this`calls
      ensures yielded == run(MODEL_NAME, queueFiles, timeout)
      ensures calls == old(calls) + [CallClassifyFiles(MODEL_NAME, queueFiles, timeout)]
    {
      yielded := run(MODEL_NAME, queueFiles, timeout);
      calls := calls + [CallClassifyFiles(MODEL_NAME, queueFiles, timeout)];
    }

    /** Tag manager `assignTags`; what it stores is not part of this model. */
    method AssignTags(fileId: FileId, results: Results)
      modifies this`calls
      ensures calls == old(calls) + [CallAssignTags(fileId, results)]
    {
      calls := calls + [CallAssignTags(fileId, results)];
    }

    method SetAppValue(key: ConfigKey, value: string)
      modifies this`config, this`calls
      ensures config == old(config)[key := value]
      ensures calls == old(calls) + [CallSetAppValue(key, value)]
    {
      config := config[key := value];
      calls := calls + [CallSetAppValue(key, value)];
    }

    /** Classifies a batch: per yielded file, assigns its tags and sets the
        status flag. */
    method Classify(queueFiles: seq<QueueFile>, run: (string, seq<QueueFile>, nat) -> seq<Yield>)
      modifies this
      ensures State() == ClassifySpec(old(State()), queueFiles, run(MODEL_NAME, queueFiles, AudioTimeout(old(config))))
    {
      var timeout := AudioTimeout(config);
      var classifierProcess := ClassifyFiles(queueFiles, timeout, run);
      ghost var start := State();
      for i := 0 to |classifierProcess|
        invariant State() == TagFiles(start, classifierProcess, i)
      {
        var queueFile := classifierProcess[i].0;
        var results := classifierProcess[i].1;
        AssignTags(queueFile.fileId, results);
        SetAppValue(STATUS_KEY, "true");
      }
    }
  }
}
