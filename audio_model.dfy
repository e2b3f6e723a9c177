/** The music-genre result handler as a specification: the timeout choice,
    and the effect of each yielded file on the app config and on the log of
    calls made to the tag manager and the config. */
module AudioModel {
  import opened Platform
  import opened CallLog

  const AUDIO_TIMEOUT: nat := 40
  const AUDIO_PUREJS_TIMEOUT: nat := 300
  const MODEL_NAME := "musicnn"
  const STATUS_KEY := StatusKey(MODEL_NAME)

  /** The tags the inference process reports for one file; they are passed
      on to the tag manager as they are. */
  type Results = seq<string>

  /** What the inference process yields for one file. */
  type Yield = (QueueFile, Results)

  /** A call made to a collaborator. */
  datatype Call =
    | CallClassifyFiles(model: string, files: seq<QueueFile>, timeout: nat)
    | CallAssignTags(fileId: FileId, results: Results)
    | CallSetAppValue(key: ConfigKey, value: string)

  /** The app config and the calls made so far. */
  datatype World = World(config: Config, calls: seq<Call>)

  /** Timeout for the inference call: the portable backend gets longer. */
  function AudioTimeout(config: Config): (t: nat)
    ensures t == AUDIO_PUREJS_TIMEOUT <==> PUREJS_KEY in config && config[PUREJS_KEY] == "true"
    ensures t == AUDIO_TIMEOUT <==> !(PUREJS_KEY in config && config[PUREJS_KEY] == "true")
  {
    if PureJs(config) then AUDIO_PUREJS_TIMEOUT else AUDIO_TIMEOUT
  }

  /** One yielded file: its tags are assigned, then the status flag is set. */
  function TagFile(w: World, y: Yield): World
  {
    World(w.config[STATUS_KEY := "true"],
          w.calls + [CallAssignTags(y.0.fileId, y.1), CallSetAppValue(STATUS_KEY, "true")])
  }

  /** The first `n` yielded files. */
  function TagFiles(w: World, ys: seq<Yield>, n: nat): World
    requires n <= |ys|
  {
    if n == 0 then w else TagFile(TagFiles(w, ys, n - 1), ys[n - 1])
  }

  /** `classify` on a batch, given what the inference process yields for it. */
  function ClassifySpec(w: World, queueFiles: seq<QueueFile>, ys: seq<Yield>): World
  {
    var invoked := w.(calls := w.calls + [CallClassifyFiles(MODEL_NAME, queueFiles, AudioTimeout(w.config))]);
    TagFiles(invoked, ys, |ys|)
  }

  // ---------------------------------------------------------------------
  // Reference definitions the properties are stated with

  /** The (file id, results) pairs of the tag assignments in a log, in order. */
  function Assignments(calls: seq<Call>): seq<(FileId, Results)>
  {
    if calls == [] then []
    else
      var last := calls[|calls| - 1];
      Assignments(calls[..|calls| - 1])
        + (if last.CallAssignTags? then [(last.fileId, last.results)] else [])
  }

  /** The calls a batch's files make, written out by position: the tags of
      file `i / 2` at even positions, a status write at odd ones. */
  function TagCalls(ys: seq<Yield>): seq<Call>
  {
    seq(2 * |ys|, i requires 0 <= i < 2 * |ys| =>
      if i % 2 == 0 then CallAssignTags(ys[i / 2].0.fileId, ys[i / 2].1)
      else CallSetAppValue(STATUS_KEY, "true"))
  }

  /** The (file id, results) pairs of a batch's yield. */
  function Yielded(ys: seq<Yield>): seq<(FileId, Results)>
  {
    seq(|ys|, k requires 0 <= k < |ys| => (ys[k].0.fileId, ys[k].1))
  }
}
