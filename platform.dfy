/** Host-platform collaborators shared by both classifiers: queue rows, app
    configuration and background-job keys, reduced to plain values. */
module Platform {

  type FileId = nat
  type RootId = nat
  type UserId = string

  datatype Option<+T> = None | Some(value: T)

  /** One entry of the classification queue: the file to classify and the
      storage root it is stored under. */
  datatype QueueFile = QueueFile(id: nat, fileId: FileId, rootId: RootId)

  /** App configuration is a string-to-string store addressed by (app id, key). */
  datatype ConfigKey = ConfigKey(app: string, key: string)
  type Config = map<ConfigKey, string>

  const APP_ID := "recognize"

  /** Selects the portable (pure JavaScript) inference backend when set to "true". */
  const PUREJS_KEY := ConfigKey(APP_ID, "tensorflow.purejs")

  /** `getAppValue`: the stored value, or `default` when the key is absent. */
  function GetAppValue(config: Config, key: ConfigKey, default: string): string
  {
    if key in config then config[key] else default
  }

  /** The backend-mode test both classifiers perform: the stored value (default
      "false") compared with "true" by strict string equality. */
  predicate PureJs(config: Config)
  {
    GetAppValue(config, PUREJS_KEY, "false") == "true"
  }

  /** Key of a model's status flag, "<model name>.status". */
  function StatusKey(modelName: string): ConfigKey
  {
    ConfigKey(APP_ID, modelName + ".status")
  }

  /** A background job as the job list identifies it: its class and its
      `userId` argument. */
  datatype Job = Job(jobClass: string, userId: UserId)

  predicate NoDuplicates<T(==)>(s: seq<T>)
  {
    forall a, b :: 0 <= a < b < |s| ==> s[a] != s[b]
  }
}
