/** Values shared by the four family services: the errors a pass ends with,
    the requests made to the download endpoints, and the record of one pass. */
module Common {

  /** The ways an update pass fails. Failures of the operating system
      (remove, create, write, read-directory) are not part of the model. */
  datatype Error =
    | CatalogError     // the catalog response had its success flag set to false
    | DownloadError    // a download endpoint did not answer with status 200
    | IndexOutOfRange  // a Go slice index past the end, which panics

  datatype Result<T> = Ok(value: T) | Err(error: Error)

  datatype Outcome = Done | Fail(error: Error)

  datatype Option<T> = None | Some(value: T)

  /** One request to a download endpoint of the remote API. */
  datatype Request =
    | PluginJar(name: string, version: string)
    | Build(family: string, version: string)
    | MapWorld(minigame: string, format: string, mapName: string, version: string)
    | MapConfig(minigame: string, format: string, mapName: string, version: string)

  /** What a pass (or part of one) did: how it ended, the state of the
      directory it leaves behind, and the downloads it asked for, in order. */
  datatype Pass<S> = Pass(outcome: Outcome, state: S, fetched: seq<Request>)

  /** What a pass fetched, read back from the log it extended. */
  lemma LogSuffix(before: seq<Request>, log: seq<Request>)
    ensures |before + log| >= |before|
    ensures (before + log)[..|before|] == before
    ensures (before + log)[|before|..] == log
  {
  }
}
