/**
 * Compiled artifacts, the file system they are read from, and the network
 * decoration the watcher applies when it reads one.
 */
module Artifacts {
  import opened Wrappers
  import opened Paths

  /** One entry of an artifact's `networks` object. */
  datatype Deployment = Deployment(address: Option<string>, transactionHash: Option<string>)

  /**
   * A parsed artifact document: its other top-level properties, its
   * `networks` object (None when the document has none, or is not an object
   * at all), and the top-level `address` and `creationTxHash` properties.
   */
  datatype Artifact = Artifact(
    metadata: map<string, string>,
    networks: Option<map<string, Deployment>>,
    address: Option<string>,
    creationTxHash: Option<string>)

  /**
   * What the watcher observes of the file system during one synchronous
   * callback: whether a path exists, the entries of a directory in the order
   * the listing returns them, and the result of reading and JSON-parsing a
   * file (None when the read or the parse throws).
   */
  datatype Disk = Disk(
    isPresent: string -> bool,
    listDir: string -> seq<string>,
    readFile: string -> Option<Artifact>)

  /**
   * The body of `readContract` after the read: a failed read or parse, or a
   * document without `networks` (whose indexing throws), gives null; an
   * entry for `networkId` is copied into `address` and `creationTxHash`;
   * otherwise the document is returned as parsed.
   */
  function Decorate(parsed: Option<Artifact>, networkId: string): (r: Option<Artifact>)
    ensures r.Some? <==> parsed.Some? && parsed.value.networks.Some?
    ensures r.Some? ==> r.value.metadata == parsed.value.metadata && r.value.networks == parsed.value.networks
    ensures r.Some? && networkId in r.value.networks.value ==>
              r.value.address == r.value.networks.value[networkId].address &&
              r.value.creationTxHash == r.value.networks.value[networkId].transactionHash
    ensures r.Some? && networkId !in r.value.networks.value ==> r == parsed
  {
    match parsed
    case None => None
    case Some(a) =>
      match a.networks
      case None => None
      case Some(nets) =>
        if networkId in nets then
          Some(a.(address := nets[networkId].address, creationTxHash := nets[networkId].transactionHash))
        else Some(a)
  }

  /** `readContract(file)`: read `file` from the artifacts directory `dir` and decorate it. */
  function ReadContract(disk: Disk, dir: string, networkId: string, file: string): (r: Option<Artifact>)
    ensures var parsed := disk.readFile(Join(dir, file));
            && (r.Some? <==> parsed.Some? && parsed.value.networks.Some?)
            && (r.Some? ==> r.value.metadata == parsed.value.metadata && r.value.networks == parsed.value.networks)
            && (r.Some? && networkId in r.value.networks.value ==>
                  r.value.address == r.value.networks.value[networkId].address &&
                  r.value.creationTxHash == r.value.networks.value[networkId].transactionHash)
            && (r.Some? && networkId !in r.value.networks.value ==> r == parsed)
  {
    Decorate(disk.readFile(Join(dir, file)), networkId)
  }
}
