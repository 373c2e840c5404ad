/** Peer addresses: which part of a parsed URL register_node keeps. */
module Peers {
  import opened Blocks

  /** The two parts of a parsed URL that register_node reads: the network
      location ("host:port" after a scheme) and the path (where a bare
      "host:port" without a scheme ends up). */
  datatype ParsedUrl = ParsedUrl(netloc: string, path: string)

  /** The error register_node raises for an address with neither part. */
  datatype RegisterError = InvalidUrl

  /** The address register_node stores for a parsed URL: the network location
      when there is one, otherwise the path; an error when both are empty. */
  function NodeAddress(url: ParsedUrl): (r: Result<string, RegisterError>)
    ensures r.Success? <==> url.netloc != "" || url.path != ""
    ensures r.Success? ==> r.value != "" && (r.value == url.netloc || r.value == url.path)
    ensures url.netloc != "" ==> r == Success(url.netloc)
  {
    if url.netloc != "" then Success(url.netloc)
    else if url.path != "" then Success(url.path)
    else Failure(InvalidUrl)
  }
}
