/** What one completed outbound request is reported as. */
module Upstream {

  datatype Verb = GET | POST | PUT | PATCH | DELETE

  /** The status and the response size are zero when no response came. */
  datatype Observation = Observation(verb: Verb, status: int, inBytes: nat, outBytes: nat, seconds: real)
}
