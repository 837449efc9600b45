/** The calls the handlers make to outside services, recorded in the order
    they are made. */
module Services {

  /** A call to an external service: the identity lookup by fid, the
      username search, and the token-ownership request for one address. */
  datatype Call = FetchUserByFid(fid: int) | SearchUsers(query: string) | FetchTokens(address: string)

  /** One ownership call per address, in address order. */
  function TokenCalls(addresses: seq<string>): (r: seq<Call>)
    ensures |r| == |addresses|
    ensures forall i :: 0 <= i < |addresses| ==> r[i] == FetchTokens(addresses[i])
  {
    if |addresses| == 0 then [] else [FetchTokens(addresses[0])] + TokenCalls(addresses[1..])
  }
}
