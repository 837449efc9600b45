/** The two request handlers that run the token-count pipeline: the cast
    action (`POST /decentral-perk`) behind the signature check, and the
    result frame (`/result`) driven by a typed username. The verifier, the
    identity service and the ownership service are parameters; each handler
    also returns the list of service calls it made, in order. */
module Handlers {
  import opened Wrappers
  import opened Text
  import opened Aggregation
  import opened Message
  import opened Decimal
  import opened Services

  /** What the frame-message verifier reports: validity and the fid of the
      cast the action was taken on. */
  datatype Verdict = Verdict(isValid: bool, castFid: int)

  /** The fields the handlers read from an identity-service user. */
  datatype UserRecord = UserRecord(username: string, ethAddresses: seq<string>)

  /** A JSON reply `{ message }` with its HTTP status. */
  datatype Reply = Reply(status: nat, message: string)

  /** The card the result frame renders. */
  datatype Screen = ResultCard(sentence: string) | NotFoundCard | ErrorCard

  const Unauthorized: string := "Unauthorized"
  const FetchError: string := "Error fetching user data. Try Again."

  /** Lower-case the user's addresses, look each one up, add the counts. */
  method CountTokens(user: UserRecord, ownership: (nat, string) -> Lookup) returns (total: nat, calls: seq<Call>)
    ensures total == Total(LookupAll(Normalize(user.ethAddresses), ownership))
    ensures calls == TokenCalls(Normalize(user.ethAddresses))
    ensures forall i :: 0 <= i < |calls| ==> HasNoUpper(calls[i].address)
  {
    var addresses := Normalize(user.ethAddresses);
    NormalizeIdempotent(user.ethAddresses);
    var counts;
    counts, calls := CollectCounts(addresses, ownership);
    assert calls == TokenCalls(addresses);
    total := SumCounts(counts);
  }

  /** The cast action. An invalid message is answered 401 "Unauthorized"
      before any service is called; a failed or empty identity lookup is
      answered 500; otherwise the reply is 200 with the formatted total, after
      exactly one identity call and one ownership call per address. */
  method CastAction(verdict: Verdict, userByFid: int -> Option<UserRecord>, ownership: (nat, string) -> Lookup)
    returns (reply: Reply, calls: seq<Call>)
    ensures reply.status == 401 <==> !verdict.isValid
    ensures !verdict.isValid ==> reply.message == Unauthorized && calls == []
    ensures verdict.isValid ==> |calls| >= 1 && calls[0] == FetchUserByFid(verdict.castFid)
    ensures verdict.isValid && userByFid(verdict.castFid).None? ==>
      reply == Reply(500, FetchError) && calls == [FetchUserByFid(verdict.castFid)]
    ensures verdict.isValid && userByFid(verdict.castFid).Some? ==>
      var user := userByFid(verdict.castFid).value;
      var total := Total(LookupAll(Normalize(user.ethAddresses), ownership));
      && reply == Reply(200, Format(user.username, total))
      && calls == [FetchUserByFid(verdict.castFid)] + TokenCalls(Normalize(user.ethAddresses))
    ensures reply.status == 200 ==> EndsWith(reply.message, Label)
  {
    if !verdict.isValid {
      return Reply(401, Unauthorized), [];
    }
    calls := [FetchUserByFid(verdict.castFid)];
    var found := userByFid(verdict.castFid);
    if found.None? {
      return Reply(500, FetchError), calls;
    }
    var user := found.value;
    var total, tokenCalls := CountTokens(user, ownership);
    FormatBounds(user.username, total);
    reply := Reply(200, Format(user.username, total));
    calls := calls + tokenCalls;
  }

  /** The search query `${username}`: a template literal writes an absent
      input as "undefined". */
  function QueryText(inputText: Option<string>): (r: string)
    ensures inputText.Some? ==> r == inputText.value
    ensures inputText.None? ==> r == "undefined"
  {
    inputText.GetOr("undefined")
  }

  /** The name in the card's `@{username}`: JSX renders an absent value as
      nothing. */
  function CardName(inputText: Option<string>): (r: string)
    ensures inputText.Some? ==> r == inputText.value
    ensures inputText.None? ==> r == []
  {
    inputText.GetOr("")
  }

  /** The query sent and the name shown are the same text exactly when there
      was an input; without one, the query says "undefined" and the card
      greets an empty name. */
  lemma QueryAndCardName(inputText: Option<string>, total: nat)
    ensures QueryText(inputText) == CardName(inputText) <==> inputText.Some?
    ensures inputText.None? ==>
      ResultSentence(CardName(inputText), total) == "@" + SentenceHead + ToDecimal(total) + SentenceTail
  {
    if inputText.None? {
      assert "@" + CardName(inputText) == "@";
    }
  }

  /** The result frame. A failed search renders the error card, a search
      with no users the not-found card; otherwise the first user's addresses
      are counted and the card greets the name as typed, or no name when
      nothing was typed. */
  method ResultFrame(inputText: Option<string>, search: string -> Option<seq<UserRecord>>, ownership: (nat, string) -> Lookup)
    returns (screen: Screen, calls: seq<Call>)
    ensures |calls| >= 1 && calls[0] == SearchUsers(QueryText(inputText))
    ensures screen.ErrorCard? <==> search(QueryText(inputText)).None?
    ensures screen.NotFoundCard? <==> search(QueryText(inputText)) == Some([])
    ensures screen.ResultCard? ==>
      var user := search(QueryText(inputText)).value[0];
      var total := Total(LookupAll(Normalize(user.ethAddresses), ownership));
      && screen.sentence == ResultSentence(CardName(inputText), total)
      && calls == [SearchUsers(QueryText(inputText))] + TokenCalls(Normalize(user.ethAddresses))
    ensures !screen.ResultCard? ==> calls == [SearchUsers(QueryText(inputText))]
  {
    var username := QueryText(inputText);
    calls := [SearchUsers(username)];
    var response := search(username);
    if response.None? {
      return ErrorCard, calls;
    }
    var users := response.value;
    if |users| == 0 {
      return NotFoundCard, calls;
    }
    var total, tokenCalls := CountTokens(users[0], ownership);
    screen := ResultCard(ResultSentence(CardName(inputText), total));
    calls := calls + tokenCalls;
  }
}
