/** The token-count pipeline shared by the cast-action and the result-frame
    handlers: lower-case the verified addresses, ask the ownership service
    once per address, record one count per address, add the counts up. */
module Aggregation {
  import opened Text
  import opened Services

  /** What one ownership lookup for one address came back with: the count of
      the first token entry, a reply with no token entries, or a thrown error
      (network, malformed JSON). */
  datatype Lookup = Found(count: nat) | NoTokens | Failed

  /** The count the handler pushes for one lookup: "no tokens" and "lookup
      threw" both push 0. */
  function Contribution(o: Lookup): nat {
    match o
    case Found(n) => n
    case NoTokens => 0
    case Failed => 0
  }

  // ---------------------------------------------------------------------------
  // Address normalisation

  /** `eth_addresses.map(a => a.toLowerCase())`: same length, same order, no
      de-duplication, each element lower-cased. */
  function Normalize(addresses: seq<string>): (r: seq<string>)
    ensures |r| == |addresses|
    ensures forall i :: 0 <= i < |addresses| ==> r[i] == Lower(addresses[i])
    ensures forall i :: 0 <= i < |r| ==> HasNoUpper(r[i])
  {
    if |addresses| == 0 then [] else [Lower(addresses[0])] + Normalize(addresses[1..])
  }

  /** Two entries of the address list normalise to the same address exactly
      when they differ only in letter case. */
  lemma {:induction false} NormalizeMergesCaseVariants(addresses: seq<string>)
    ensures forall i, j :: 0 <= i < |addresses| && 0 <= j < |addresses| ==>
      (Normalize(addresses)[i] == Normalize(addresses)[j] <==> EqualIgnoringCase(addresses[i], addresses[j]))
  {
    forall i, j | 0 <= i < |addresses| && 0 <= j < |addresses|
      ensures Normalize(addresses)[i] == Normalize(addresses)[j] <==> EqualIgnoringCase(addresses[i], addresses[j])
    {
      LowerMergesCaseVariants(addresses[i], addresses[j]);
    }
  }

  /** One address: lower-casing merges exactly the case variants. */
  lemma LowerMergesCaseVariants(a: string, b: string)
    ensures Lower(a) == Lower(b) <==> EqualIgnoringCase(a, b)
  {
    if EqualIgnoringCase(a, b) {
      forall k | 0 <= k < |a|
        ensures Lower(a)[k] == Lower(b)[k]
      {
        LowerCharIsCaseFold(a[k], b[k]);
      }
    }
    if Lower(a) == Lower(b) {
      forall k | 0 <= k < |a|
        ensures SameLetter(a[k], b[k])
      {
        assert Lower(a)[k] == Lower(b)[k];
        LowerCharIsCaseFold(a[k], b[k]);
      }
    }
  }

  /** Normalising normalised addresses changes nothing. */
  lemma NormalizeIdempotent(addresses: seq<string>)
    ensures Normalize(Normalize(addresses)) == Normalize(addresses)
  {
    var n := Normalize(addresses);
    forall i | 0 <= i < |addresses|
      ensures Lower(n[i]) == n[i]
    {
      assert forall k :: 0 <= k < |n[i]| ==> LowerChar(n[i][k]) == n[i][k];
    }
  }

  // ---------------------------------------------------------------------------
  // Collection and sum

  /** One ownership request per address, in address order. `ownership(i, a)`
      is the reply to the `i`-th request, made for address `a`: each request
      is answered on its own, so two requests for the same address may come
      back differently. */
  function LookupAll(addresses: seq<string>, ownership: (nat, string) -> Lookup): (r: seq<Lookup>)
    ensures |r| == |addresses|
    ensures forall i :: 0 <= i < |addresses| ==> r[i] == ownership(i, addresses[i])
  {
    seq(|addresses|, i requires 0 <= i < |addresses| => ownership(i, addresses[i]))
  }

  function Sum(xs: seq<nat>): nat {
    if |xs| == 0 then 0 else xs[0] + Sum(xs[1..])
  }

  lemma {:induction false} SumAppend(xs: seq<nat>, ys: seq<nat>)
    ensures Sum(xs + ys) == Sum(xs) + Sum(ys)
  {
    if |xs| > 0 {
      assert (xs + ys)[1..] == xs[1..] + ys;
      SumAppend(xs[1..], ys);
    } else {
      assert xs + ys == ys;
    }
  }

  /** The per-address counts: exactly one per lookup, in order. */
  function Counts(outcomes: seq<Lookup>): (r: seq<nat>)
    ensures |r| == |outcomes|
    ensures forall i :: 0 <= i < |outcomes| ==> r[i] == Contribution(outcomes[i])
  {
    if |outcomes| == 0 then [] else [Contribution(outcomes[0])] + Counts(outcomes[1..])
  }

  /** The sum of the per-address counts: only the lookups that found tokens
      add anything. */
  function Total(outcomes: seq<Lookup>): (r: nat)
    ensures r == Sum(FoundCounts(outcomes))
  {
    CountsSumIsSumOfFound(outcomes);
    Sum(Counts(outcomes))
  }

  /** The loop of the handler: one request and one `push` per address, in
      order, whatever the lookup came back with; nothing stops the loop early.
      Each request is logged as it is made. */
  method CollectCounts(addresses: seq<string>, ownership: (nat, string) -> Lookup)
    returns (counts: seq<nat>, calls: seq<Call>)
    ensures |counts| == |addresses|
    ensures counts == Counts(LookupAll(addresses, ownership))
    ensures forall i :: 0 <= i < |addresses| ==> counts[i] == Contribution(ownership(i, addresses[i]))
    ensures |calls| == |addresses|
    ensures forall i :: 0 <= i < |addresses| ==> calls[i] == FetchTokens(addresses[i])
  {
    counts := [];
    calls := [];
    var i := 0;
    while i < |addresses|
      invariant 0 <= i <= |addresses|
      invariant |counts| == i
      invariant forall j :: 0 <= j < i ==> counts[j] == Contribution(ownership(j, addresses[j]))
      invariant calls == TokenCalls(addresses[..i])
    {
      TokenCallsSnoc(addresses, i);
      calls := calls + [FetchTokens(addresses[i])];
      var outcome := ownership(i, addresses[i]);
      if outcome.Found? {
        counts := counts + [outcome.count];
      } else {
        counts := counts + [0];
      }
      i := i + 1;
    }
    assert addresses[..i] == addresses;
    CountsOfLookups(addresses, ownership, counts);
  }

  /** Logging one more request extends the log by that request. */
  lemma TokenCallsSnoc(addresses: seq<string>, i: nat)
    requires i < |addresses|
    ensures TokenCalls(addresses[..i + 1]) == TokenCalls(addresses[..i]) + [FetchTokens(addresses[i])]
  {
  }

  /** Counts pushed position by position are the counts of the lookups. */
  lemma CountsOfLookups(addresses: seq<string>, ownership: (nat, string) -> Lookup, counts: seq<nat>)
    requires |counts| == |addresses|
    requires forall i :: 0 <= i < |addresses| ==> counts[i] == Contribution(ownership(i, addresses[i]))
    ensures counts == Counts(LookupAll(addresses, ownership))
  {
  }

  /** `tokenCounts.reduce((acc, count) => acc + parseInt(count), 0)`: a
      left-to-right accumulation that equals the sum of the counts. */
  method SumCounts(counts: seq<nat>) returns (total: nat)
    ensures total == Sum(counts)
  {
    total := 0;
    var i := 0;
    while i < |counts|
      invariant 0 <= i <= |counts|
      invariant total == Sum(counts[..i])
    {
      SumAppend(counts[..i], [counts[i]]);
      assert counts[..i + 1] == counts[..i] + [counts[i]];
      total := total + counts[i];
      i := i + 1;
    }
    assert counts[..i] == counts;
  }

  // ---------------------------------------------------------------------------
  // Properties of the total

  /** Lookups are independent: the total over two runs of addresses is the sum
      of the totals, so a lookup never suppresses the ones after it. */
  lemma {:induction false} TotalAppend(xs: seq<Lookup>, ys: seq<Lookup>)
    ensures Total(xs + ys) == Total(xs) + Total(ys)
  {
    CountsAppend(xs, ys);
    SumAppend(Counts(xs), Counts(ys));
  }

  lemma CountsAppend(xs: seq<Lookup>, ys: seq<Lookup>)
    ensures Counts(xs + ys) == Counts(xs) + Counts(ys)
  {
    var l := Counts(xs + ys);
    var r := Counts(xs) + Counts(ys);
    assert |l| == |r|;
    forall i | 0 <= i < |l|
      ensures l[i] == r[i]
    {
      if i < |xs| {
        assert (xs + ys)[i] == xs[i];
      } else {
        assert (xs + ys)[i] == ys[i - |xs|];
      }
    }
  }

  lemma TotalSingle(o: Lookup)
    ensures Total([o]) == Contribution(o)
  {
    assert Counts([o]) == [Contribution(o)];
    assert Sum([Contribution(o)]) == Contribution(o) + Sum([]);
  }

  /** Replacing the outcome of one slot changes that slot's count only, and
      changes the total by exactly the difference of the two contributions. */
  lemma {:induction false} SlotIsolation(outcomes: seq<Lookup>, i: nat, o: Lookup)
    requires i < |outcomes|
    ensures Counts(outcomes[i := o]) == Counts(outcomes)[i := Contribution(o)]
    ensures Total(outcomes[i := o]) + Contribution(outcomes[i]) == Total(outcomes) + Contribution(o)
  {
    var before := outcomes[..i];
    var after := outcomes[i + 1..];
    assert outcomes == before + [outcomes[i]] + after;
    assert outcomes[i := o] == before + [o] + after;
    TotalAppend(before + [outcomes[i]], after);
    TotalAppend(before, [outcomes[i]]);
    TotalAppend(before + [o], after);
    TotalAppend(before, [o]);
    TotalSingle(o);
    TotalSingle(outcomes[i]);
  }

  /** The counts of the lookups that found tokens, in order: an independent
      statement of what the total should be. */
  function FoundCounts(outcomes: seq<Lookup>): seq<nat> {
    if |outcomes| == 0 then []
    else if outcomes[0].Found? then [outcomes[0].count] + FoundCounts(outcomes[1..])
    else FoundCounts(outcomes[1..])
  }

  /** The counts add up to the sum over the successful lookups alone; failed
      and empty lookups add nothing. */
  lemma {:induction false} CountsSumIsSumOfFound(outcomes: seq<Lookup>)
    ensures Sum(Counts(outcomes)) == Sum(FoundCounts(outcomes))
  {
    if |outcomes| > 0 {
      CountsSumIsSumOfFound(outcomes[1..]);
      assert Counts(outcomes) == [Contribution(outcomes[0])] + Counts(outcomes[1..]);
    }
  }

  /** When every lookup fails or finds nothing, including when there are no
      addresses at all, the total is 0. */
  lemma {:induction false} NoFoundGivesZero(outcomes: seq<Lookup>)
    requires forall i :: 0 <= i < |outcomes| ==> !outcomes[i].Found?
    ensures Total(outcomes) == 0
  {
    NoFoundMeansNoCounts(outcomes);
  }

  lemma {:induction false} NoFoundMeansNoCounts(outcomes: seq<Lookup>)
    requires forall i :: 0 <= i < |outcomes| ==> !outcomes[i].Found?
    ensures FoundCounts(outcomes) == []
  {
    if |outcomes| > 0 {
      NoFoundMeansNoCounts(outcomes[1..]);
    }
  }

  /** Addresses are not de-duplicated: an address appended to the list, one
      already in it included, gets a request of its own, the next one, and
      the count of that reply is added to the total. */
  lemma {:induction false} AppendedAddressCounted(addresses: seq<string>, a: string, ownership: (nat, string) -> Lookup)
    ensures LookupAll(addresses + [a], ownership) == LookupAll(addresses, ownership) + [ownership(|addresses|, a)]
    ensures Total(LookupAll(addresses + [a], ownership))
         == Total(LookupAll(addresses, ownership)) + Contribution(ownership(|addresses|, a))
  {
    assert LookupAll(addresses + [a], ownership) == LookupAll(addresses, ownership) + [ownership(|addresses|, a)];
    TotalAppend(LookupAll(addresses, ownership), [ownership(|addresses|, a)]);
    TotalSingle(ownership(|addresses|, a));
  }

  /** Permuting the lookup outcomes, each address keeping its answer, leaves
      the total unchanged. */
  lemma {:induction false} TotalPermutationInvariant(xs: seq<Lookup>, ys: seq<Lookup>)
    requires multiset(xs) == multiset(ys)
    ensures Total(xs) == Total(ys)
    decreases |xs|
  {
    if |xs| > 0 {
      var x := xs[0];
      assert x in multiset(ys);
      var k :| 0 <= k < |ys| && ys[k] == x;
      var rest := ys[..k] + ys[k + 1..];
      assert ys == ys[..k] + [x] + ys[k + 1..];
      assert xs == [x] + xs[1..];
      assert multiset(ys) == multiset(ys[..k]) + multiset{x} + multiset(ys[k + 1..]);
      assert multiset(xs) == multiset{x} + multiset(xs[1..]);
      assert multiset(rest) == multiset(ys[..k]) + multiset(ys[k + 1..]);
      assert multiset(xs[1..]) == multiset(xs) - multiset{x};
      assert multiset(rest) == multiset(ys) - multiset{x};
      TotalPermutationInvariant(xs[1..], rest);
      TotalAppend([x], xs[1..]);
      TotalAppend(ys[..k] + [x], ys[k + 1..]);
      TotalAppend(ys[..k], [x]);
      TotalAppend(ys[..k], ys[k + 1..]);
    } else {
      assert |ys| == |multiset(ys)| == 0;
    }
  }

  /** An ownership service whose answer depends on the address alone, not on
      which request asked. */
  ghost predicate PositionFree(ownership: (nat, string) -> Lookup) {
    forall i: nat, j: nat, a :: ownership(i, a) == ownership(j, a)
  }

  /** The answers of a service that looks at the address alone, one per
      address, in order. */
  function Answers(xs: seq<string>, answer: string -> Lookup): (r: seq<Lookup>)
    ensures |r| == |xs|
  {
    if |xs| == 0 then [] else [answer(xs[0])] + Answers(xs[1..], answer)
  }

  /** A service whose answer ignores the position gives, request by request,
      its answers to the first request. */
  lemma {:induction false} PositionFreeAnswers(xs: seq<string>, ownership: (nat, string) -> Lookup)
    requires PositionFree(ownership)
    ensures LookupAll(xs, ownership) == Answers(xs, a => ownership(0, a))
  {
    AnswersAt(xs, a => ownership(0, a));
  }

  lemma {:induction false} AnswersAt(xs: seq<string>, answer: string -> Lookup)
    ensures forall i :: 0 <= i < |xs| ==> Answers(xs, answer)[i] == answer(xs[i])
  {
    if |xs| > 0 {
      AnswersAt(xs[1..], answer);
    }
  }

  lemma {:induction false} AnswersAppend(xs: seq<string>, ys: seq<string>, answer: string -> Lookup)
    ensures Answers(xs + ys, answer) == Answers(xs, answer) + Answers(ys, answer)
  {
    if |xs| > 0 {
      assert (xs + ys)[1..] == xs[1..] + ys;
      AnswersAppend(xs[1..], ys, answer);
    } else {
      assert xs + ys == ys;
    }
  }

  /** When the answer depends on the address alone, visiting the addresses
      in another order gives the same outcomes, rearranged, and the same
      total. */
  lemma AddressOrderInvariant(xs: seq<string>, ys: seq<string>, ownership: (nat, string) -> Lookup)
    requires PositionFree(ownership)
    requires multiset(xs) == multiset(ys)
    ensures multiset(LookupAll(xs, ownership)) == multiset(LookupAll(ys, ownership))
    ensures Total(LookupAll(xs, ownership)) == Total(LookupAll(ys, ownership))
  {
    PositionFreeAnswers(xs, ownership);
    PositionFreeAnswers(ys, ownership);
    AnswersPermuted(xs, ys, a => ownership(0, a));
    TotalPermutationInvariant(LookupAll(xs, ownership), LookupAll(ys, ownership));
  }

  lemma {:induction false} AnswersPermuted(xs: seq<string>, ys: seq<string>, answer: string -> Lookup)
    requires multiset(xs) == multiset(ys)
    ensures multiset(Answers(xs, answer)) == multiset(Answers(ys, answer))
    decreases |xs|
  {
    if |xs| > 0 {
      var x := xs[0];
      assert x in multiset(ys);
      var k :| 0 <= k < |ys| && ys[k] == x;
      MultisetRemove(ys, k);
      assert xs == [x] + xs[1..];
      assert multiset(xs[1..]) == multiset(xs) - multiset{x};
      AnswersPermuted(xs[1..], ys[..k] + ys[k + 1..], answer);
      AnswersRemove(ys, k, answer);
    } else {
      assert |ys| == |multiset(ys)| == 0;
    }
  }

  lemma MultisetRemove<T>(ys: seq<T>, k: nat)
    requires k < |ys|
    ensures multiset(ys[..k] + ys[k + 1..]) == multiset(ys) - multiset{ys[k]}
  {
    assert ys == ys[..k] + [ys[k]] + ys[k + 1..];
  }

  /** Taking one address out of the list takes its answer out of the
      answers. */
  lemma {:induction false} AnswersRemove(ys: seq<string>, k: nat, answer: string -> Lookup)
    requires k < |ys|
    ensures multiset(Answers(ys, answer))
         == multiset{answer(ys[k])} + multiset(Answers(ys[..k] + ys[k + 1..], answer))
  {
    var before, after := ys[..k], ys[k + 1..];
    assert ys == before + ([ys[k]] + after);
    AnswersAppend(before, [ys[k]] + after, answer);
    AnswersAppend(before, after, answer);
    assert Answers([ys[k]] + after, answer) == [answer(ys[k])] + Answers(after, answer);
  }

  /** Without that requirement the order can matter: a service that finds
      one token only for the first request, and only when it asks about
      "a", counts 1 for `["a", "b"]` and 0 for `["b", "a"]`. */
  lemma OrderMattersPerRequest(ownership: (nat, string) -> Lookup)
    requires forall i: nat, a :: ownership(i, a) == if i == 0 && a == "a" then Found(1) else NoTokens
    ensures Total(LookupAll(["a", "b"], ownership)) == 1
    ensures Total(LookupAll(["b", "a"], ownership)) == 0
  {
    assert LookupAll(["a", "b"], ownership) == [Found(1), NoTokens];
    assert LookupAll(["b", "a"], ownership) == [NoTokens, NoTokens];
    assert FoundCounts([NoTokens]) == [];
    assert FoundCounts([Found(1), NoTokens]) == [1];
  }
}
