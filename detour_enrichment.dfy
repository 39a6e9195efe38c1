/**
  Detour enrichment: `get_real_distance_osrm` turns one routing-service reply
  into a (distance km, duration min) pair or nothing, and
  `enrich_stations_with_osrm` applies the replies, in the order the requests
  complete, behind a circuit breaker that stops applying anything once
  `MaxConsecutiveFailures` requests in a row have failed.
*/
module DetourEnrichment {
  import opened Wrappers

  /** Failures in a row after which the breaker opens. */
  const MaxConsecutiveFailures: nat := 3

  /** One route leg of the reply; a field that is absent or not a number is `None`. */
  datatype Leg = Leg(distance: Option<real>, duration: Option<real>)

  datatype Route = Route(legs: seq<Leg>)

  /** The decoded JSON body; a missing `code` is `None`, missing `routes` or `legs` are empty. */
  datatype RouteBody = RouteBody(code: Option<string>, routes: seq<Route>)

  /**
    What one request produced: a transport failure (timeout, connection
    error), or an HTTP status with a body that is `None` when it is not a
    JSON object.
  */
  datatype Reply = TransportFailure | HttpReply(status: int, body: Option<RouteBody>)

  /** Road detour: metres turned into kilometres and seconds into minutes. */
  datatype Detour = Detour(distanceKm: real, durationMin: real)

  /** `raise_for_status()` raises for client and server errors. */
  predicate IsHttpError(status: int) {
    400 <= status < 600
  }

  /** The reply is well formed: not rate-limited or failed, code "Ok", a route with a leg carrying both numbers. */
  predicate Usable(reply: Reply) {
    && reply.HttpReply?
    && reply.status != 429
    && !IsHttpError(reply.status)
    && reply.body.Some?
    && reply.body.value.code == Some("Ok")
    && reply.body.value.routes != []
    && reply.body.value.routes[0].legs != []
    && reply.body.value.routes[0].legs[0].distance.Some?
    && reply.body.value.routes[0].legs[0].duration.Some?
  }

  /**
    `get_real_distance_osrm`: never fails; gives `None` for every malformed or
    failed reply, and otherwise the first leg of the first route in km and min.
  */
  function RealDistance(reply: Reply): (r: Option<Detour>)
    ensures r.Some? <==> Usable(reply)
    ensures r.Some? ==>
              && r.value.distanceKm * 1000.0 == reply.body.value.routes[0].legs[0].distance.value
              && r.value.durationMin * 60.0 == reply.body.value.routes[0].legs[0].duration.value
  {
    match reply
    case TransportFailure => None
    case HttpReply(status, body) =>
      if status == 429 then None
      else if IsHttpError(status) then None
      else if body.None? then None
      else if body.value.code != Some("Ok") || body.value.routes == [] then None
      else
        var route := body.value.routes[0];
        if route.legs == [] then None
        else
          var leg := route.legs[0];
          if leg.distance.None? || leg.duration.None? then None
          else Some(Detour(leg.distance.value / 1000.0, leg.duration.value / 60.0))
  }

  /**
    A finished request as `as_completed` yields it: the row it was for, and
    either the value `process_station` returned or `Raised` when it raised.
  */
  datatype Completion = Completion(row: nat, outcome: CompletionOutcome)
  datatype CompletionOutcome = Returned(result: Option<Detour>) | Raised

  predicate Succeeded(c: Completion) {
    c.outcome.Returned? && c.outcome.result.Some?
  }

  /** The breaker state after a prefix of completions: the enrichment column and the failure counter. */
  datatype BreakerState = BreakerState(column: seq<Option<Detour>>, failures: nat)

  /** The effect of one completion on the breaker state. */
  function Step(st: BreakerState, c: Completion): BreakerState {
    if st.failures >= MaxConsecutiveFailures then st
    else if Succeeded(c) && c.row < |st.column| then
      BreakerState(st.column[c.row := c.outcome.result], 0)
    else if Succeeded(c) then BreakerState(st.column, 0)
    else BreakerState(st.column, st.failures + 1)
  }

  /** The state after all completions, from an all-unset column of `n` rows. */
  function Fold(n: nat, cs: seq<Completion>): BreakerState {
    if cs == [] then BreakerState(seq(n, _ => None), 0)
    else Step(Fold(n, cs[..|cs| - 1]), cs[|cs| - 1])
  }

  /** Each submitted row completes exactly once. */
  predicate OneCompletionPerRow(n: nat, cs: seq<Completion>) {
    && (forall k :: 0 <= k < |cs| ==> cs[k].row < n)
    && (forall j, k :: 0 <= j < k < |cs| ==> cs[j].row != cs[k].row)
  }

  /**
    `enrich_stations_with_osrm` over one completion order: the column of
    detours (unset rows stay `None`, the model of NaN) and whether the breaker
    ended open.
  */
  method EnrichStationsWithOsrm(n: nat, completions: seq<Completion>) returns (column: seq<Option<Detour>>, tripped: bool)
    requires OneCompletionPerRow(n, completions)
    ensures column == Fold(n, completions).column
    ensures tripped <==> Fold(n, completions).failures >= MaxConsecutiveFailures
  {
    column := seq(n, _ => None);
    var failures := 0;
    for k := 0 to |completions|
      invariant BreakerState(column, failures) == Fold(n, completions[..k])
      invariant |column| == n
    {
      assert completions[..k + 1][..k] == completions[..k];
      FoldShape(n, completions[..k + 1]);
      var c := completions[k];
      if failures >= MaxConsecutiveFailures {
        continue;
      }
      match c.outcome
      case Raised =>
        failures := failures + 1;
      case Returned(result) =>
        if result.Some? {
          column := column[c.row := result];
          failures := 0;
        } else {
          failures := failures + 1;
        }
    }
    assert completions[..|completions|] == completions;
    tripped := failures >= MaxConsecutiveFailures;
  }

  lemma {:induction false} FoldShape(n: nat, cs: seq<Completion>)
    ensures |Fold(n, cs).column| == n
    ensures Fold(n, cs).failures <= MaxConsecutiveFailures
  {
    if cs != [] {
      FoldShape(n, cs[..|cs| - 1]);
    }
  }

  /** Once three failures in a row have accumulated, no later completion changes anything. */
  lemma {:induction false} OpenBreakerIgnoresTheRest(n: nat, cs: seq<Completion>, rest: seq<Completion>)
    requires Fold(n, cs).failures >= MaxConsecutiveFailures
    ensures Fold(n, cs + rest) == Fold(n, cs)
    decreases |rest|
  {
    if rest == [] {
      assert cs + rest == cs;
    } else {
      var init := rest[..|rest| - 1];
      assert (cs + rest)[..|cs + rest| - 1] == cs + init;
      OpenBreakerIgnoresTheRest(n, cs, init);
    }
  }

  /** A success applied while the breaker is closed resets the failure counter and writes its row. */
  lemma SuccessResets(n: nat, cs: seq<Completion>, c: Completion)
    requires Fold(n, cs).failures < MaxConsecutiveFailures && Succeeded(c) && c.row < n
    ensures Fold(n, cs + [c]).failures == 0
    ensures |Fold(n, cs + [c]).column| == n && Fold(n, cs + [c]).column[c.row] == c.outcome.result
  {
    FoldShape(n, cs);
    assert (cs + [c])[..|cs|] == cs;
  }

  /** A success applied while the breaker is closed is never overwritten: its row holds it at the end. */
  lemma {:induction false} ClosedSuccessIsKept(n: nat, cs: seq<Completion>, k: nat)
    requires OneCompletionPerRow(n, cs) && k < |cs|
    requires Succeeded(cs[k]) && Fold(n, cs[..k]).failures < MaxConsecutiveFailures
    ensures |Fold(n, cs).column| == n && Fold(n, cs).column[cs[k].row] == cs[k].outcome.result
  {
    FoldShape(n, cs);
    var init := cs[..|cs| - 1];
    if k == |cs| - 1 {
      assert init + [cs[k]] == cs;
      SuccessResets(n, init, cs[k]);
    } else {
      assert init[..k] == cs[..k];
      ClosedSuccessIsKept(n, init, k);
      assert cs[|cs| - 1].row != cs[k].row;
    }
  }

  /**
    A row ends up set exactly when a successful completion for it came in
    while the breaker was closed, and then holds the value that completion
    returned.
  */
  lemma {:induction false} ColumnHoldsOwnResults(n: nat, cs: seq<Completion>, row: nat)
    requires OneCompletionPerRow(n, cs) && row < n
    ensures |Fold(n, cs).column| == n
    ensures Fold(n, cs).column[row].Some? ==>
              exists k :: 0 <= k < |cs| && cs[k].row == row && Succeeded(cs[k])
                          && Fold(n, cs).column[row] == cs[k].outcome.result
                          && Fold(n, cs[..k]).failures < MaxConsecutiveFailures
    ensures forall k :: 0 <= k < |cs| && cs[k].row == row && Succeeded(cs[k])
                        && Fold(n, cs[..k]).failures < MaxConsecutiveFailures ==>
              Fold(n, cs).column[row] == cs[k].outcome.result
  {
    FoldShape(n, cs);
    forall k | 0 <= k < |cs| && cs[k].row == row && Succeeded(cs[k]) && Fold(n, cs[..k]).failures < MaxConsecutiveFailures
      ensures Fold(n, cs).column[row] == cs[k].outcome.result
    {
      ClosedSuccessIsKept(n, cs, k);
    }
    if cs != [] {
      var init := cs[..|cs| - 1];
      var c := cs[|cs| - 1];
      ColumnHoldsOwnResults(n, init, row);
      FoldShape(n, init);
      if Fold(n, cs).column[row].Some? {
        if Fold(n, cs).column[row] != Fold(n, init).column[row] {
          assert c.row == row && Succeeded(c);
          assert cs[..|cs| - 1] == init;
        } else {
          var k :| 0 <= k < |init| && init[k].row == row && Succeeded(init[k])
                   && Fold(n, init).column[row] == init[k].outcome.result
                   && Fold(n, init[..k]).failures < MaxConsecutiveFailures;
          assert cs[k] == init[k];
          assert cs[..k] == init[..k];
        }
      }
    }
  }
}
