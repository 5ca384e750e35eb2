/** `updateAllPlayers`: parse the ids, parse the versions, take the token,
    build the one body, then one `updatePlayer` per id in input order. */
module BatchDriver {
  import opened Wrappers
  import opened OrderedDict
  import opened InputReader
  import opened Payload
  import opened PlayerUpdater

  /** One pass of the loop body: the request sent for one player, what came
      back, and the branch taken. */
  datatype Attempt = Attempt(macAddress: string, request: Request, outcome: Outcome, handling: Handling)

  /** The attempts of one run in dispatch order; `aborted` when an exception
      raised while logging error details ended the loop early. */
  datatype Batch = Batch(attempts: seq<Attempt>, aborted: bool)

  /** `updatePlayer(macAddress, payload, token, serverUrl)` followed by the
      loop's handling of its result; `put` stands for the HTTP call. */
  function Dispatch(macAddress: string, payload: Body, token: string, serverUrl: string,
                    put: Request -> Outcome): (a: Attempt)
    ensures a.macAddress == macAddress
    ensures a.request == MakeRequest(macAddress, payload, token, serverUrl)
    ensures ClientIdOf(serverUrl, a.request.url) == Some(macAddress)
    ensures Get(a.request.headers, ClientIdHeader) == Some(macAddress)
    ensures Get(a.request.headers, TokenHeader) == Some(token)
    ensures a.request.body == payload
    ensures a.outcome == put(a.request)
    ensures a.handling == Handle(a.outcome)
  {
    var request := MakeRequest(macAddress, payload, token, serverUrl);
    var outcome := put(request);
    Attempt(macAddress, request, outcome, Handle(outcome))
  }

  /** The per-player step of one run: the run's single body, token and server
      URL are fixed once, and only the address varies. */
  function Sender(payload: Body, token: string, serverUrl: string, put: Request -> Outcome): string -> Attempt
  {
    macAddress => Dispatch(macAddress, payload, token, serverUrl, put)
  }

  /** The state of the loop after the ids `macs`: one attempt per id in order,
      stopping only after an attempt whose handling raised. */
  function RunBatch(macs: seq<string>, send: string -> Attempt): (b: Batch)
    ensures |b.attempts| <= |macs|
    ensures forall i :: 0 <= i < |b.attempts| ==> b.attempts[i] == send(macs[i])
    ensures !b.aborted ==> |b.attempts| == |macs|
    ensures b.aborted <==> |b.attempts| > 0 && b.attempts[|b.attempts| - 1].handling.Crashed?
    ensures forall i :: 0 <= i < |b.attempts| - 1 ==> !b.attempts[i].handling.Crashed?
    ensures (forall i :: 0 <= i < |macs| ==> !send(macs[i]).handling.Crashed?) ==> !b.aborted
    decreases |macs|
  {
    if |macs| == 0 then Batch([], false)
    else
      var n := |macs| - 1;
      assert forall i :: 0 <= i < n ==> macs[..n][i] == macs[i];
      var prev := RunBatch(macs[..n], send);
      if prev.aborted then prev
      else
        var a := send(macs[n]);
        Batch(prev.attempts + [a], a.handling.Crashed?)
  }

  /** `updateAllPlayers(filename, serverUrl)` with the file's rows (or its
      absence) as `input`, the generated token as `token` and the HTTP call as
      `put`. Any parse error escapes before anything is sent. */
  function UpdateAllPlayers(input: Input, serverUrl: string, token: string,
                            put: Request -> Outcome): (r: Result<Batch, ReadError>)
    ensures r.Success? <==> ParseMacAddresses(input).Success? && ParseVersions(input).Success?
    ensures input.Missing? ==> r == Failure(FileNotFound)
    ensures input.Present? && |input.rows| < 2 ==> r == Failure(StopIteration)
    ensures ParseMacAddresses(input).Failure? ==> r == Failure(ParseMacAddresses(input).error)
    ensures ParseMacAddresses(input).Success? && ParseVersions(input).Failure? ==>
      r == Failure(ParseVersions(input).error)
    ensures r.Success? ==>
      r.value == RunBatch(ParseMacAddresses(input).value,
                          Sender(BuildBody(ParseVersions(input).value), token, serverUrl, put))
  {
    match ParseMacAddresses(input)
    case Failure(e) => Failure(e)
    case Success(macAddresses) =>
      match ParseVersions(input)
      case Failure(e) => Failure(e)
      case Success(versionDict) =>
        var body := BuildBody(versionDict);
        Success(RunBatch(macAddresses, Sender(body, token, serverUrl, put)))
  }

  /** The dispatch loop as written: one send per id, leaving the loop only when
      handling a response raised. */
  method DispatchAll(macs: seq<string>, send: string -> Attempt) returns (b: Batch)
    ensures b == RunBatch(macs, send)
  {
    var attempts: seq<Attempt> := [];
    var i := 0;
    while i < |macs|
      invariant 0 <= i <= |macs|
      invariant RunBatch(macs[..i], send) == Batch(attempts, false)
    {
      var a := send(macs[i]);
      assert macs[..i + 1][..i] == macs[..i];
      attempts := attempts + [a];
      if a.handling.Crashed? {
        RunBatchAbortedStays(macs, send, i + 1);
        return Batch(attempts, true);
      }
      i := i + 1;
    }
    assert macs[..i] == macs;
    b := Batch(attempts, false);
  }

  /** Once a prefix of the ids has aborted the loop, later ids change nothing. */
  lemma {:induction false} RunBatchAbortedStays(macs: seq<string>, send: string -> Attempt, k: nat)
    requires k <= |macs|
    requires RunBatch(macs[..k], send).aborted
    ensures RunBatch(macs, send) == RunBatch(macs[..k], send)
    decreases |macs|
  {
    if k < |macs| {
      var front := macs[..|macs| - 1];
      assert front[..k] == macs[..k];
      RunBatchAbortedStays(front, send, k);
      RunBatchStep(macs, send);
    } else {
      assert macs[..k] == macs;
    }
  }

  /** What one send of a run puts on the wire: the player's own URL and
      client-id header, the run's token and the run's body, and the loop's
      handling of the response `put` returns for exactly that request. */
  lemma SentRequest(payload: Body, token: string, serverUrl: string, put: Request -> Outcome, macAddress: string)
    ensures var a := Sender(payload, token, serverUrl, put)(macAddress);
      && a.macAddress == macAddress
      && ClientIdOf(serverUrl, a.request.url) == Some(macAddress)
      && Get(a.request.headers, ClientIdHeader) == Some(macAddress)
      && Get(a.request.headers, TokenHeader) == Some(token)
      && a.request.body == payload
      && a.outcome == put(a.request)
      && a.handling == Handle(a.outcome)
  {
    var a := Dispatch(macAddress, payload, token, serverUrl, put);
    assert Sender(payload, token, serverUrl, put)(macAddress) == a;
  }

  /** A successful run sends, for data row `i + 1` of the file and in that
      order, one request to the profile URL of that row's first cell, carrying
      the same token and the body built from the first data row's versions. */
  lemma RunRequests(input: Input, serverUrl: string, token: string, put: Request -> Outcome)
    requires ParseMacAddresses(input).Success? && ParseVersions(input).Success?
    ensures var b := UpdateAllPlayers(input, serverUrl, token, put).value;
      forall i :: 0 <= i < |b.attempts| ==>
        && b.attempts[i].macAddress == input.rows[i + 1][0]
        && ClientIdOf(serverUrl, b.attempts[i].request.url) == Some(input.rows[i + 1][0])
        && Get(b.attempts[i].request.headers, TokenHeader) == Some(token)
        && b.attempts[i].request.body == BuildBody(ParseVersions(input).value)
        && b.attempts[i].outcome == put(b.attempts[i].request)
  {
    var macs := ParseMacAddresses(input).value;
    var body := BuildBody(ParseVersions(input).value);
    var b := UpdateAllPlayers(input, serverUrl, token, put).value;
    forall i | 0 <= i < |b.attempts|
      ensures b.attempts[i].macAddress == input.rows[i + 1][0]
      ensures ClientIdOf(serverUrl, b.attempts[i].request.url) == Some(input.rows[i + 1][0])
      ensures Get(b.attempts[i].request.headers, TokenHeader) == Some(token)
      ensures b.attempts[i].request.body == body
      ensures b.attempts[i].outcome == put(b.attempts[i].request)
    {
      SentRequest(body, token, serverUrl, put, macs[i]);
    }
  }

  /** Transport failures never stop the batch: when every request gets no
      response, every id is still attempted, each one skipped. */
  lemma TransportFailuresSkipped(macs: seq<string>, payload: Body, token: string, serverUrl: string,
                                 put: Request -> Outcome)
    requires forall r :: put(r) == NoResponse
    ensures var b := RunBatch(macs, Sender(payload, token, serverUrl, put));
      && !b.aborted
      && |b.attempts| == |macs|
      && forall i :: 0 <= i < |macs| ==> b.attempts[i].handling == Skipped
  {
    forall m | m in macs
      ensures Sender(payload, token, serverUrl, put)(m).handling == Skipped
    {
      SentRequest(payload, token, serverUrl, put, m);
    }
  }

  /** One unfolding of `RunBatch`: the batch of all but the last id, then the
      last id unless that batch already aborted. */
  lemma RunBatchStep(macs: seq<string>, send: string -> Attempt)
    requires |macs| > 0
    ensures var prev := RunBatch(macs[..|macs| - 1], send);
            RunBatch(macs, send) ==
              if prev.aborted then prev
              else Batch(prev.attempts + [send(macs[|macs| - 1])],
                         send(macs[|macs| - 1]).handling.Crashed?)
  {
  }

  /** Ids are handled independently: if the first part of a list of ids runs
      to the end, the whole list runs as the first part followed by the rest. */
  lemma {:induction false} RunBatchAppend(m1: seq<string>, m2: seq<string>, send: string -> Attempt)
    requires !RunBatch(m1, send).aborted
    ensures RunBatch(m1 + m2, send) ==
      Batch(RunBatch(m1, send).attempts + RunBatch(m2, send).attempts, RunBatch(m2, send).aborted)
    decreases |m2|
  {
    if |m2| == 0 {
      assert m1 + m2 == m1;
    } else {
      var n := |m2| - 1;
      var whole, front := m1 + m2, m2[..n];
      assert whole[..|whole| - 1] == m1 + front;
      assert whole[|whole| - 1] == m2[n];
      RunBatchAppend(m1, front, send);
      RunBatchStep(whole, send);
      RunBatchStep(m2, send);
    }
  }
}
