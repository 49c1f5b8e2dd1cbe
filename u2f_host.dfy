/** The host-side ceremonies: open the token, start a registration or an authentication with
    the U2F library, wait for the user to touch the token, and hand the token's answer back
    to the library. The library (u2flib) is a parameter of type `Library`; cancellation is
    modelled by the number of attempts after which the caller's token is cancelled. */
module U2FHost {
  import opened Bytes
  import opened Outcomes
  import opened HidFrames
  import opened HidTransport
  import opened HidDevice
  import opened ApduDevice
  import opened U2Fv2

  /** What the library keeps about a registered token. */
  datatype DeviceRegistration =
    DeviceRegistration(keyHandle: string, publicKey: seq<byte>, attestationCert: seq<byte>, counter: int)

  /** u2flib's server half: it chooses the challenges and checks the token's answers. */
  datatype Library = Library(
    startRegistration: string -> StartedRegistration,
    finishRegistration: (StartedRegistration, RegisterResponse) -> Result<DeviceRegistration>,
    startAuthentication: (string, DeviceRegistration) -> StartedAuthentication,
    finishAuthentication: (StartedAuthentication, AuthenticateResponse, DeviceRegistration) -> Result<()>)

  // ---------------------------------------------------------------- waiting for a touch

  /** "Conditions of use not satisfied": the token is waiting for the user's touch. */
  predicate Busy<T>(r: Result<T>)
    ensures Busy(r) ==> r.Err? && r.error.Apdu? && r.error.status == 0x6985
  {
    r.Err? && r.error == Apdu(ApduUseNotSatisfied)
  }

  /** Cancellation is requested once `cancelAfter` attempts have started; None stands for
      CancellationToken.None. */
  predicate CancelledBefore(cancelAfter: Option<nat>, attempts: nat)
    ensures cancelAfter.None? ==> !CancelledBefore(cancelAfter, attempts)
  {
    cancelAfter.Some? && cancelAfter.value <= attempts
  }

  /** A cancelled token stays cancelled. */
  lemma StaysCancelled(cancelAfter: Option<nat>, attempts: nat, later: nat)
    requires attempts <= later
    ensures CancelledBefore(cancelAfter, attempts) ==> CancelledBefore(cancelAfter, later)
  {
  }

  /** Where the retry loop is after seeing some attempt outcomes: still waiting, or done
      with a result; either way, how many attempts it has made. */
  datatype Wait<T> = Waiting(attempts: nat) | Done(result: Result<T>, attempts: nat)

  /** WaitForTokenInputAsync over the outcomes successive attempts would have, after
      `attempts` attempts already made: check cancellation, attempt, retry on Busy only. */
  function TokenWait<T>(outcomes: seq<Result<T>>, cancelAfter: Option<nat>, attempts: nat): (w: Wait<T>)
    ensures attempts <= w.attempts <= attempts + |outcomes|
    decreases |outcomes|
  {
    if CancelledBefore(cancelAfter, attempts) then Done(Err(Cancelled), attempts)
    else if outcomes == [] then Waiting(attempts)
    else if Busy(outcomes[0]) then TokenWait(outcomes[1..], cancelAfter, attempts + 1)
    else Done(outcomes[0], attempts + 1)
  }

  /** The number of Busy outcomes before the first other one. */
  function LeadingBusy<T>(outcomes: seq<Result<T>>): (n: nat)
    ensures n <= |outcomes|
    ensures forall i :: 0 <= i < n ==> Busy(outcomes[i])
    ensures n < |outcomes| ==> !Busy(outcomes[n])
  {
    if outcomes == [] || !Busy(outcomes[0]) then 0 else 1 + LeadingBusy(outcomes[1..])
  }

  /** Without cancellation the loop makes one attempt more than there are leading Busy
      outcomes, and returns the first outcome that is not Busy. */
  lemma {:induction false} AttemptsUntilSettled<T>(outcomes: seq<Result<T>>, attempts: nat)
    requires LeadingBusy(outcomes) < |outcomes|
    ensures var n := LeadingBusy(outcomes);
      TokenWait(outcomes, None, attempts) == Done(outcomes[n], attempts + n + 1)
    decreases |outcomes|
  {
    if Busy(outcomes[0]) {
      AttemptsUntilSettled(outcomes[1..], attempts + 1);
    }
  }

  /** While every outcome is Busy and nothing is cancelled, the loop keeps waiting. */
  lemma {:induction false} AllBusyWaits<T>(outcomes: seq<Result<T>>, attempts: nat)
    requires LeadingBusy(outcomes) == |outcomes|
    ensures TokenWait(outcomes, None, attempts) == Waiting(attempts + |outcomes|)
    decreases |outcomes|
  {
    if outcomes != [] {
      AllBusyWaits(outcomes[1..], attempts + 1);
    }
  }

  /** Cancellation requested before an attempt that would have been made ends the loop
      with Cancelled at once: exactly the attempts before it are made. */
  lemma {:induction false} CancelStops<T>(outcomes: seq<Result<T>>, k: nat, attempts: nat)
    requires attempts <= k <= attempts + LeadingBusy(outcomes)
    ensures TokenWait(outcomes, Some(k), attempts) == Done(Err(Cancelled), k)
    decreases |outcomes|
  {
    if attempts < k {
      AttemptsUntilSettledStep(outcomes, Some(k), attempts);
      CancelStops(outcomes[1..], k, attempts + 1);
    }
  }

  /** One Busy outcome before cancellation: the loop goes on with the next outcome. */
  lemma AttemptsUntilSettledStep<T>(outcomes: seq<Result<T>>, cancelAfter: Option<nat>, attempts: nat)
    requires outcomes != [] && Busy(outcomes[0]) && !CancelledBefore(cancelAfter, attempts)
    ensures TokenWait(outcomes, cancelAfter, attempts) == TokenWait(outcomes[1..], cancelAfter, attempts + 1)
    ensures LeadingBusy(outcomes) == 1 + LeadingBusy(outcomes[1..])
  {
  }

  /** No attempt starts once cancellation has been requested. */
  lemma {:induction false} NoAttemptAfterCancel<T>(outcomes: seq<Result<T>>, k: nat, attempts: nat)
    requires attempts <= k
    ensures TokenWait(outcomes, Some(k), attempts).attempts <= k
    decreases |outcomes|
  {
    if attempts < k && outcomes != [] && Busy(outcomes[0]) {
      NoAttemptAfterCancel(outcomes[1..], k, attempts + 1);
    }
  }

  /** Once the loop is done, later outcomes are never looked at. */
  lemma {:induction false} LaterOutcomesIgnored<T>(outcomes: seq<Result<T>>, more: seq<Result<T>>,
                                                   cancelAfter: Option<nat>, attempts: nat)
    requires TokenWait(outcomes, cancelAfter, attempts).Done?
    ensures TokenWait(outcomes + more, cancelAfter, attempts) == TokenWait(outcomes, cancelAfter, attempts)
    decreases |outcomes|
  {
    if !CancelledBefore(cancelAfter, attempts) {
      assert (outcomes + more)[0] == outcomes[0];
      if Busy(outcomes[0]) {
        assert (outcomes + more)[1..] == outcomes[1..] + more;
        LaterOutcomesIgnored(outcomes[1..], more, cancelAfter, attempts + 1);
      }
    }
  }

  // ---------------------------------------------------------------- attempts on the token

  /** The function WaitForTokenInputAsync is given: one registration or authentication. */
  datatype Attempt =
    | Enroll(registration: StartedRegistration, facet: string)
    | Sign(authentication: StartedAuthentication, facet: string, checkOnly: bool)

  datatype Response = Registered(registered: RegisterResponse) | Signed(signed: AuthenticateResponse)

  function AttemptSpec(prims: Primitives, cid: seq<byte>, a: Attempt, st: PortState): (o: Outcome<Response>)
    requires |cid| <= 4
    ensures Busy(o.result) ==> |o.port.inbox| < |st.inbox|
    ensures o.result.Ok? ==> (o.result.value.Registered? <==> a.Enroll?)
  {
    match a
    case Enroll(request, facet) =>
      var o := RegisterSpec(prims, cid, request, facet, st);
      Outcome(if o.result.Ok? then Ok(Registered(o.result.value)) else Err(o.result.error), o.port)
    case Sign(request, facet, checkOnly) =>
      var o := AuthenticateSpec(prims, cid, request, facet, checkOnly, st);
      Outcome(if o.result.Ok? then Ok(Signed(o.result.value)) else Err(o.result.error), o.port)
  }

  /** A run of the retry loop on the port: its result, the outcome of every attempt it
      made, and the port afterwards. */
  datatype Run = Run(result: Result<Response>, outcomes: seq<Result<Response>>, port: PortState)

  /** WaitForTokenInputAsync on the port, after `attempts` attempts already made. */
  function WaitSpec(prims: Primitives, cid: seq<byte>, a: Attempt, cancelAfter: Option<nat>, attempts: nat,
                    st: PortState): (w: Run)
    requires |cid| <= 4
    ensures w.result.Ok? ==> (w.result.value.Registered? <==> a.Enroll?)
    decreases |st.inbox|
  {
    if CancelledBefore(cancelAfter, attempts) then Run(Err(Cancelled), [], st)
    else
      var o := AttemptSpec(prims, cid, a, st);
      if Busy(o.result) then
        var w := WaitSpec(prims, cid, a, cancelAfter, attempts + 1, o.port);
        Run(w.result, [o.result] + w.outcomes, w.port)
      else Run(o.result, [o.result], o.port)
  }

  /** The loop on the port is the loop over the outcomes its attempts had: it ends with its
      result after exactly as many attempts as it recorded. */
  lemma {:induction false} WaitFollowsOutcomes(prims: Primitives, cid: seq<byte>, a: Attempt,
                                               cancelAfter: Option<nat>, attempts: nat, st: PortState)
    requires |cid| <= 4
    ensures var w := WaitSpec(prims, cid, a, cancelAfter, attempts, st);
      TokenWait(w.outcomes, cancelAfter, attempts) == Done(w.result, attempts + |w.outcomes|)
    decreases |st.inbox|
  {
    if !CancelledBefore(cancelAfter, attempts) {
      var o := AttemptSpec(prims, cid, a, st);
      if Busy(o.result) {
        WaitFollowsOutcomes(prims, cid, a, cancelAfter, attempts + 1, o.port);
        var w := WaitSpec(prims, cid, a, cancelAfter, attempts + 1, o.port);
        assert ([o.result] + w.outcomes)[1..] == w.outcomes;
      }
    }
  }

  /** Without cancellation the loop on the port ends with its first outcome that is not
      Busy, after exactly the Busy outcomes before it. */
  lemma WaitSettles(prims: Primitives, cid: seq<byte>, a: Attempt, st: PortState)
    requires |cid| <= 4
    ensures var w := WaitSpec(prims, cid, a, None, 0, st);
      && |w.outcomes| == LeadingBusy(w.outcomes) + 1
      && w.result == w.outcomes[|w.outcomes| - 1] && !Busy(w.result)
  {
    var w := WaitSpec(prims, cid, a, None, 0, st);
    WaitFollowsOutcomes(prims, cid, a, None, 0, st);
    DoneSettled(w.outcomes, w.result);
  }

  lemma DoneSettled<T>(outcomes: seq<Result<T>>, r: Result<T>)
    requires TokenWait(outcomes, None, 0) == Done(r, |outcomes|)
    ensures |outcomes| == LeadingBusy(outcomes) + 1
    ensures r == outcomes[|outcomes| - 1] && !Busy(r)
  {
    if LeadingBusy(outcomes) == |outcomes| {
      AllBusyWaits(outcomes, 0);
      assert false;
    }
    AttemptsUntilSettled(outcomes, 0);
  }

  /** With cancellation requested after k attempts, the loop on the port makes at most k. */
  lemma WaitCancelled(prims: Primitives, cid: seq<byte>, a: Attempt, k: nat, st: PortState)
    requires |cid| <= 4
    ensures |WaitSpec(prims, cid, a, Some(k), 0, st).outcomes| <= k
  {
    var w := WaitSpec(prims, cid, a, Some(k), 0, st);
    WaitFollowsOutcomes(prims, cid, a, Some(k), 0, st);
    NoAttemptAfterCancel(w.outcomes, k, 0);
  }

  // ---------------------------------------------------------------- what the token answers

  /** One registration attempt against a token answering `status`: exactly 0x6985 makes
      the touch wait try again, and exactly 0x9000 gives the registration response. */
  lemma EnrollAnswered(prims: Primitives, cid: seq<byte>, request: StartedRegistration, facet: string,
                       payload: seq<byte>, status: int, st: PortState, tail: seq<Report>)
    requires DigestSized(prims) && |cid| == 4 && request.version == U2FVersion
    requires 0 <= status < 65536 && |payload| + 2 < 65536
    requires AllAccepted(Skip(st.accept, 1), EnrollReports(prims, cid, request, facet) - 1)
    requires st.inbox == Delivered(Packets(cid, CmdApdu, ResponseApdu(payload, status))) + tail
    ensures var o := AttemptSpec(prims, cid, Enroll(request, facet), st);
      var clientData := prims.json(RegistrationClientData(request.challenge, facet));
      && (Busy(o.result) <==> status == ApduUseNotSatisfied)
      && (o.result.Ok? <==> status == ApduOk)
      && (o.result.Ok? ==>
            o.result.value == Registered(RegisterResponse(prims.toBase64(payload), prims.toBase64(AsciiBytes(clientData)))))
      && o.port.inbox == tail
      && o.port.accept == Skip(st.accept, EnrollReports(prims, cid, request, facet))
  {
    RegisterExchange(prims, cid, request, facet, payload, status, st, tail);
  }

  /** One authentication attempt against a token answering `status`: exactly 0x6985 makes
      the touch wait try again, and exactly 0x9000 gives the authentication response. */
  lemma SignAnswered(prims: Primitives, cid: seq<byte>, request: StartedAuthentication, facet: string,
                     checkOnly: bool, payload: seq<byte>, status: int, st: PortState, tail: seq<Report>)
    requires DigestSized(prims) && |cid| == 4 && request.version == U2FVersion
    requires 0 <= status < 65536 && |payload| + 2 < 65536 && |prims.fromBase64(request.keyHandle)| < 256
    requires AllAccepted(Skip(st.accept, 1), SignReports(prims, cid, request, facet, checkOnly) - 1)
    requires st.inbox == Delivered(Packets(cid, CmdApdu, ResponseApdu(payload, status))) + tail
    ensures var o := AttemptSpec(prims, cid, Sign(request, facet, checkOnly), st);
      var clientData := prims.json(AuthenticationClientData(request.challenge, facet));
      && (Busy(o.result) <==> status == ApduUseNotSatisfied)
      && (o.result.Ok? <==> status == ApduOk)
      && (o.result.Ok? ==>
            o.result.value == Signed(AuthenticateResponse(prims.toBase64(AsciiBytes(clientData)), prims.toBase64(payload),
                                                          request.keyHandle)))
      && o.port.inbox == tail
      && o.port.accept == Skip(st.accept, SignReports(prims, cid, request, facet, checkOnly))
  {
    AuthenticateExchange(prims, cid, request, facet, checkOnly, payload, status, st, tail);
  }

  /** Without cancellation, a Busy attempt is followed by the rest of the wait, one
      attempt later. */
  lemma WaitAfterBusy(prims: Primitives, cid: seq<byte>, a: Attempt, attempts: nat, st: PortState)
    requires |cid| <= 4 && Busy(AttemptSpec(prims, cid, a, st).result)
    ensures var w, later := WaitSpec(prims, cid, a, None, attempts, st),
                            WaitSpec(prims, cid, a, None, attempts + 1, AttemptSpec(prims, cid, a, st).port);
      w.result == later.result && |w.outcomes| == |later.outcomes| + 1 && w.port == later.port
  {
  }

  /** Without cancellation, an attempt that is not Busy ends the wait. */
  lemma WaitAfterSettled(prims: Primitives, cid: seq<byte>, a: Attempt, attempts: nat, st: PortState)
    requires |cid| <= 4 && !Busy(AttemptSpec(prims, cid, a, st).result)
    ensures var o := AttemptSpec(prims, cid, a, st);
      WaitSpec(prims, cid, a, None, attempts, st) == Run(o.result, [o.result], o.port)
  {
  }

  /** The function given to WaitForTokenInputAsync in either ceremony. */
  method RunAttempt(prims: Primitives, dev: U2FHidDevice, a: Attempt) returns (r: Result<Response>)
    requires dev.Valid()
    modifies dev.port
    ensures Outcome(r, dev.port.State()) == AttemptSpec(prims, dev.cid, a, old(dev.port.State()))
    ensures dev.port.connected == old(dev.port.connected)
  {
    match a
    case Enroll(request, facet) =>
      var response := Register(prims, dev, request, facet);
      r := if response.Ok? then Ok(Registered(response.value)) else Err(response.error);
    case Sign(request, facet, checkOnly) =>
      var response := Authenticate(prims, dev, request, facet, checkOnly);
      r := if response.Ok? then Ok(Signed(response.value)) else Err(response.error);
  }

  /** WaitForTokenInputAsync: check cancellation, attempt, and retry (after a pause) only
      while the token reports that it is waiting for a touch. */
  method WaitForTokenInput(prims: Primitives, dev: U2FHidDevice, a: Attempt, cancelAfter: Option<nat>)
    returns (r: Result<Response>)
    requires dev.Valid()
    modifies dev.port
    ensures var w := WaitSpec(prims, dev.cid, a, cancelAfter, 0, old(dev.port.State()));
      r == w.result && dev.port.State() == w.port
    ensures dev.port.connected == old(dev.port.connected)
  {
    ghost var whole := WaitSpec(prims, dev.cid, a, cancelAfter, 0, dev.port.State());
    var attempts := 0;
    while true
      invariant var w := WaitSpec(prims, dev.cid, a, cancelAfter, attempts, dev.port.State());
        w.result == whole.result && w.port == whole.port
      invariant dev.port.connected == old(dev.port.connected)
      decreases |dev.port.inbox|
    {
      if CancelledBefore(cancelAfter, attempts) {
        return Err(Cancelled);
      }
      var response := RunAttempt(prims, dev, a);
      if Busy(response) {
        attempts := attempts + 1;
        continue;
      }
      return response;
    }
  }

  // ---------------------------------------------------------------- the ceremonies

  /** RegisterAsync on a port that is connected or not: nothing happens on a disconnected
      port; otherwise open (INIT handshake), start, wait for the touch, finish. */
  function RegisterCeremony(prims: Primitives, lib: Library, appId: string, facet: string,
                            cancelAfter: Option<nat>, nonce: seq<byte>, connected: bool, st: PortState)
    : (o: Outcome<DeviceRegistration>)
    requires |nonce| == 8
    ensures !connected ==> o == Outcome(Err(NotConnected), st)
  {
    if !connected then Outcome(Err(NotConnected), st)
    else
      var h := InitSpec(BroadcastCid, nonce, st);
      if h.result.Err? then Outcome(Err(h.result.error), h.port)
      else
        var start := lib.startRegistration(appId);
        var w := WaitSpec(prims, h.cid, Enroll(start, facet), cancelAfter, 0, h.port);
        if w.result.Err? then Outcome(Err(w.result.error), w.port)
        else Outcome(lib.finishRegistration(start, w.result.value.registered), w.port)
  }

  /** AuthenticateAsync, in the same order; it returns nothing but the library's verdict. */
  function AuthenticateCeremony(prims: Primitives, lib: Library, registration: DeviceRegistration, appId: string,
                                facet: string, checkOnly: bool, cancelAfter: Option<nat>, nonce: seq<byte>,
                                connected: bool, st: PortState): (o: Outcome<()>)
    requires |nonce| == 8
    ensures !connected ==> o == Outcome(Err(NotConnected), st)
  {
    if !connected then Outcome(Err(NotConnected), st)
    else
      var h := InitSpec(BroadcastCid, nonce, st);
      if h.result.Err? then Outcome(Err(h.result.error), h.port)
      else
        var start := lib.startAuthentication(appId, registration);
        var w := WaitSpec(prims, h.cid, Sign(start, facet, checkOnly), cancelAfter, 0, h.port);
        if w.result.Err? then Outcome(Err(w.result.error), w.port)
        else Outcome(lib.finishAuthentication(start, w.result.value.signed, registration), w.port)
  }

  /** Registration on a connected device whose handshake succeeds, without cancellation:
      the touch wait settles on the first answer that is not 0x6985, and the ceremony
      returns the library's registration of that answer, or its error. */
  lemma RegisterFinishes(prims: Primitives, lib: Library, appId: string, facet: string, nonce: seq<byte>,
                         st: PortState)
    requires |nonce| == 8 && InitSpec(BroadcastCid, nonce, st).result.Ok?
    ensures var h := InitSpec(BroadcastCid, nonce, st);
      var start := lib.startRegistration(appId);
      var w := WaitSpec(prims, h.cid, Enroll(start, facet), None, 0, h.port);
      var o := RegisterCeremony(prims, lib, appId, facet, None, nonce, true, st);
      && |w.outcomes| == LeadingBusy(w.outcomes) + 1
      && w.outcomes[LeadingBusy(w.outcomes)] == w.result && !Busy(w.result)
      && (w.result.Ok? ==> o == Outcome(lib.finishRegistration(start, w.result.value.registered), w.port))
      && (w.result.Err? ==> o == Outcome(Err(w.result.error), w.port))
  {
    var h := InitSpec(BroadcastCid, nonce, st);
    var start := lib.startRegistration(appId);
    var w := WaitSpec(prims, h.cid, Enroll(start, facet), None, 0, h.port);
    WaitSettles(prims, h.cid, Enroll(start, facet), h.port);
    assert RegisterCeremony(prims, lib, appId, facet, None, nonce, true, st) ==
      if w.result.Err? then Outcome(Err(w.result.error), w.port)
      else Outcome(lib.finishRegistration(start, w.result.value.registered), w.port);
  }

  /** Authentication in the same situation ends with the library's verdict on the first
      answer that is not 0x6985, or with that answer's error. */
  lemma AuthenticateFinishes(prims: Primitives, lib: Library, registration: DeviceRegistration, appId: string,
                             facet: string, checkOnly: bool, nonce: seq<byte>, st: PortState)
    requires |nonce| == 8 && InitSpec(BroadcastCid, nonce, st).result.Ok?
    ensures var h := InitSpec(BroadcastCid, nonce, st);
      var start := lib.startAuthentication(appId, registration);
      var w := WaitSpec(prims, h.cid, Sign(start, facet, checkOnly), None, 0, h.port);
      var o := AuthenticateCeremony(prims, lib, registration, appId, facet, checkOnly, None, nonce, true, st);
      && |w.outcomes| == LeadingBusy(w.outcomes) + 1
      && w.outcomes[LeadingBusy(w.outcomes)] == w.result && !Busy(w.result)
      && (w.result.Ok? ==> o == Outcome(lib.finishAuthentication(start, w.result.value.signed, registration), w.port))
      && (w.result.Err? ==> o == Outcome(Err(w.result.error), w.port))
  {
    var h := InitSpec(BroadcastCid, nonce, st);
    var start := lib.startAuthentication(appId, registration);
    var w := WaitSpec(prims, h.cid, Sign(start, facet, checkOnly), None, 0, h.port);
    WaitSettles(prims, h.cid, Sign(start, facet, checkOnly), h.port);
    assert AuthenticateCeremony(prims, lib, registration, appId, facet, checkOnly, None, nonce, true, st) ==
      if w.result.Err? then Outcome(Err(w.result.error), w.port)
      else Outcome(lib.finishAuthentication(start, w.result.value.signed, registration), w.port);
  }

  /** RegisterAsync, with the INIT nonce passed in. */
  method RegisterDevice(prims: Primitives, lib: Library, hidDevice: HidPort?, appId: string, facet: string,
                        cancelAfter: Option<nat>, nonce: seq<byte>) returns (r: Result<DeviceRegistration>)
    requires |nonce| == 8
    modifies hidDevice
    ensures hidDevice == null ==> r == Err(NotConnected)
    ensures hidDevice != null ==>
      Outcome(r, hidDevice.State()) ==
        RegisterCeremony(prims, lib, appId, facet, cancelAfter, nonce, old(hidDevice.connected), old(hidDevice.State()))
  {
    if hidDevice == null || !hidDevice.connected {
      return Err(NotConnected);
    }
    var u2fHidDevice, init := Open(hidDevice, nonce);
    if init.Err? {
      return Err(init.error);
    }
    var startRegistration := lib.startRegistration(appId);
    var registerResponse := WaitForTokenInput(prims, u2fHidDevice, Enroll(startRegistration, facet), cancelAfter);
    if registerResponse.Err? {
      return Err(registerResponse.error);
    }
    r := lib.finishRegistration(startRegistration, registerResponse.value.registered);
  }

  /** AuthenticateAsync, with the INIT nonce passed in. */
  method AuthenticateDevice(prims: Primitives, lib: Library, hidDevice: HidPort?, registration: DeviceRegistration,
                            appId: string, facet: string, checkOnly: bool, cancelAfter: Option<nat>,
                            nonce: seq<byte>) returns (r: Result<()>)
    requires |nonce| == 8
    modifies hidDevice
    ensures hidDevice == null ==> r == Err(NotConnected)
    ensures hidDevice != null ==>
      Outcome(r, hidDevice.State()) ==
        AuthenticateCeremony(prims, lib, registration, appId, facet, checkOnly, cancelAfter, nonce,
                             old(hidDevice.connected), old(hidDevice.State()))
  {
    if hidDevice == null || !hidDevice.connected {
      return Err(NotConnected);
    }
    var u2fHidDevice, init := Open(hidDevice, nonce);
    if init.Err? {
      return Err(init.error);
    }
    var startAuthentication := lib.startAuthentication(appId, registration);
    var authenticateResponse :=
      WaitForTokenInput(prims, u2fHidDevice, Sign(startAuthentication, facet, checkOnly), cancelAfter);
    if authenticateResponse.Err? {
      return Err(authenticateResponse.error);
    }
    r := lib.finishAuthentication(startAuthentication, authenticateResponse.value.signed, registration);
  }
}
