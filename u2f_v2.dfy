/** Version 2 of the U2F raw message formats: the registration and authentication request
    messages sent to the token as APDUs, and the responses handed back to the U2F library.
    SHA-256, the JSON serialiser and base64 come from other libraries and are parameters
    here (a `Primitives` value); what is modelled is what is hashed, what is concatenated
    and which instruction and parameters are sent. */
module U2Fv2 {
  import opened Bytes
  import opened Outcomes
  import opened HidFrames
  import opened HidTransport
  import opened HidDevice
  import opened ApduDevice
  import opened Builder

  /** U2F.U2FVersion. */
  const U2FVersion: string := "U2F_V2"

  const RegisterTyp: string := "navigator.id.finishEnrollment"
  const AuthenticateTyp: string := "navigator.id.getAssertion"

  /** P1 of an authentication request: "enforce user presence and sign", and "check only". */
  const EnforcePresence: byte := 0x03
  const CheckOnly: byte := 0x07

  datatype StartedRegistration = StartedRegistration(version: string, challenge: string, appId: string)
  datatype StartedAuthentication =
    StartedAuthentication(version: string, challenge: string, appId: string, keyHandle: string)

  datatype RegisterResponse = RegisterResponse(registrationData: string, clientData: string)
  datatype AuthenticateResponse = AuthenticateResponse(clientData: string, signatureData: string, keyHandle: string)

  /** The client data object that is serialised to JSON and hashed. */
  datatype ClientData = ClientData(typ: string, challenge: string, origin: string)

  /** The foreign functions the C# code calls: SHA-256, JSON serialisation of the client
      data, and base64 in both directions. */
  datatype Primitives = Primitives(
    sha256: seq<byte> -> seq<byte>,
    json: ClientData -> string,
    toBase64: seq<byte> -> string,
    fromBase64: string -> seq<byte>)

  /** SHA-256 digests are 32 bytes long. */
  ghost predicate DigestSized(prims: Primitives)
  {
    forall b: seq<byte> {:trigger prims.sha256(b)} :: |prims.sha256(b)| == 32
  }

  /** ValidateRequest: only requests for U2F_V2 are accepted. */
  function ValidateVersion(version: string): (r: Result<()>)
    ensures r.Ok? <==> version == U2FVersion
    ensures r.Err? ==> r.error == UnsupportedVersion(version)
  {
    if version != U2FVersion then Err(UnsupportedVersion(version)) else Ok(())
  }

  /** The registration client data: finishEnrollment, the request's challenge, the facet as origin. */
  function RegistrationClientData(challenge: string, facet: string): (c: ClientData)
    ensures c.typ == "navigator.id.finishEnrollment" && c.challenge == challenge && c.origin == facet
  {
    ClientData(RegisterTyp, challenge, facet)
  }

  /** The authentication client data: getAssertion, the request's challenge, the facet as origin. */
  function AuthenticationClientData(challenge: string, facet: string): (c: ClientData)
    ensures c.typ == "navigator.id.getAssertion" && c.challenge == challenge && c.origin == facet
    ensures c != RegistrationClientData(challenge, facet)
  {
    ClientData(AuthenticateTyp, challenge, facet)
  }

  /** GetApplicationParameter: the digest of the application id's ASCII bytes. */
  function ApplicationParameter(prims: Primitives, appId: string): (p: seq<byte>)
    ensures DigestSized(prims) ==> |p| == 32
  {
    prims.sha256(AsciiBytes(appId))
  }

  /** GetChallengeParameter: the digest of the client data text's ASCII bytes. */
  function ChallengeParameter(prims: Primitives, clientData: string): (p: seq<byte>)
    ensures DigestSized(prims) ==> |p| == 32
  {
    prims.sha256(AsciiBytes(clientData))
  }

  /** The registration request message: challenge parameter, then application parameter. */
  function RegisterCommand(prims: Primitives, request: StartedRegistration, facet: string): (c: Command)
    ensures c.ins == InsEnroll && c.p1 == 0x03 && c.p2 == 0x00
    ensures DigestSized(prims) ==> |c.data| == 64
  {
    var clientData := prims.json(RegistrationClientData(request.challenge, facet));
    Command(InsEnroll, 0x03, 0x00, ChallengeParameter(prims, clientData) + ApplicationParameter(prims, request.appId))
  }

  /** The authentication request message data: client parameter, application parameter,
      the key handle's length as one byte, the key handle. */
  function SignData(clientParam: seq<byte>, appParam: seq<byte>, keyHandle: seq<byte>): (d: seq<byte>)
    ensures |d| == |clientParam| + |appParam| + 1 + |keyHandle|
  {
    clientParam + appParam + [(|keyHandle| % 256) as byte] + keyHandle
  }

  /** The token's reading of the authentication data, with 32-byte digests. */
  function ParseSignData(d: seq<byte>): Option<(seq<byte>, seq<byte>, seq<byte>)>
  {
    if |d| < 65 || |d| != 65 + d[64] as int then None
    else Some((d[..32], d[32..64], d[65..]))
  }

  /** With 32-byte digests the token gets all three fields back whenever the key handle is
      shorter than 256 bytes... */
  lemma SignDataRoundTrip(clientParam: seq<byte>, appParam: seq<byte>, keyHandle: seq<byte>)
    requires |clientParam| == 32 && |appParam| == 32 && |keyHandle| < 256
    ensures ParseSignData(SignData(clientParam, appParam, keyHandle)) == Some((clientParam, appParam, keyHandle))
  {
    var d := SignData(clientParam, appParam, keyHandle);
    assert d[..32] == clientParam && d[32..64] == appParam && d[65..] == keyHandle;
  }

  /** ...and not for a key handle of 256 bytes, whose length byte wraps to 0. */
  lemma SignDataLengthWraps(clientParam: seq<byte>, appParam: seq<byte>, keyHandle: seq<byte>)
    requires |clientParam| == 32 && |appParam| == 32 && |keyHandle| == 256
    ensures ParseSignData(SignData(clientParam, appParam, keyHandle)) == None
  {
    var d := SignData(clientParam, appParam, keyHandle);
    assert d[64] == 0;
  }

  /** The authentication request message; check-only sets P1 to 0x07, otherwise 0x03. */
  function AuthenticateCommand(prims: Primitives, request: StartedAuthentication, facet: string, checkOnly: bool)
    : (c: Command)
    ensures c.ins == InsSign && c.p2 == 0x00
  {
    var clientData := prims.json(AuthenticationClientData(request.challenge, facet));
    var data := SignData(ChallengeParameter(prims, clientData), ApplicationParameter(prims, request.appId),
                         prims.fromBase64(request.keyHandle));
    Command(InsSign, if checkOnly then CheckOnly else EnforcePresence, 0x00, data)
  }

  /** Check-only and sign requests differ in P1 and in nothing else. */
  lemma CheckOnlyChangesP1(prims: Primitives, request: StartedAuthentication, facet: string)
    ensures var sign, check := AuthenticateCommand(prims, request, facet, false),
                               AuthenticateCommand(prims, request, facet, true);
      sign.p1 == 0x03 && check.p1 == 0x07 && check == sign.(p1 := 0x07)
  {
  }

  /** RegisterAsync on the device's port. */
  function RegisterSpec(prims: Primitives, cid: seq<byte>, request: StartedRegistration, facet: string, st: PortState)
    : (o: Outcome<RegisterResponse>)
    requires |cid| <= 4
    ensures o.result.Err? && o.result.error.Apdu? ==> |o.port.inbox| < |st.inbox|
  {
    var valid := ValidateVersion(request.version);
    if valid.Err? then Outcome(Err(valid.error), st)
    else
      var c := RegisterCommand(prims, request, facet);
      var a := ApduSpec(cid, c.ins, c.p1, c.p2, Some(c.data), st);
      var clientData := prims.json(RegistrationClientData(request.challenge, facet));
      match a.result
      case Err(e) => Outcome(Err(e), a.port)
      case Ok(response) =>
        Outcome(Ok(RegisterResponse(prims.toBase64(response), prims.toBase64(AsciiBytes(clientData)))), a.port)
  }

  /** AuthenticateAsync on the device's port. */
  function AuthenticateSpec(prims: Primitives, cid: seq<byte>, request: StartedAuthentication, facet: string,
                            checkOnly: bool, st: PortState): (o: Outcome<AuthenticateResponse>)
    requires |cid| <= 4
    ensures o.result.Err? && o.result.error.Apdu? ==> |o.port.inbox| < |st.inbox|
  {
    var valid := ValidateVersion(request.version);
    if valid.Err? then Outcome(Err(valid.error), st)
    else
      var c := AuthenticateCommand(prims, request, facet, checkOnly);
      var a := ApduSpec(cid, c.ins, c.p1, c.p2, Some(c.data), st);
      var clientData := prims.json(AuthenticationClientData(request.challenge, facet));
      match a.result
      case Err(e) => Outcome(Err(e), a.port)
      case Ok(response) =>
        Outcome(Ok(AuthenticateResponse(prims.toBase64(AsciiBytes(clientData)), prims.toBase64(response),
                                        request.keyHandle)), a.port)
  }

  /** A request for another protocol version fails before anything is hashed or sent: the
      port is untouched. */
  lemma VersionCheckedFirst(prims: Primitives, cid: seq<byte>, reg: StartedRegistration, auth: StartedAuthentication,
                            facet: string, checkOnly: bool, st: PortState)
    requires |cid| <= 4
    ensures reg.version != U2FVersion ==>
      RegisterSpec(prims, cid, reg, facet, st) == Outcome(Err(UnsupportedVersion(reg.version)), st)
    ensures auth.version != U2FVersion ==>
      AuthenticateSpec(prims, cid, auth, facet, checkOnly, st) == Outcome(Err(UnsupportedVersion(auth.version)), st)
  {
  }

  /** How many reports the ENROLL request of a registration takes on the wire. */
  function EnrollReports(prims: Primitives, cid: seq<byte>, request: StartedRegistration, facet: string): nat
    requires |cid| <= 4
  {
    var c := RegisterCommand(prims, request, facet);
    |Packets(cid, CmdApdu, EncodeApdu(c.ins, c.p1, c.p2, c.data))|
  }

  /** How many reports the SIGN request of an authentication takes on the wire. */
  function SignReports(prims: Primitives, cid: seq<byte>, request: StartedAuthentication, facet: string,
                       checkOnly: bool): nat
    requires |cid| <= 4
  {
    var c := AuthenticateCommand(prims, request, facet, checkOnly);
    |Packets(cid, CmdApdu, EncodeApdu(c.ins, c.p1, c.p2, c.data))|
  }

  /** A registration answered by the token with `payload` and `status`: the token reads an
      ENROLL command whose data is the digest of the client data followed by the digest of
      the application id. On 0x9000 the response carries the payload and that same client
      data, base64-encoded; any other status word (0x6985 while the token waits for a
      touch) fails the registration with an ApduException carrying it. */
  lemma RegisterExchange(prims: Primitives, cid: seq<byte>, request: StartedRegistration, facet: string,
                         payload: seq<byte>, status: int, st: PortState, tail: seq<Report>)
    requires DigestSized(prims) && |cid| == 4 && request.version == U2FVersion
    requires 0 <= status < 65536 && |payload| + 2 < 65536
    requires AllAccepted(Skip(st.accept, 1), EnrollReports(prims, cid, request, facet) - 1)
    requires st.inbox == Delivered(Packets(cid, CmdApdu, ResponseApdu(payload, status))) + tail
    ensures var c := RegisterCommand(prims, request, facet);
      var clientData := prims.json(ClientData(RegisterTyp, request.challenge, facet));
      var o := RegisterSpec(prims, cid, request, facet, st);
      && ParseApdu(EncodeApdu(c.ins, c.p1, c.p2, c.data)) ==
           Some(Command(InsEnroll, 0x03, 0x00, prims.sha256(AsciiBytes(clientData)) + prims.sha256(AsciiBytes(request.appId))))
      && o.result == (if status == ApduOk
                      then Ok(RegisterResponse(prims.toBase64(payload), prims.toBase64(AsciiBytes(clientData))))
                      else Err(Apdu(status)))
      && o.port.inbox == tail
      && o.port.accept == Skip(st.accept, EnrollReports(prims, cid, request, facet))
  {
    var c := RegisterCommand(prims, request, facet);
    ApduRoundTrip(c.ins, c.p1, c.p2, c.data);
    ApduExchange(cid, c.ins, c.p1, c.p2, Some(c.data), payload, status, st, tail);
  }

  /** An authentication answered by the token with `payload` and `status`: the token reads
      a SIGN command with P1 0x07 or 0x03 and gets back the client data digest, the
      application id digest and the decoded key handle. On 0x9000 the response carries the
      client data, the payload and the request's key handle as it was; any other status
      word fails the authentication with an ApduException carrying it. */
  lemma AuthenticateExchange(prims: Primitives, cid: seq<byte>, request: StartedAuthentication, facet: string,
                             checkOnly: bool, payload: seq<byte>, status: int, st: PortState, tail: seq<Report>)
    requires DigestSized(prims) && |cid| == 4 && request.version == U2FVersion
    requires 0 <= status < 65536 && |payload| + 2 < 65536
    requires |prims.fromBase64(request.keyHandle)| < 256
    requires AllAccepted(Skip(st.accept, 1), SignReports(prims, cid, request, facet, checkOnly) - 1)
    requires st.inbox == Delivered(Packets(cid, CmdApdu, ResponseApdu(payload, status))) + tail
    ensures var c := AuthenticateCommand(prims, request, facet, checkOnly);
      var clientData := prims.json(ClientData(AuthenticateTyp, request.challenge, facet));
      var o := AuthenticateSpec(prims, cid, request, facet, checkOnly, st);
      && ParseApdu(EncodeApdu(c.ins, c.p1, c.p2, c.data)) == Some(c)
      && c.p1 == (if checkOnly then 0x07 else 0x03)
      && ParseSignData(c.data) == Some((prims.sha256(AsciiBytes(clientData)), prims.sha256(AsciiBytes(request.appId)),
                                        prims.fromBase64(request.keyHandle)))
      && o.result == (if status == ApduOk
                      then Ok(AuthenticateResponse(prims.toBase64(AsciiBytes(clientData)), prims.toBase64(payload),
                                                   request.keyHandle))
                      else Err(Apdu(status)))
      && o.port.inbox == tail
      && o.port.accept == Skip(st.accept, SignReports(prims, cid, request, facet, checkOnly))
  {
    var c := AuthenticateCommand(prims, request, facet, checkOnly);
    var clientData := prims.json(ClientData(AuthenticateTyp, request.challenge, facet));
    SignDataRoundTrip(prims.sha256(AsciiBytes(clientData)), prims.sha256(AsciiBytes(request.appId)),
                      prims.fromBase64(request.keyHandle));
    ApduRoundTrip(c.ins, c.p1, c.p2, c.data);
    ApduExchange(cid, c.ins, c.p1, c.p2, Some(c.data), payload, status, st, tail);
  }

  /** RegisterAsync. */
  method Register(prims: Primitives, dev: U2FHidDevice, request: StartedRegistration, facet: string)
    returns (r: Result<RegisterResponse>)
    requires dev.Valid()
    modifies dev.port
    ensures Outcome(r, dev.port.State()) == RegisterSpec(prims, dev.cid, request, facet, old(dev.port.State()))
    ensures dev.port.connected == old(dev.port.connected)
  {
    var valid := ValidateVersion(request.version);
    if valid.Err? {
      return Err(valid.error);
    }
    var appParam := ApplicationParameter(prims, request.appId);
    var clientData := prims.json(RegistrationClientData(request.challenge, facet));
    var challengeParam := ChallengeParameter(prims, clientData);
    var data := challengeParam + appParam;
    var p1: byte := 0x03;
    var p2: byte := 0x00;
    var response := SendApdu(dev, InsEnroll, p1, p2, Some(data));
    if response.Err? {
      return Err(response.error);
    }
    var registrationDataBase64 := prims.toBase64(response.value);
    var clientDataBase64 := prims.toBase64(AsciiBytes(clientData));
    r := Ok(RegisterResponse(registrationDataBase64, clientDataBase64));
  }

  /** The authentication data, assembled in a ByteArrayBuilder. */
  method BuildSignData(clientParam: seq<byte>, appParam: seq<byte>, keyHandle: seq<byte>) returns (data: seq<byte>)
    ensures data == SignData(clientParam, appParam, keyHandle)
  {
    var builder := new ByteArrayBuilder();
    builder.AppendBytes(clientParam);
    builder.AppendBytes(appParam);
    builder.Append((|keyHandle| % 256) as byte);
    builder.AppendBytes(keyHandle);
    data := builder.GetBytes();
  }

  /** AuthenticateAsync. */
  method Authenticate(prims: Primitives, dev: U2FHidDevice, request: StartedAuthentication, facet: string,
                      checkOnly: bool) returns (r: Result<AuthenticateResponse>)
    requires dev.Valid()
    modifies dev.port
    ensures Outcome(r, dev.port.State()) ==
      AuthenticateSpec(prims, dev.cid, request, facet, checkOnly, old(dev.port.State()))
    ensures dev.port.connected == old(dev.port.connected)
  {
    var valid := ValidateVersion(request.version);
    if valid.Err? {
      return Err(valid.error);
    }
    var appParam := prims.sha256(AsciiBytes(request.appId));
    var clientDataString := prims.json(AuthenticationClientData(request.challenge, facet));
    var clientParam := prims.sha256(AsciiBytes(clientDataString));
    var keyHandleDecoded := prims.fromBase64(request.keyHandle);
    var data := BuildSignData(clientParam, appParam, keyHandleDecoded);
    var p1: byte := if checkOnly then CheckOnly else EnforcePresence;
    var p2: byte := 0x00;
    var response := SendApdu(dev, InsSign, p1, p2, Some(data));
    if response.Err? {
      return Err(response.error);
    }
    var responseBase64 := prims.toBase64(response.value);
    var clientDataBase64 := prims.toBase64(AsciiBytes(clientDataString));
    r := Ok(AuthenticateResponse(clientDataBase64, responseBase64, request.keyHandle));
  }
}
