/** The APDU layer above the HID transport: a command is encoded in the extended-length
    form of ISO/IEC 7816-4 as FIDO U2F profiles it, sent as one U2FHID_MSG call, and the
    response is split into its data and its trailing status word.

    u2fhost's ApduDevice is an abstract base whose one implementation of
    DoSendApduAsync is the HID device's CallAsync with U2FHID_MSG; the operations here
    therefore take that device as a parameter. */
module ApduDevice {
  import opened Bytes
  import opened Outcomes
  import opened HidFrames
  import opened HidTransport
  import opened HidDevice
  import opened Builder

  const InsEnroll: byte := 0x01
  const InsSign: byte := 0x02
  const InsGetVersion: byte := 0x03

  const ApduOk: int := 0x9000
  const ApduUseNotSatisfied: int := 0x6985
  /** The status a version-0 token answers GET_VERSION with (instruction not supported). */
  const InsNotSupported: int := 0x6d00

  /** An omitted data argument is sent as no data. */
  function OrEmpty(data: Option<seq<byte>>): (d: seq<byte>)
    ensures data.None? ==> d == []
    ensures data.Some? ==> d == data.value
  {
    if data.None? then [] else data.value
  }

  /** Bits 16..23 of the data length. */
  function LengthTop(n: nat): (b: byte)
    ensures n < 0x100_0000 ==> b as int == n / 65536
  {
    ((n / 65536) % 256) as byte
  }

  /** The command APDU: CLA 0, INS, P1, P2, a three-byte big-endian data length, the data,
      and the two-byte maximum response length 0x0400. */
  function EncodeApdu(ins: byte, p1: byte, p2: byte, data: seq<byte>): (req: seq<byte>)
    ensures |req| == |data| + 9
  {
    [0x00, ins, p1, p2, LengthTop(|data|), LengthHigh(|data|), LengthLow(|data|)] + data + [0x04, 0x00]
  }

  /** A command as the token sees it. */
  datatype Command = Command(ins: byte, p1: byte, p2: byte, data: seq<byte>)

  /** The length the three length bytes of a request declare. */
  function DeclaredApduLength(req: seq<byte>): nat
    requires |req| >= 7
  {
    req[4] as int * 65536 + req[5] as int * 256 + req[6] as int
  }

  /** The token's reading of a request: CLA 0, a declared length that matches what
      follows, and the trailing 0x0400. */
  function ParseApdu(req: seq<byte>): (c: Option<Command>)
    ensures c.Some? ==> |req| == |c.value.data| + 9
  {
    if |req| < 9 || req[0] != 0 then None
    else
      var n := DeclaredApduLength(req);
      if |req| != n + 9 || req[n + 7..] != [0x04, 0x00] then None
      else Some(Command(req[1], req[2], req[3], req[7..n + 7]))
  }

  /** Read back big-endian, the three length bytes give n modulo 2^24. */
  lemma LengthBytes(n: nat)
    ensures LengthTop(n) as int * 65536 + LengthHigh(n) as int * 256 + LengthLow(n) as int == n % 0x100_0000
  {
    var q := n / 256;
    assert n == q * 256 + n % 256;
    var q2 := q / 256;
    assert q == q2 * 256 + q % 256;
    assert n / 65536 == q2;
    var m := n % 0x100_0000;
    assert n == (n / 0x100_0000) * 0x100_0000 + m;
    assert q2 == (n / 0x100_0000) * 256 + q2 % 256;
  }

  /** The request carries the header bytes, the data length modulo 2^24, the data and the
      trailing 0x0400, each at its offset. */
  lemma EncodedLength(ins: byte, p1: byte, p2: byte, data: seq<byte>)
    ensures var req := EncodeApdu(ins, p1, p2, data);
      req[..4] == [0x00, ins, p1, p2] && DeclaredApduLength(req) == |data| % 0x100_0000
      && req[7..|data| + 7] == data && req[|data| + 7..] == [0x04, 0x00]
  {
    var n := |data|;
    var req := EncodeApdu(ins, p1, p2, data);
    assert req[4] == LengthTop(n) && req[5] == LengthHigh(n) && req[6] == LengthLow(n);
    LengthBytes(n);
    assert req[7..n + 7] == data;
  }

  /** Encoding is lossless for data shorter than 2^24 bytes. */
  lemma ApduRoundTrip(ins: byte, p1: byte, p2: byte, data: seq<byte>)
    requires |data| < 0x100_0000
    ensures ParseApdu(EncodeApdu(ins, p1, p2, data)) == Some(Command(ins, p1, p2, data))
  {
    EncodedLength(ins, p1, p2, data);
  }

  /** At 2^24 bytes the length field wraps to 0 and the token cannot read the request back. */
  lemma ApduLengthWraps(ins: byte, p1: byte, p2: byte, data: seq<byte>)
    requires |data| == 0x100_0000
    ensures ParseApdu(EncodeApdu(ins, p1, p2, data)) == None
  {
    EncodedLength(ins, p1, p2, data);
  }

  /** Omitted data is a 9-byte request whose length bytes are all zero. */
  lemma NoDataApdu(ins: byte, p1: byte, p2: byte)
    ensures EncodeApdu(ins, p1, p2, OrEmpty(None)) == [0x00, ins, p1, p2, 0, 0, 0, 0x04, 0x00]
  {
  }

  /** BitConverter.ToUInt16 on a little-endian pair; fewer than two bytes is an error. */
  function UInt16LittleEndian(s: seq<byte>): (r: Result<int>)
    ensures r.Ok? <==> |s| >= 2
    ensures r.Ok? ==> 0 <= r.value < 65536
  {
    if |s| < 2 then Err(ShortBuffer) else Ok(s[0] as int + 256 * s[1] as int)
  }

  function Reverse<T>(s: seq<T>): (r: seq<T>)
    ensures |r| == |s| && forall i :: 0 <= i < |s| ==> r[i] == s[|s| - 1 - i]
  {
    seq(|s|, i requires 0 <= i < |s| => s[|s| - 1 - i])
  }

  /** The status word of a response: its last two bytes, reversed and read little-endian. */
  function StatusWord(resp: seq<byte>): (r: Result<int>)
    ensures r.Ok? <==> |resp| >= 2
    ensures r.Ok? ==> 0 <= r.value < 65536
  {
    UInt16LittleEndian(Reverse(Take(Skip(resp, |resp| - 2), 2)))
  }

  /** The status word is the last two bytes read big-endian; a response shorter than two
      bytes has none. */
  lemma StatusWordValue(resp: seq<byte>)
    ensures |resp| >= 2 ==> StatusWord(resp) == Ok(resp[|resp| - 2] as int * 256 + resp[|resp| - 1] as int)
    ensures |resp| < 2 ==> StatusWord(resp) == Err(ShortBuffer)
  {
    var n := |resp|;
    if n >= 2 {
      var pair := Take(Skip(resp, n - 2), 2);
      assert pair == resp[n - 2..];
      var status := Reverse(pair);
      assert status[0] == resp[n - 1] && status[1] == resp[n - 2];
    }
  }

  /** The response handling of SendApduAsync: everything but the last two bytes when the
      status word is 0x9000, the status word as an ApduException otherwise. */
  function DecodeResponse(resp: seq<byte>): (r: Result<seq<byte>>)
    ensures r.Ok? ==> |resp| >= 2 && r.value == resp[..|resp| - 2]
    ensures r.Err? ==> r.error == ShortBuffer || (r.error.Apdu? && r.error.status != ApduOk)
  {
    var responseData := Take(resp, |resp| - 2);
    var status := StatusWord(resp);
    if status.Err? then Err(status.error)
    else if status.value != ApduOk then Err(Apdu(status.value))
    else Ok(responseData)
  }

  /** A response is accepted exactly when it ends in 90 00, and then its data is the rest;
      otherwise the status word is reported, or ShortBuffer when there is none. */
  lemma DecodeCases(resp: seq<byte>)
    ensures var n := |resp|;
      && (DecodeResponse(resp).Ok? <==> n >= 2 && resp[n - 2] == 0x90 && resp[n - 1] == 0x00)
      && (DecodeResponse(resp).Ok? ==> DecodeResponse(resp).value == resp[..n - 2])
      && (n < 2 ==> DecodeResponse(resp) == Err(ShortBuffer))
      && (n >= 2 && DecodeResponse(resp).Err? ==>
            DecodeResponse(resp) == Err(Apdu(resp[n - 2] as int * 256 + resp[n - 1] as int)))
  {
    StatusWordValue(resp);
  }

  /** The token's side: the data followed by the status word, big-endian. */
  function ResponseApdu(payload: seq<byte>, status: int): (resp: seq<byte>)
    requires 0 <= status < 65536
    ensures |resp| == |payload| + 2
  {
    payload + [(status / 256) as byte, (status % 256) as byte]
  }

  /** Decoding undoes the token's encoding: 0x9000 gives back the data, any other status
      word comes back as an error carrying it. */
  lemma ResponseRoundTrip(payload: seq<byte>, status: int)
    requires 0 <= status < 65536
    ensures DecodeResponse(ResponseApdu(payload, status)) ==
      if status == ApduOk then Ok(payload) else Err(Apdu(status))
  {
    var resp := ResponseApdu(payload, status);
    StatusWordValue(resp);
    assert resp[..|payload|] == payload;
  }

  /** SendApduAsync on the port: one U2FHID_MSG call, then the response handling. */
  function ApduSpec(cid: seq<byte>, ins: byte, p1: byte, p2: byte, data: Option<seq<byte>>, st: PortState)
    : (o: Outcome<seq<byte>>)
    requires |cid| <= 4
    ensures |o.port.inbox| <= |st.inbox|
    ensures o.result.Err? && o.result.error.Apdu? ==> |o.port.inbox| < |st.inbox|
  {
    var o := CallSpec(cid, CmdApdu, EncodeApdu(ins, p1, p2, OrEmpty(data)), st);
    if o.result.Err? then o else Outcome(DecodeResponse(o.result.value), o.port)
  }

  /** The request of SendApduAsync, assembled in a ByteArrayBuilder. */
  method BuildApdu(ins: byte, p1: byte, p2: byte, data: Option<seq<byte>>) returns (apdu: seq<byte>)
    ensures apdu == EncodeApdu(ins, p1, p2, OrEmpty(data))
  {
    var d: seq<byte> := [];
    if data.Some? {
      d := data.value;
    }
    var size := |d|;
    var l0, l1, l2 := LengthTop(size), LengthHigh(size), LengthLow(size);
    var builder := new ByteArrayBuilder();
    builder.AppendBytes([0x00, ins, p1, p2, l0, l1, l2]);
    builder.AppendBytes(d);
    builder.AppendBytes([0x04, 0x00]);
    apdu := builder.GetBytes();
  }

  /** SendApduAsync. */
  method SendApdu(dev: U2FHidDevice, ins: byte, p1: byte, p2: byte, data: Option<seq<byte>>)
    returns (r: Result<seq<byte>>)
    requires dev.Valid()
    modifies dev.port
    ensures Outcome(r, dev.port.State()) == ApduSpec(dev.cid, ins, p1, p2, data, old(dev.port.State()))
    ensures dev.port.connected == old(dev.port.connected)
  {
    var apduData := BuildApdu(ins, p1, p2, data);
    var response := dev.Call(CmdApdu, apduData);
    if response.Err? {
      return response;
    }
    var resp := response.value;
    var responseData := Take(resp, |resp| - 2);
    var status := Reverse(Take(Skip(resp, |resp| - 2), 2));
    var statusCode := UInt16LittleEndian(status);
    if statusCode.Err? {
      return Err(statusCode.error);
    }
    if statusCode.value != ApduOk {
      return Err(Apdu(statusCode.value));
    }
    r := Ok(responseData);
  }

  /** A token that answers on the device's channel with `payload` and status word `status`,
      after every write of the request went through, gives SendApduAsync that answer. */
  lemma ApduExchange(cid: seq<byte>, ins: byte, p1: byte, p2: byte, data: Option<seq<byte>>,
                     payload: seq<byte>, status: int, st: PortState, tail: seq<Report>)
    requires |cid| == 4 && 0 <= status < 65536 && |payload| + 2 < 65536
    requires AllAccepted(Skip(st.accept, 1), |Packets(cid, CmdApdu, EncodeApdu(ins, p1, p2, OrEmpty(data)))| - 1)
    requires st.inbox == Delivered(Packets(cid, CmdApdu, ResponseApdu(payload, status))) + tail
    ensures var o := ApduSpec(cid, ins, p1, p2, data, st);
      && o.result == (if status == ApduOk then Ok(payload) else Err(Apdu(status)))
      && o.port.inbox == tail
      && o.port.accept == Skip(st.accept, |Packets(cid, CmdApdu, EncodeApdu(ins, p1, p2, OrEmpty(data)))|)
  {
    CallDelivers(cid, CmdApdu, EncodeApdu(ins, p1, p2, OrEmpty(data)), ResponseApdu(payload, status), st, tail);
    ResponseRoundTrip(payload, status);
  }

  /** The version list GetSupportedVersionsAsync makes of the GET_VERSION answer: the
      answer as ASCII text, ["v0"] for a token that does not know the instruction, no
      versions for any other status word; failures other than a status word propagate. */
  function VersionsOf(answer: Result<seq<byte>>): (r: Result<seq<string>>)
    ensures r.Ok? ==> |r.value| <= 1
    ensures r.Err? <==> answer.Err? && !answer.error.Apdu?
  {
    match answer
    case Ok(versionBytes) => Ok([AsciiString(versionBytes)])
    case Err(Apdu(status)) => Ok(if status == InsNotSupported then ["v0"] else [])
    case Err(e) => Err(e)
  }

  /** The three answers: the ASCII text of the data on success, ["v0"] for status 0x6d00,
      no versions for any other status word; every other failure propagates. */
  lemma VersionsCases(answer: Result<seq<byte>>)
    ensures answer.Ok? ==> VersionsOf(answer) == Ok([AsciiString(answer.value)])
    ensures answer == Err(Apdu(InsNotSupported)) ==> VersionsOf(answer) == Ok(["v0"])
    ensures VersionsOf(answer) == Ok([]) <==>
      answer.Err? && answer.error.Apdu? && answer.error.status != InsNotSupported
    ensures answer.Err? && !answer.error.Apdu? ==> VersionsOf(answer) == Err(answer.error)
  {
  }

  /** A token that answers GET_VERSION on the device's channel with `payload` and status
      word `status` yields its version text for 0x9000, ["v0"] for 0x6d00 and no versions
      for any other status. */
  lemma VersionsExchange(cid: seq<byte>, payload: seq<byte>, status: int, st: PortState, tail: seq<Report>)
    requires |cid| == 4 && 0 <= status < 65536 && |payload| + 2 < 65536
    requires AllAccepted(Skip(st.accept, 1), |Packets(cid, CmdApdu, EncodeApdu(InsGetVersion, 0, 0, OrEmpty(None)))| - 1)
    requires st.inbox == Delivered(Packets(cid, CmdApdu, ResponseApdu(payload, status))) + tail
    ensures var o := ApduSpec(cid, InsGetVersion, 0, 0, None, st);
      && VersionsOf(o.result) == (if status == ApduOk then Ok([AsciiString(payload)])
                                  else if status == InsNotSupported then Ok(["v0"]) else Ok([]))
      && o.port.inbox == tail
  {
    ApduExchange(cid, InsGetVersion, 0, 0, None, payload, status, st, tail);
  }

  /** GetSupportedVersionsAsync. */
  method GetSupportedVersions(dev: U2FHidDevice) returns (r: Result<seq<string>>)
    requires dev.Valid()
    modifies dev.port
    ensures var o := ApduSpec(dev.cid, InsGetVersion, 0, 0, None, old(dev.port.State()));
      r == VersionsOf(o.result) && dev.port.State() == o.port
    ensures dev.port.connected == old(dev.port.connected)
  {
    var versionBytes := SendApdu(dev, InsGetVersion, 0x00, 0x00, None);
    r := VersionsOf(versionBytes);
  }
}
