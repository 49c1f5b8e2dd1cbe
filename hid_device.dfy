/** U2FHidDevice: the U2FHID channel to one token. It sends a command as one INIT and a
    series of CONTINUATION reports, reads the response back the same way, and binds
    itself to a channel of its own with the INIT handshake. The pure functions here say
    what each operation does to the port; the class methods do it step by step and are
    proved to agree with them. */
module HidDevice {
  import opened Bytes
  import opened Outcomes
  import opened HidFrames
  import opened HidTransport
  import opened Builder

  // ---------------------------------------------------------------- specification

  /** The continuation loop of SendRequestAsync for the data still to go: one report per
      turn, stopping with "Error writing to device" at the first write that fails. */
  function SendCont(cid: seq<byte>, seqNo: nat, remaining: seq<byte>, st: PortState): (o: Outcome<()>)
    requires |cid| <= 4
    ensures o.port.inbox == st.inbox
    ensures o.result.Err? ==> o.result.error == WriteFailed
    decreases |remaining|
  {
    if remaining == [] then Outcome(Ok(()), st)
    else
      var f := Serialize(ContPacket(cid, seqNo, Take(remaining, ContCapacity)));
      if !WriteOk(st) then Outcome(Err(WriteFailed), Wrote(st, f))
      else SendCont(cid, seqNo + 1, Skip(remaining, ContCapacity), Wrote(st, f))
  }

  /** SendRequestAsync: write the INIT report (whether that write went through is not
      looked at), then the CONTINUATION reports. */
  function SendSpec(cid: seq<byte>, cmd: byte, data: seq<byte>, st: PortState): (o: Outcome<()>)
    requires |cid| <= 4
    ensures o.port.inbox == st.inbox
    ensures o.result.Err? ==> o.result.error == WriteFailed
  {
    var init := Serialize(InitPacket(cid, cmd, |data|, Take(data, InitCapacity)));
    SendCont(cid, 0, Skip(data, InitCapacity), Wrote(st, init))
  }

  /** ReadResponseAsync on the port: the reports it consumes and what it returns. */
  function ReadOutcome(cid: seq<byte>, cmd: byte, st: PortState): (o: Outcome<seq<byte>>)
    ensures o.port.written == st.written && o.port.accept == st.accept
    ensures |o.port.inbox| <= |st.inbox|
    ensures o.result.Ok? ==> |o.port.inbox| < |st.inbox|
    ensures o.result.Err? ==> !o.result.error.Apdu?
  {
    var s := ReadSpec(cid, cmd, st.inbox);
    Outcome(s.result, st.(inbox := s.rest))
  }

  /** CallAsync: send the request, then read the response; a failed send reads nothing. */
  function CallSpec(cid: seq<byte>, cmd: byte, data: seq<byte>, st: PortState): (o: Outcome<seq<byte>>)
    requires |cid| <= 4
    ensures |o.port.inbox| <= |st.inbox|
    ensures o.result.Ok? ==> |o.port.inbox| < |st.inbox|
    ensures o.result.Err? ==> !o.result.error.Apdu?
  {
    var sent := SendSpec(cid, cmd, data, st);
    if sent.result.Err? then Outcome(Err(sent.result.error), sent.port)
    else ReadOutcome(cid, cmd, sent.port)
  }

  /** Where the INIT handshake ended: its outcome, the channel the device is bound to
      afterwards, and the port. */
  datatype Handshake = Handshake(result: Result<()>, cid: seq<byte>, port: PortState)

  /** InitAsync: repeat the INIT call until a response starts with the nonce, then take
      response bytes 8..11 as the channel id. A failed call ends the handshake and leaves
      the channel as it was. Every repetition reads at least one report, so the
      repetition ends once the token stops answering. */
  function InitSpec(cid: seq<byte>, nonce: seq<byte>, st: PortState): (h: Handshake)
    requires |cid| <= 4
    ensures |h.cid| <= 4
    ensures h.result.Err? ==> h.cid == cid
    decreases |st.inbox|
  {
    var o := CallSpec(cid, CmdInit, nonce, st);
    if o.result.Err? then Handshake(Err(o.result.error), cid, o.port)
    else if HasPrefix(o.result.value, nonce) then Handshake(Ok(()), Take(Skip(o.result.value, 8), 4), o.port)
    else InitSpec(cid, nonce, o.port)
  }

  // ---------------------------------------------------------------- properties

  /** The first n scripted writes are all accepted. */
  predicate AllAccepted(accept: seq<bool>, n: nat)
  {
    n <= |accept| && forall i :: 0 <= i < n ==> accept[i]
  }

  lemma WireCons(p: Packet, later: seq<Packet>)
    requires Fits(p) && forall i :: 0 <= i < |later| ==> Fits(later[i])
    ensures forall i :: 0 <= i < |[p] + later| ==> Fits(([p] + later)[i])
    ensures Wire([p] + later) == [Serialize(p)] + Wire(later)
  {
    var all := [p] + later;
    forall i | 0 <= i < |all| ensures Fits(all[i]) {
      if i > 0 { assert all[i] == later[i - 1]; }
    }
    forall i | 1 <= i < |all| ensures Wire(all)[i] == Wire(later)[i - 1] {
      assert all[i] == later[i - 1];
    }
  }

  /** Writing `fs` in order, stopping at the first write that is refused. */
  function WriteAll(fs: seq<seq<byte>>, st: PortState): (o: Outcome<()>)
    ensures o.port.inbox == st.inbox
    decreases |fs|
  {
    if fs == [] then Outcome(Ok(()), st)
    else if !WriteOk(st) then Outcome(Err(WriteFailed), Wrote(st, fs[0]))
    else WriteAll(fs[1..], Wrote(st, fs[0]))
  }

  /** The continuation loop writes exactly the reports of the CONTINUATION packets. */
  lemma {:induction false} SendContWriteAll(cid: seq<byte>, seqNo: nat, rest: seq<byte>, st: PortState)
    requires |cid| <= 4
    ensures SendCont(cid, seqNo, rest, st) == WriteAll(Wire(ContPackets(cid, seqNo, rest)), st)
    decreases |rest|
  {
    if rest != [] {
      var p := ContPacket(cid, seqNo, Take(rest, ContCapacity));
      var t := Skip(rest, ContCapacity);
      var later := ContPackets(cid, seqNo + 1, t);
      assert ContPackets(cid, seqNo, rest) == [p] + later;
      WireCons(p, later);
      var fs := [Serialize(p)] + Wire(later);
      assert fs[0] == Serialize(p) && fs[1..] == Wire(later);
      SendContWriteAll(cid, seqNo + 1, t, Wrote(st, Serialize(p)));
    }
  }

  lemma AllAcceptedCons(accept: seq<bool>, n: nat)
    requires n > 0
    ensures AllAccepted(accept, n) <==> |accept| > 0 && accept[0] && AllAccepted(accept[1..], n - 1)
  {
    if |accept| > 0 && accept[0] && AllAccepted(accept[1..], n - 1) {
      forall i | 0 <= i < n ensures accept[i] {
        if i > 0 { assert accept[i] == accept[1..][i - 1]; }
      }
    }
  }

  /** Checked writes put a prefix of `fs` on the wire and nothing else. */
  lemma {:induction false} WriteAllPrefix(fs: seq<seq<byte>>, st: PortState)
    ensures var w := WriteAll(fs, st).port.written;
      && |st.written| <= |w| <= |st.written| + |fs|
      && w == st.written + fs[..|w| - |st.written|]
    decreases |fs|
  {
    if fs == [] {
      assert st.written + fs[..0] == st.written;
    } else if WriteOk(st) {
      var st1 := Wrote(st, fs[0]);
      WriteAllPrefix(fs[1..], st1);
      var w := WriteAll(fs, st).port.written;
      var k := |w| - |st1.written|;
      assert fs[..k + 1] == [fs[0]] + fs[1..][..k];
    } else {
      assert fs[..1] == [fs[0]];
    }
  }

  /** Checked writes succeed exactly when every one of them is accepted... */
  lemma {:induction false} WriteAllOk(fs: seq<seq<byte>>, st: PortState)
    ensures WriteAll(fs, st).result.Ok? <==> AllAccepted(st.accept, |fs|)
    decreases |fs|
  {
    if fs != [] {
      AllAcceptedCons(st.accept, |fs|);
      if WriteOk(st) {
        var st1 := Wrote(st, fs[0]);
        WriteAllOk(fs[1..], st1);
        assert st1.accept == st.accept[1..];
      }
    }
  }

  /** ...and then all of `fs` is on the wire and as many scripted outcomes are used up. */
  lemma {:induction false} WriteAllComplete(fs: seq<seq<byte>>, st: PortState)
    requires WriteAll(fs, st).result.Ok?
    ensures var o := WriteAll(fs, st);
      o.port.written == st.written + fs && o.port.accept == Skip(st.accept, |fs|)
    decreases |fs|
  {
    if fs != [] {
      var st1 := Wrote(st, fs[0]);
      WriteAllComplete(fs[1..], st1);
      assert Skip(st1.accept, |fs| - 1) == Skip(st.accept, |fs|);
      assert st.written + [fs[0]] + fs[1..] == st.written + fs;
    }
  }

  /** One write whose outcome is not looked at, then checked writes of `fs`: what is
      written is a prefix of `[f] + fs` that holds `f`... */
  lemma FirstUnchecked(f: seq<byte>, fs: seq<seq<byte>>, st: PortState)
    ensures var o, all := WriteAll(fs, Wrote(st, f)), [f] + fs;
      && |st.written| < |o.port.written| <= |st.written| + |all|
      && o.port.written == st.written + all[..|o.port.written| - |st.written|]
  {
    var st1 := Wrote(st, f);
    WriteAllPrefix(fs, st1);
    var o, all := WriteAll(fs, st1), [f] + fs;
    var k := |o.port.written| - |st1.written|;
    assert all[..k + 1] == [f] + fs[..k];
  }

  /** ...and it succeeds exactly when the writes after `f` are accepted, and then all of
      `[f] + fs` is written. */
  lemma FirstUncheckedOk(f: seq<byte>, fs: seq<seq<byte>>, st: PortState)
    ensures var o, all := WriteAll(fs, Wrote(st, f)), [f] + fs;
      && (o.result.Ok? <==> AllAccepted(Skip(st.accept, 1), |all| - 1))
      && (o.result.Ok? ==> o.port.written == st.written + all && o.port.accept == Skip(st.accept, |all|))
  {
    var st1 := Wrote(st, f);
    WriteAllOk(fs, st1);
    if WriteAll(fs, st1).result.Ok? {
      WriteAllComplete(fs, st1);
      assert st1.written + fs == st.written + ([f] + fs);
      assert Skip(st1.accept, |fs|) == Skip(st.accept, |fs| + 1);
    }
  }

  /** What SendRequestAsync writes: a prefix of the message's reports that always holds the
      INIT report; the send succeeds exactly when every CONTINUATION write is accepted
      (the INIT write's own outcome is never looked at), and then all of them are written.
      Nothing is read. */
  lemma SendWrites(cid: seq<byte>, cmd: byte, data: seq<byte>, st: PortState)
    requires |cid| <= 4
    ensures var o, fs := SendSpec(cid, cmd, data, st), Wire(Packets(cid, cmd, data));
      && |st.written| < |o.port.written| <= |st.written| + |fs|
      && o.port.written == st.written + fs[..|o.port.written| - |st.written|]
      && o.port.inbox == st.inbox
      && (o.result.Ok? <==> AllAccepted(Skip(st.accept, 1), |fs| - 1))
      && (o.result.Ok? ==> o.port.written == st.written + fs && o.port.accept == Skip(st.accept, |fs|))
  {
    var first := InitPacket(cid, cmd, |data|, Take(data, InitCapacity));
    var rest := Skip(data, InitCapacity);
    var later := ContPackets(cid, 0, rest);
    WireCons(first, later);
    SendContWriteAll(cid, 0, rest, Wrote(st, Serialize(first)));
    FirstUnchecked(Serialize(first), Wire(later), st);
    FirstUncheckedOk(Serialize(first), Wire(later), st);
  }

  /** A token whose reports carry `resp` on the current channel, after every write of the
      request has gone through, makes CallAsync return `resp` and consume exactly those
      reports; with `resp == data` this is the echo a PING exchange expects. */
  lemma CallDelivers(cid: seq<byte>, cmd: byte, data: seq<byte>, resp: seq<byte>, st: PortState, tail: seq<Report>)
    requires |cid| == 4 && |resp| < 65536 && InitType(cmd) != StatErr
    requires AllAccepted(Skip(st.accept, 1), |Packets(cid, cmd, data)| - 1)
    requires st.inbox == Delivered(Packets(cid, cmd, resp)) + tail
    ensures CallSpec(cid, cmd, data, st).result == Ok(resp)
    ensures CallSpec(cid, cmd, data, st).port.inbox == tail
    ensures CallSpec(cid, cmd, data, st).port.accept == Skip(st.accept, |Packets(cid, cmd, data)|)
  {
    SendWrites(cid, cmd, data, st);
    FramesRoundTrip(cid, cmd, resp, tail);
  }

  /** A token that answers the INIT request on the current channel with the nonce followed
      by a channel id binds the device to that channel id. */
  lemma InitBinds(cid: seq<byte>, nonce: seq<byte>, resp: seq<byte>, st: PortState, tail: seq<Report>)
    requires |cid| == 4 && |nonce| == 8 && 12 <= |resp| < 65536
    requires AllAccepted(Skip(st.accept, 1), |Packets(cid, CmdInit, nonce)| - 1)
    requires st.inbox == Delivered(Packets(cid, CmdInit, resp)) + tail
    requires resp[..8] == nonce
    ensures InitSpec(cid, nonce, st).result == Ok(())
    ensures InitSpec(cid, nonce, st).cid == resp[8..12]
  {
    CallDelivers(cid, CmdInit, nonce, resp, st, tail);
    assert HasPrefix(resp, nonce);
  }

  /** A response that does not start with the nonce leaves the channel as it was and the
      INIT exchange is made again on it. */
  lemma InitRetries(cid: seq<byte>, nonce: seq<byte>, resp: seq<byte>, st: PortState, tail: seq<Report>)
    requires |cid| == 4 && |nonce| == 8 && |resp| < 65536
    requires AllAccepted(Skip(st.accept, 1), |Packets(cid, CmdInit, nonce)| - 1)
    requires st.inbox == Delivered(Packets(cid, CmdInit, resp)) + tail
    requires Take(resp, 8) != nonce
    ensures var o := CallSpec(cid, CmdInit, nonce, st);
      o.result == Ok(resp) && InitSpec(cid, nonce, st) == InitSpec(cid, nonce, o.port)
  {
    CallDelivers(cid, CmdInit, nonce, resp, st, tail);
  }

  // ---------------------------------------------------------------- the device

  class U2FHidDevice {
    /** The transport; the device never replaces it. */
    const port: HidPort
    /** The channel id: the broadcast channel until the INIT handshake binds it. */
    var cid: seq<byte>

    ghost predicate Valid()
      reads this
    {
      |cid| <= 4
    }

    /** A new device talks on the broadcast channel 0xffffffff. */
    constructor (port: HidPort)
      ensures this.port == port && cid == BroadcastCid && Valid()
    {
      this.port := port;
      cid := BroadcastCid;
    }

    /** SendRequestAsync. */
    method SendRequest(cmd: byte, data: seq<byte>) returns (r: Result<()>)
      requires Valid()
      modifies port
      ensures Outcome(r, port.State()) == SendSpec(cid, cmd, data, old(port.State()))
      ensures port.connected == old(port.connected)
    {
      var size := |data|;
      var payloadData := Take(data, ReportSize - 7);

      var builder := new ByteArrayBuilder();
      var payload := BuildInitReport(builder, cid, cmd, size, payloadData);
      var _ := port.WriteReport(payload);

      var remaining := Skip(data, ReportSize - 7);
      var seqNo := 0;
      while |remaining| > 0
        invariant SendCont(cid, seqNo, remaining, port.State()) == SendSpec(cid, cmd, data, old(port.State()))
        invariant port.connected == old(port.connected)
        decreases |remaining|
      {
        payloadData := Take(remaining, ReportSize - 5);
        payload := BuildContReport(builder, cid, seqNo, payloadData);
        var ok := port.WriteReport(payload);
        if !ok {
          return Err(WriteFailed);
        }
        remaining := Skip(remaining, ReportSize - 5);
        seqNo := seqNo + 1;
      }
      return Ok(());
    }

    /** ReadResponseAsync. */
    method ReadResponse(cmd: byte) returns (r: Result<seq<byte>>)
      modifies port
      ensures Step(r, port.inbox) == ReadSpec(cid, cmd, old(port.inbox))
      ensures port.written == old(port.written) && port.accept == old(port.accept)
      ensures port.connected == old(port.connected)
    {
      var builder := new ByteArrayBuilder();
      var init := AwaitInitReport(cmd, builder);
      if init.Err? {
        return Err(init.error);
      }
      r := ReadPayload(init.value, builder);
    }

    /** The header loop of ReadResponseAsync: reads until a report starts with cid | 0x80|cmd,
        failing on a failed read or on a report that starts with cid | STAT_ERR. */
    method AwaitInitReport(cmd: byte, builder: ByteArrayBuilder) returns (r: Result<seq<byte>>)
      modifies port, builder
      ensures Step(r, port.inbox) == AwaitInit(cid, cmd, old(port.inbox))
      ensures port.written == old(port.written) && port.accept == old(port.accept)
      ensures port.connected == old(port.connected)
    {
      builder.Clear();
      builder.AppendBytes(cid);
      builder.Append(InitType(cmd));
      var resp: seq<byte> := [0x2e];
      var header := builder.GetBytes();
      ghost var first := AwaitInit(cid, cmd, old(port.inbox));

      while !HasPrefix(resp, header)
        invariant header == cid + [InitType(cmd)]
        invariant port.written == old(port.written) && port.accept == old(port.accept)
        invariant port.connected == old(port.connected)
        invariant !HasPrefix(resp, header) ==> AwaitInit(cid, cmd, port.inbox) == first
        invariant HasPrefix(resp, header) ==> first == Step(Ok(resp), port.inbox)
        decreases |port.inbox|
      {
        var report := port.ReadReport();
        if !report.ok {
          return Err(ReadFailed);
        }
        resp := report.data;
        builder.Clear();
        builder.AppendBytes(cid);
        builder.Append(StatErr);
        var errHeader := builder.GetBytes();
        if HasPrefix(resp, errHeader) {
          return Err(ErrorHeader);
        }
      }
      r := Ok(resp);
    }

    /** The rest of ReadResponseAsync once the INIT report has been found: the declared
        length and first data bytes from the report, then the continuation loop, which
        reads CONT reports with sequence numbers 0, 1, 2, ... on this channel and appends
        their data until the declared length has arrived. */
    method ReadPayload(report: seq<byte>, builder: ByteArrayBuilder) returns (r: Result<seq<byte>>)
      modifies port, builder
      ensures Step(r, port.inbox) == FromInit(cid, report, old(port.inbox))
      ensures port.written == old(port.written) && port.accept == old(port.accept)
      ensures port.connected == old(port.connected)
    {
      if |report| < 7 {
        return Err(ShortBuffer);
      }
      var dataLength: int := report[5] as int * 256 + report[6] as int;
      var payloadData := Take(Skip(report, 7), Min(dataLength, ReportSize));
      builder.Clear();
      builder.AppendBytes(payloadData);
      var remaining := dataLength - builder.Length();
      assert builder.stream == payloadData && port.inbox == old(port.inbox);
      assert dataLength == DeclaredLength(report);
      ghost var whole := Collect(cid, remaining, 0, port.inbox, builder.stream);
      assert whole == FromInit(cid, report, old(port.inbox));
      var seqNo := 0;
      while remaining > 0
        invariant Collect(cid, remaining, seqNo, port.inbox, builder.stream) == whole
        invariant port.written == old(port.written) && port.accept == old(port.accept)
        invariant port.connected == old(port.connected)
        decreases |port.inbox|
      {
        label turn:
        var cont := port.ReadReport();
        if !cont.ok {
          return Err(ReadFailed);
        }
        if Take(cont.data, 4) != cid {
          return Err(WrongCid);
        }
        if |cont.data| < 5 {
          return Err(ShortBuffer);
        }
        if cont.data[4] as int != seqNo % 128 {
          return Err(WrongSeq);
        }
        CollectTurn(cid, remaining, seqNo, old@turn(port.inbox), builder.stream);
        seqNo := seqNo + 1;
        payloadData := Take(Skip(cont.data, 5), Min(remaining, ReportSize));
        remaining := remaining - |payloadData|;
        builder.AppendBytes(payloadData);
      }
      var result := builder.GetBytes();
      r := Ok(result);
    }

    /** CallAsync. */
    method Call(cmd: byte, data: seq<byte>) returns (r: Result<seq<byte>>)
      requires Valid()
      modifies port
      ensures Outcome(r, port.State()) == CallSpec(cid, cmd, data, old(port.State()))
      ensures port.connected == old(port.connected)
    {
      var sent := SendRequest(cmd, data);
      if sent.Err? {
        return Err(sent.error);
      }
      r := ReadResponse(cmd);
    }

    /** InitAsync, with the random nonce passed in. */
    method Init(nonce: seq<byte>) returns (r: Result<()>)
      requires Valid() && |nonce| == 8
      modifies this, port
      ensures Valid()
      ensures Handshake(r, cid, port.State()) == InitSpec(old(cid), nonce, old(port.State()))
      ensures port.connected == old(port.connected)
    {
      var response := Call(CmdInit, nonce);
      while response.Err? || !HasPrefix(response.value, nonce)
        invariant Valid() && cid == old(cid)
        invariant port.connected == old(port.connected)
        invariant response.Err? ==> InitSpec(cid, nonce, old(port.State())) == Handshake(Err(response.error), cid, port.State())
        invariant response.Ok? && HasPrefix(response.value, nonce) ==>
          InitSpec(cid, nonce, old(port.State())) == Handshake(Ok(()), Take(Skip(response.value, 8), 4), port.State())
        invariant response.Ok? && !HasPrefix(response.value, nonce) ==>
          InitSpec(cid, nonce, old(port.State())) == InitSpec(cid, nonce, port.State())
        decreases |port.inbox|, if response.Err? then 0 else 1
      {
        if response.Err? {
          return Err(response.error);
        }
        response := Call(CmdInit, nonce);
      }
      cid := Take(Skip(response.value, 8), 4);
      r := Ok(());
    }
  }

  /** The padding loop of SendRequestAsync: append zeros until the builder holds a full
      report, then take its contents, which are then the serialised packet `p`. */
  method PadReport(builder: ByteArrayBuilder, ghost p: Packet) returns (payload: seq<byte>)
    requires Fits(p) && builder.stream == Header(p) + p.payload
    modifies builder
    ensures payload == Serialize(p) && builder.stream == payload
  {
    ghost var head := builder.stream;
    while builder.Length() < ReportSize
      invariant |head| <= |builder.stream| <= ReportSize
      invariant builder.stream == head + Zeros(|builder.stream| - |head|)
      decreases ReportSize - builder.Length()
    {
      builder.Append(0);
    }
    payload := builder.GetBytes();
  }

  /** The INIT report of SendRequestAsync, assembled in `builder`: channel id, 0x80|cmd,
      the total length big-endian, the first data bytes, zero padding. */
  method BuildInitReport(builder: ByteArrayBuilder, cid: seq<byte>, cmd: byte, size: nat, payloadData: seq<byte>)
    returns (payload: seq<byte>)
    requires |cid| <= 4 && |payloadData| <= InitCapacity
    modifies builder
    ensures payload == Serialize(InitPacket(cid, cmd, size, payloadData))
  {
    builder.Clear();
    builder.AppendBytes(cid);
    builder.Append(InitType(cmd));
    builder.Append(LengthHigh(size));
    builder.Append(LengthLow(size));
    builder.AppendBytes(payloadData);
    payload := PadReport(builder, InitPacket(cid, cmd, size, payloadData));
  }

  /** A CONTINUATION report of SendRequestAsync, assembled in `builder`: channel id, the
      sequence number modulo 128, the next data bytes, zero padding. */
  method BuildContReport(builder: ByteArrayBuilder, cid: seq<byte>, seqNo: nat, payloadData: seq<byte>)
    returns (payload: seq<byte>)
    requires |cid| <= 4 && |payloadData| <= ContCapacity
    modifies builder
    ensures payload == Serialize(ContPacket(cid, seqNo, payloadData))
  {
    builder.Clear();
    builder.AppendBytes(cid);
    builder.Append((seqNo % 128) as byte);
    builder.AppendBytes(payloadData);
    payload := PadReport(builder, ContPacket(cid, seqNo, payloadData));
  }

  /** OpenAsync: a new device on the broadcast channel, then the INIT handshake. */
  method Open(port: HidPort, nonce: seq<byte>) returns (dev: U2FHidDevice, r: Result<()>)
    requires |nonce| == 8
    modifies port
    ensures fresh(dev) && dev.port == port && dev.Valid()
    ensures Handshake(r, dev.cid, port.State()) == InitSpec(BroadcastCid, nonce, old(port.State()))
    ensures port.connected == old(port.connected)
  {
    dev := new U2FHidDevice(port);
    r := dev.Init(nonce);
  }
}
