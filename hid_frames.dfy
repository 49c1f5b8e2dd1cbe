/** The U2FHID packet layouts (FIDO U2F HID Protocol, "Message and packet
    structure") and the reassembly of a response from a stream of reports,
    as pure functions. The device class in HidDevice runs them against the
    transport; the lemmas here say what the layouts guarantee. */
module HidFrames {
  import opened Bytes
  import opened Outcomes

  const ReportSize: nat := 64
  /** Data bytes that fit in an INIT frame after cid(4), cmd(1) and length(2). */
  const InitCapacity: nat := ReportSize - 7
  /** Data bytes that fit in a CONTINUATION frame after cid(4) and seq(1). */
  const ContCapacity: nat := ReportSize - 5

  const TypeInit: byte := 0x80
  const StatErr: byte := 0xbf

  const CmdPing: byte := 0x01
  const CmdApdu: byte := 0x03
  const CmdInit: byte := 0x06
  const CmdWink: byte := 0x08

  /** BitConverter.GetBytes(0xffffffff): the broadcast channel id. */
  const BroadcastCid: seq<byte> := [0xff, 0xff, 0xff, 0xff]

  /** One raw read from the transport: its read status and its data. */
  datatype Report = Report(ok: bool, data: seq<byte>)

  /** `(byte)(TYPE_INIT | cmd)`: the top bit set, the low seven bits those of cmd. */
  function InitType(cmd: byte): (t: byte)
    ensures t >= TypeInit && t as int % 128 == cmd as int % 128
  {
    if cmd < TypeInit then cmd + TypeInit else cmd
  }

  /** `(byte)(n >> 8 & 0xff)`: the high byte of a length under 65536. */
  function LengthHigh(n: nat): (b: byte)
    ensures n < 65536 ==> b as int == n / 256
  {
    ((n / 256) % 256) as byte
  }

  /** `(byte)(n & 0xff)`; with the high byte, big-endian, it gives n modulo 65536. */
  function LengthLow(n: nat): (b: byte)
    ensures LengthHigh(n) as int * 256 + b as int == n % 65536
  {
    LengthPair(n);
    (n % 256) as byte
  }

  lemma LengthPair(n: nat)
    ensures ((n / 256) % 256) * 256 + n % 256 == n % 65536
  {
    var q := n / 256;
    assert n == q * 256 + n % 256;
    assert q == (q / 256) * 256 + q % 256;
    assert n / 65536 == q / 256;
    assert n == (q / 256) * 65536 + ((q % 256) * 256 + n % 256);
  }

  /** One U2FHID packet as the send loop lays it out: an INIT packet carries the channel,
      the command, the total message length and the first data bytes; a CONTINUATION
      packet carries the channel, a sequence number and the next data bytes. */
  datatype Packet =
    | InitPacket(cid: seq<byte>, cmd: byte, total: nat, payload: seq<byte>)
    | ContPacket(cid: seq<byte>, seqNo: nat, payload: seq<byte>)

  /** The header fits before the data, and the data fits in what is left of a report. */
  predicate Fits(p: Packet)
  {
    |p.cid| <= 4 && |p.payload| <= if p.InitPacket? then InitCapacity else ContCapacity
  }

  /** cid | 0x80|cmd | n >> 8 | n & 0xff for INIT, cid | seq & 0x7f for CONTINUATION. */
  function Header(p: Packet): (h: seq<byte>)
    ensures |h| == |p.cid| + if p.InitPacket? then 3 else 1
    ensures h[..|p.cid|] == p.cid
    ensures h[|p.cid|] >= TypeInit <==> p.InitPacket?
  {
    match p
    case InitPacket(cid, cmd, n, _) => cid + [InitType(cmd), LengthHigh(n), LengthLow(n)]
    case ContPacket(cid, seqNo, _) => cid + [(seqNo % 128) as byte]
  }

  /** The padding loop: append zeros until the report size is reached. */
  function Pad(s: seq<byte>): (r: seq<byte>)
    requires |s| <= ReportSize
    ensures |r| == ReportSize
  {
    s + Zeros(ReportSize - |s|)
  }

  /** The 64 bytes written for a packet. */
  function Serialize(p: Packet): (f: seq<byte>)
    requires Fits(p)
    ensures |f| == ReportSize
  {
    Pad(Header(p) + p.payload)
  }

  /** A serialised packet is its header, its data, then zeros up to 64 bytes. */
  lemma SerializeLayout(p: Packet)
    requires Fits(p)
    ensures var f, n := Serialize(p), |Header(p)| + |p.payload|;
      && f[..n] == Header(p) + p.payload
      && forall i :: n <= i < ReportSize ==> f[i] == 0
  {
  }

  /** The slices of `rest` the continuation packets carry: 59 bytes at a time, the last
      one possibly shorter, none of them empty. */
  function Chunks(rest: seq<byte>): (cs: seq<seq<byte>>)
    ensures forall i :: 0 <= i < |cs| ==> 0 < |cs[i]| <= ContCapacity
    decreases |rest|
  {
    if rest == [] then [] else [Take(rest, ContCapacity)] + Chunks(Skip(rest, ContCapacity))
  }

  function Flatten(cs: seq<seq<byte>>): seq<byte>
  {
    if cs == [] then [] else cs[0] + Flatten(cs[1..])
  }

  /** The CONTINUATION packets of the send loop for the remaining data `rest`, numbered
      from `seqNo`: one per iteration, each taking the next 59 bytes. */
  function ContPackets(cid: seq<byte>, seqNo: nat, rest: seq<byte>): (ps: seq<Packet>)
    requires |cid| <= 4
    ensures forall i :: 0 <= i < |ps| ==> ps[i].ContPacket? && Fits(ps[i])
    decreases |rest|
  {
    if rest == [] then []
    else [ContPacket(cid, seqNo, Take(rest, ContCapacity))] + ContPackets(cid, seqNo + 1, Skip(rest, ContCapacity))
  }

  /** Every packet sent for one message, in order. */
  function Packets(cid: seq<byte>, cmd: byte, data: seq<byte>): (ps: seq<Packet>)
    requires |cid| <= 4
    ensures |ps| > 0 && forall i :: 0 <= i < |ps| ==> Fits(ps[i])
  {
    [InitPacket(cid, cmd, |data|, Take(data, InitCapacity))] + ContPackets(cid, 0, Skip(data, InitCapacity))
  }

  /** The reports written for a sequence of packets. */
  function Wire(ps: seq<Packet>): (fs: seq<seq<byte>>)
    requires forall i :: 0 <= i < |ps| ==> Fits(ps[i])
    ensures |fs| == |ps| && forall i :: 0 <= i < |ps| ==> |fs[i]| == ReportSize
  {
    seq(|ps|, i requires 0 <= i < |ps| => Serialize(ps[i]))
  }

  function CeilDiv(a: nat, b: nat): nat
    requires b > 0
  {
    (a + b - 1) / b
  }

  /** No byte is dropped or repeated: the slices, concatenated, are `rest` again. */
  lemma {:induction false} ChunksFlatten(rest: seq<byte>)
    ensures Flatten(Chunks(rest)) == rest
    decreases |rest|
  {
    if rest != [] {
      var c, t := Take(rest, ContCapacity), Skip(rest, ContCapacity);
      var cs := [c] + Chunks(t);
      assert Chunks(rest) == cs && cs[0] == c && cs[1..] == Chunks(t);
      ChunksFlatten(t);
      TakeSkip(rest, ContCapacity);
    }
  }

  /** There are ceil(|rest| / 59) slices. */
  lemma {:induction false} ChunksCount(rest: seq<byte>)
    ensures |Chunks(rest)| == CeilDiv(|rest|, ContCapacity)
    decreases |rest|
  {
    if rest != [] {
      ChunksCount(Skip(rest, ContCapacity));
    }
  }

  /** Continuation packet j (counted from seqNo) carries slice j of `rest` under sequence
      number seqNo + j, and there is one packet per slice. */
  lemma {:induction false} ContPacketsChunks(cid: seq<byte>, seqNo: nat, rest: seq<byte>)
    requires |cid| <= 4
    ensures |ContPackets(cid, seqNo, rest)| == |Chunks(rest)|
    ensures forall j :: 0 <= j < |Chunks(rest)| ==>
      ContPackets(cid, seqNo, rest)[j] == ContPacket(cid, seqNo + j, Chunks(rest)[j])
    decreases |rest|
  {
    if rest != [] {
      var c, t := Take(rest, ContCapacity), Skip(rest, ContCapacity);
      var ps, later := ContPackets(cid, seqNo, rest), ContPackets(cid, seqNo + 1, t);
      assert ps == [ContPacket(cid, seqNo, c)] + later;
      assert Chunks(rest) == [c] + Chunks(t);
      ContPacketsChunks(cid, seqNo + 1, t);
    }
  }

  /** A message of n bytes takes exactly one INIT packet and ceil(max(0, n - 57) / 59)
      CONTINUATION packets, each written as one 64-byte report. */
  lemma PacketsCount(cid: seq<byte>, cmd: byte, data: seq<byte>)
    requires |cid| <= 4
    ensures |Packets(cid, cmd, data)| == 1 + CeilDiv(if |data| <= InitCapacity then 0 else |data| - InitCapacity, ContCapacity)
    ensures forall f :: f in Wire(Packets(cid, cmd, data)) ==> |f| == ReportSize
  {
    var rest := Skip(data, InitCapacity);
    ContPacketsChunks(cid, 0, rest);
    ChunksCount(rest);
  }

  /** The packets carry the message without dropping a byte: the INIT packet carries the
      length and the first min(n, 57) bytes, continuation packet j carries slice j of the
      remainder under sequence number j, and those pieces, concatenated, are the message. */
  lemma PacketsCarryData(cid: seq<byte>, cmd: byte, data: seq<byte>)
    requires |cid| <= 4
    ensures var ps, cs := Packets(cid, cmd, data), Chunks(Skip(data, InitCapacity));
      && ps[0] == InitPacket(cid, cmd, |data|, Take(data, InitCapacity))
      && |ps| == 1 + |cs|
      && (forall j :: 0 <= j < |cs| ==> ps[j + 1] == ContPacket(cid, j, cs[j]))
      && Take(data, InitCapacity) + Flatten(cs) == data
  {
    var rest := Skip(data, InitCapacity);
    var ps, later := Packets(cid, cmd, data), ContPackets(cid, 0, rest);
    assert ps == [InitPacket(cid, cmd, |data|, Take(data, InitCapacity))] + later;
    ContPacketsChunks(cid, 0, rest);
    forall j | 0 <= j < |Chunks(rest)| ensures ps[j + 1] == ContPacket(cid, j, Chunks(rest)[j]) {
      assert ps[j + 1] == later[j];
    }
    ChunksFlatten(rest);
    TakeSkip(data, InitCapacity);
  }

  // ---------------------------------------------------------------- reading

  /** Where a read stopped: its outcome and the reports not yet consumed. */
  datatype Step = Step(result: Result<seq<byte>>, rest: seq<Report>)

  /** The header loop of ReadResponseAsync: read reports until one starts with
      cid | 0x80|cmd, failing on a read error or a report starting with cid | STAT_ERR.
      An exhausted inbox is a read that timed out. On success the result is the matching
      report's data. */
  function AwaitInit(cid: seq<byte>, cmd: byte, inbox: seq<Report>): (st: Step)
    ensures |st.rest| <= |inbox|
    ensures st.result.Ok? ==> |st.rest| < |inbox| && HasPrefix(st.result.value, cid + [InitType(cmd)])
    ensures st.result.Err? ==> !st.result.error.Apdu?
    decreases |inbox|
  {
    if inbox == [] then Step(Err(ReadFailed), [])
    else if !inbox[0].ok then Step(Err(ReadFailed), inbox[1..])
    else if HasPrefix(inbox[0].data, cid + [StatErr]) then Step(Err(ErrorHeader), inbox[1..])
    else if HasPrefix(inbox[0].data, cid + [InitType(cmd)]) then Step(Ok(inbox[0].data), inbox[1..])
    else AwaitInit(cid, cmd, inbox[1..])
  }

  /** The continuation loop of ReadResponseAsync: while `remaining` > 0, read a report,
      check its channel and sequence number, and append its next data bytes to `acc`. */
  function Collect(cid: seq<byte>, remaining: int, seqNo: nat, inbox: seq<Report>, acc: seq<byte>): (st: Step)
    ensures |st.rest| <= |inbox|
    ensures st.result.Ok? ==> |st.result.value| == |acc| + (if remaining < 0 then 0 else remaining)
    ensures st.result.Ok? ==> st.result.value[..|acc|] == acc
    ensures st.result.Err? ==> !st.result.error.Apdu?
    decreases |inbox|
  {
    if remaining <= 0 then Step(Ok(acc), inbox)
    else if inbox == [] then Step(Err(ReadFailed), [])
    else
      var r := inbox[0];
      if !r.ok then Step(Err(ReadFailed), inbox[1..])
      else if Take(r.data, 4) != cid then Step(Err(WrongCid), inbox[1..])
      else if |r.data| < 5 then Step(Err(ShortBuffer), inbox[1..])
      else if r.data[4] as int != seqNo % 128 then Step(Err(WrongSeq), inbox[1..])
      else
        var chunk := Take(Skip(r.data, 5), Min(remaining, ReportSize));
        Collect(cid, remaining - |chunk|, seqNo + 1, inbox[1..], acc + chunk)
  }

  /** One turn of the continuation loop on a report that passes both checks. */
  lemma CollectTurn(cid: seq<byte>, remaining: int, seqNo: nat, inbox: seq<Report>, acc: seq<byte>)
    requires remaining > 0 && inbox != [] && inbox[0].ok && Take(inbox[0].data, 4) == cid
    requires |inbox[0].data| >= 5 && inbox[0].data[4] as int == seqNo % 128
    ensures var chunk := Take(Skip(inbox[0].data, 5), Min(remaining, ReportSize));
      Collect(cid, remaining, seqNo, inbox, acc) == Collect(cid, remaining - |chunk|, seqNo + 1, inbox[1..], acc + chunk)
  {
  }

  /** The total length an INIT report declares, big-endian in bytes 5 and 6. */
  function DeclaredLength(d: seq<byte>): (n: nat)
    requires |d| >= 7
    ensures n < 65536
  {
    d[5] as int * 256 + d[6] as int
  }

  /** The rest of ReadResponseAsync once the INIT report `d` has been found: its declared
      length, its first data bytes, then the continuation loop over the reports after it. */
  function FromInit(cid: seq<byte>, d: seq<byte>, inbox: seq<Report>): (st: Step)
    ensures |st.rest| <= |inbox|
    ensures st.result.Err? ==> !st.result.error.Apdu?
  {
    if |d| < 7 then Step(Err(ShortBuffer), inbox)
    else
      var n := DeclaredLength(d);
      var chunk := Take(Skip(d, 7), Min(n, ReportSize));
      Collect(cid, n - |chunk|, 0, inbox, chunk)
  }

  /** ReadResponseAsync for command `cmd` on channel `cid`, over the reports `inbox`. */
  function ReadSpec(cid: seq<byte>, cmd: byte, inbox: seq<Report>): (st: Step)
    ensures |st.rest| <= |inbox|
    ensures st.result.Ok? ==> |st.rest| < |inbox|
    ensures st.result.Err? ==> !st.result.error.Apdu?
  {
    var first := AwaitInit(cid, cmd, inbox);
    if first.result.Err? then first
    else FromInit(cid, first.result.value, first.rest)
  }

  /** A successful read returns exactly as many bytes as the first matching report declares. */
  lemma ReadLength(cid: seq<byte>, cmd: byte, inbox: seq<Report>)
    requires ReadSpec(cid, cmd, inbox).result.Ok?
    ensures var d := AwaitInit(cid, cmd, inbox).result;
      && d.Ok? && |d.value| >= 7
      && |ReadSpec(cid, cmd, inbox).result.value| == DeclaredLength(d.value)
  {
  }

  /** Reports that read fine but start with neither cid | STAT_ERR nor cid | 0x80|cmd are skipped. */
  lemma {:induction false} StraysSkipped(cid: seq<byte>, cmd: byte, strays: seq<Report>, inbox: seq<Report>)
    requires forall r :: r in strays ==>
      r.ok && !HasPrefix(r.data, cid + [StatErr]) && !HasPrefix(r.data, cid + [InitType(cmd)])
    ensures AwaitInit(cid, cmd, strays + inbox) == AwaitInit(cid, cmd, inbox)
    decreases |strays|
  {
    if strays != [] {
      var all := strays + inbox;
      assert strays[0] in strays && all[0] == strays[0];
      assert all[1..] == strays[1..] + inbox;
      assert AwaitInit(cid, cmd, all) == AwaitInit(cid, cmd, all[1..]);
      StraysSkipped(cid, cmd, strays[1..], inbox);
    } else {
      assert strays + inbox == inbox;
    }
  }

  /** Reading fails at the first report whose header is cid | STAT_ERR, even after strays. */
  lemma {:induction false} ErrorHeaderFails(cid: seq<byte>, cmd: byte, strays: seq<Report>, data: seq<byte>, inbox: seq<Report>)
    requires forall r :: r in strays ==>
      r.ok && !HasPrefix(r.data, cid + [StatErr]) && !HasPrefix(r.data, cid + [InitType(cmd)])
    requires HasPrefix(data, cid + [StatErr])
    ensures ReadSpec(cid, cmd, strays + [Report(true, data)] + inbox) == Step(Err(ErrorHeader), inbox)
  {
    assert strays + [Report(true, data)] + inbox == strays + ([Report(true, data)] + inbox);
    StraysSkipped(cid, cmd, strays, [Report(true, data)] + inbox);
  }

  /** A continuation report on another channel fails the read with "Wrong CID"; one on the
      right channel with the wrong sequence number fails it with "Wrong SEQ". */
  lemma ContinuationChecked(cid: seq<byte>, remaining: int, seqNo: nat, r: Report, inbox: seq<Report>, acc: seq<byte>)
    requires remaining > 0 && r.ok && |r.data| >= 5
    ensures r.data[..4] != cid ==> Collect(cid, remaining, seqNo, [r] + inbox, acc) == Step(Err(WrongCid), inbox)
    ensures r.data[..4] == cid && r.data[4] as int != seqNo % 128 ==>
      Collect(cid, remaining, seqNo, [r] + inbox, acc) == Step(Err(WrongSeq), inbox)
  {
    assert ([r] + inbox)[1..] == inbox;
  }

  /** What the reader sees in a CONTINUATION report: the channel, the sequence number and,
      when `remaining` bytes are still due, exactly the chunk the packet carries. */
  lemma ContFrameFields(cid: seq<byte>, seqNo: nat, chunk: seq<byte>, remaining: int)
    requires |cid| == 4 && |chunk| <= ContCapacity
    requires remaining == |chunk| || (|chunk| == ContCapacity && remaining >= |chunk|)
    ensures var f := Serialize(ContPacket(cid, seqNo, chunk));
      && Take(f, 4) == cid && f[4] as int == seqNo % 128
      && Take(Skip(f, 5), Min(remaining, ReportSize)) == chunk
  {
    var f := Serialize(ContPacket(cid, seqNo, chunk));
    SerializeLayout(ContPacket(cid, seqNo, chunk));
    var head := cid + [(seqNo % 128) as byte] + chunk;
    assert f[..5 + |chunk|] == head;
    assert Take(f, 4) == head[..4];
    assert f[4] == head[4];
    assert Take(Skip(f, 5), Min(remaining, ReportSize)) == f[5..5 + |chunk|] == head[5..];
  }

  /** The reports a reader receives when every packet of `ps` arrives intact. */
  function Delivered(ps: seq<Packet>): (rs: seq<Report>)
    requires forall i :: 0 <= i < |ps| ==> Fits(ps[i])
    ensures |rs| == |ps|
  {
    seq(|ps|, i requires 0 <= i < |ps| => Report(true, Serialize(ps[i])))
  }

  lemma DeliveredCons(p: Packet, later: seq<Packet>, tail: seq<Report>)
    requires Fits(p) && forall i :: 0 <= i < |later| ==> Fits(later[i])
    ensures forall i :: 0 <= i < |[p] + later| ==> Fits(([p] + later)[i])
    ensures Delivered([p] + later) + tail == [Report(true, Serialize(p))] + (Delivered(later) + tail)
  {
    assert forall i :: 0 <= i < |[p] + later| ==> Fits(([p] + later)[i]) by {
      forall i | 0 <= i < |[p] + later| ensures Fits(([p] + later)[i]) {
        if i > 0 { assert ([p] + later)[i] == later[i - 1]; }
      }
    }
    var all := [p] + later;
    forall i | 1 <= i < |all| ensures Delivered(all)[i] == Delivered(later)[i - 1] {
      assert all[i] == later[i - 1];
    }
    assert Delivered(all) == [Report(true, Serialize(p))] + Delivered(later);
  }

  /** One turn of the continuation loop consumes the first CONTINUATION packet of `rest`
      and appends its chunk. */
  lemma CollectStep(cid: seq<byte>, seqNo: nat, rest: seq<byte>, acc: seq<byte>, tail: seq<Report>)
    requires |cid| == 4 && rest != []
    ensures var t := Skip(rest, ContCapacity);
      Collect(cid, |rest|, seqNo, Delivered(ContPackets(cid, seqNo, rest)) + tail, acc)
      == Collect(cid, |t|, seqNo + 1, Delivered(ContPackets(cid, seqNo + 1, t)) + tail, acc + Take(rest, ContCapacity))
  {
    var chunk := Take(rest, ContCapacity);
    var p := ContPacket(cid, seqNo, chunk);
    var later := ContPackets(cid, seqNo + 1, Skip(rest, ContCapacity));
    assert ContPackets(cid, seqNo, rest) == [p] + later;
    DeliveredCons(p, later, tail);
    var inbox := [Report(true, Serialize(p))] + (Delivered(later) + tail);
    assert inbox[0] == Report(true, Serialize(p)) && inbox[1..] == Delivered(later) + tail;
    ContFrameFields(cid, seqNo, chunk, |rest|);
  }

  /** The continuation loop reads back the CONTINUATION packets of `rest`, in order, and
      appends exactly `rest` to what it has. */
  lemma {:induction false} CollectRoundTrip(cid: seq<byte>, seqNo: nat, rest: seq<byte>, acc: seq<byte>, tail: seq<Report>)
    requires |cid| == 4
    ensures Collect(cid, |rest|, seqNo, Delivered(ContPackets(cid, seqNo, rest)) + tail, acc) == Step(Ok(acc + rest), tail)
    decreases |rest|
  {
    if rest == [] {
      assert Delivered(ContPackets(cid, seqNo, rest)) + tail == tail && acc + rest == acc;
    } else {
      var c, t := Take(rest, ContCapacity), Skip(rest, ContCapacity);
      TakeSkip(rest, ContCapacity);
      assert acc + c + t == acc + rest;
      CollectStep(cid, seqNo, rest, acc, tail);
      CollectRoundTrip(cid, seqNo + 1, t, acc + c, tail);
    }
  }

  /** What the reader sees in the INIT report of a message shorter than 65536 bytes:
      the header cid | 0x80|cmd, the length n in bytes 5-6 and the first min(n, 57) data bytes. */
  lemma InitFrameFields(cid: seq<byte>, cmd: byte, data: seq<byte>)
    requires |cid| == 4 && |data| < 65536
    ensures var f := Serialize(InitPacket(cid, cmd, |data|, Take(data, InitCapacity)));
      && Take(f, 5) == cid + [InitType(cmd)]
      && DeclaredLength(f) == |data|
      && Take(Skip(f, 7), Min(|data|, ReportSize)) == Take(data, InitCapacity)
  {
    var p := InitPacket(cid, cmd, |data|, Take(data, InitCapacity));
    var f := Serialize(p);
    SerializeLayout(p);
    var k := Min(|data|, InitCapacity);
    var head := cid + [InitType(cmd), LengthHigh(|data|), LengthLow(|data|)] + data[..k];
    assert Header(p) + p.payload == head;
    assert f[..7 + k] == head;
    assert Take(f, 5) == head[..5];
    assert f[5] == head[5] && f[6] == head[6];
    assert Take(Skip(f, 7), Min(|data|, ReportSize)) == f[7..7 + k] == head[7..];
  }

  /** A report that reads fine and starts with cid | 0x80|cmd (and not cid | STAT_ERR) is
      taken as the INIT report at once, and the reader goes on with the reports after it. */
  lemma ReadAccepts(cid: seq<byte>, cmd: byte, d: seq<byte>, more: seq<Report>)
    requires HasPrefix(d, cid + [InitType(cmd)]) && !HasPrefix(d, cid + [StatErr]) && |d| >= 7
    ensures var n := DeclaredLength(d);
      var chunk := Take(Skip(d, 7), Min(n, ReportSize));
      ReadSpec(cid, cmd, [Report(true, d)] + more) == Collect(cid, n - |chunk|, 0, more, chunk)
  {
    var inbox := [Report(true, d)] + more;
    assert inbox[0] == Report(true, d) && inbox[1..] == more;
    assert AwaitInit(cid, cmd, inbox) == Step(Ok(d), more);
  }

  /** The reader accepts the INIT report of a message and then collects the rest of the
      message from the reports after it. */
  lemma ReadInitFrame(cid: seq<byte>, cmd: byte, data: seq<byte>, more: seq<Report>)
    requires |cid| == 4 && |data| < 65536 && InitType(cmd) != StatErr
    ensures ReadSpec(cid, cmd, [Report(true, Serialize(InitPacket(cid, cmd, |data|, Take(data, InitCapacity))))] + more)
         == Collect(cid, |Skip(data, InitCapacity)|, 0, more, Take(data, InitCapacity))
  {
    var f := Serialize(InitPacket(cid, cmd, |data|, Take(data, InitCapacity)));
    InitFrameFields(cid, cmd, data);
    assert !HasPrefix(f, cid + [StatErr]) by { assert Take(f, 5)[4] == InitType(cmd); }
    ReadAccepts(cid, cmd, f, more);
  }

  /** Reading back the reports written for (cmd, data) on the same channel returns data,
      as long as the length fits the 16-bit field and the command's header is not STAT_ERR. */
  lemma FramesRoundTrip(cid: seq<byte>, cmd: byte, data: seq<byte>, tail: seq<Report>)
    requires |cid| == 4 && |data| < 65536 && InitType(cmd) != StatErr
    ensures ReadSpec(cid, cmd, Delivered(Packets(cid, cmd, data)) + tail) == Step(Ok(data), tail)
  {
    var rest := Skip(data, InitCapacity);
    var first := InitPacket(cid, cmd, |data|, Take(data, InitCapacity));
    var later := ContPackets(cid, 0, rest);
    DeliveredCons(first, later, tail);
    ReadInitFrame(cid, cmd, data, Delivered(later) + tail);
    CollectRoundTrip(cid, 0, rest, Take(data, InitCapacity), tail);
    TakeSkip(data, InitCapacity);
  }
}
