/** The HID transport the driver talks through (HidLibrary's IHidDevice), as a scripted
    port: every report written is logged, each write succeeds or fails as the script says,
    and each read returns the next scripted report. A script that has run out stands for
    a write that fails and a read that times out. */
module HidTransport {
  import opened Bytes
  import opened Outcomes
  import opened HidFrames

  /** The observable state of a port: what has been written so far, the outcome of each
      write still to come, and the reports still to be read. */
  datatype PortState = PortState(written: seq<seq<byte>>, accept: seq<bool>, inbox: seq<Report>)

  /** The result of an operation on the port together with the port's state after it. */
  datatype Outcome<T> = Outcome(result: Result<T>, port: PortState)

  /** Whether the next write is accepted. */
  function WriteOk(st: PortState): bool
  {
    |st.accept| > 0 && st.accept[0]
  }

  /** The state after writing `frame`: it is logged whether or not it was accepted. */
  function Wrote(st: PortState, frame: seq<byte>): (st': PortState)
    ensures st'.written == st.written + [frame] && st'.inbox == st.inbox
    ensures st'.accept == Skip(st.accept, 1)
  {
    PortState(st.written + [frame], Skip(st.accept, 1), st.inbox)
  }

  /** The report the next read returns: a failed read once the script has run out. */
  function NextReport(st: PortState): (r: Report)
    ensures st.inbox == [] ==> !r.ok
  {
    if st.inbox == [] then Report(false, []) else st.inbox[0]
  }

  /** The state after one read. */
  function Consumed(st: PortState): (st': PortState)
    ensures st'.written == st.written && st'.accept == st.accept
    ensures st'.inbox == Skip(st.inbox, 1)
  {
    st.(inbox := Skip(st.inbox, 1))
  }

  class HidPort {
    var connected: bool
    var written: seq<seq<byte>>
    var accept: seq<bool>
    var inbox: seq<Report>

    constructor (connected: bool, accept: seq<bool>, inbox: seq<Report>)
      ensures this.connected == connected
      ensures State() == PortState([], accept, inbox)
    {
      this.connected := connected;
      written := [];
      this.accept := accept;
      this.inbox := inbox;
    }

    function State(): PortState
      reads this
    {
      PortState(written, accept, inbox)
    }

    /** WriteReportAsync: logs the frame and reports whether the write went through. */
    method WriteReport(frame: seq<byte>) returns (ok: bool)
      modifies this
      ensures ok == WriteOk(old(State()))
      ensures State() == Wrote(old(State()), frame) && connected == old(connected)
    {
      ok := |accept| > 0 && accept[0];
      written := written + [frame];
      accept := Skip(accept, 1);
    }

    /** ReadReportAsync: the next scripted report, or a failed read when there is none. */
    method ReadReport() returns (r: Report)
      modifies this
      ensures r == NextReport(old(State()))
      ensures State() == Consumed(old(State())) && connected == old(connected)
    {
      if inbox == [] {
        r := Report(false, []);
      } else {
        r := inbox[0];
        inbox := inbox[1..];
      }
    }
  }
}
