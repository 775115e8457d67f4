/** The AXI4-to-RAM bridge of axi2ram.sv: its two state machines and its handshake registers. */
module Axi2Ram {

  import opened Words

  datatype WriteState = WrIdle | WrBurst | WrResp
  datatype ReadState = RdIdle | RdBurst

  /** What the master drives. Transaction IDs and write burst fields do not matter to the bridge. */
  datatype Master = Master(
    awaddr: nat, awvalid: bool,
    wdata: Word, wstrb: seq<bool>, wlast: bool, wvalid: bool,
    bready: bool,
    araddr: nat, arlen: nat, arsize: nat, arburst: nat, arvalid: bool,
    rready: bool)

  /** What the bridge drives on the RAM side. */
  datatype RamPins = RamPins(addr: nat, wdata: Word, be: seq<bool>, wren: bool, rden: bool)

  /** The registers of the write channels. */
  datatype WriteRegs = WriteRegs(state: WriteState, awaddr: nat, awready: bool, wready: bool, bvalid: bool)

  /** The registers of the read channels; arlen has 8 bits. */
  datatype ReadRegs = ReadRegs(state: ReadState, araddr: nat, arlen: nat, arsize: nat, arburst: nat,
                               arready: bool, rlast: bool, rvalid: bool)

  /** 1 << arsize */
  function BeatBytes(size: nat): (b: nat) {
    if size == 0 then 1 else 2 * BeatBytes(size - 1)
  }

  lemma BeatSizes()
    ensures BeatBytes(0) == 1 && BeatBytes(1) == 2 && BeatBytes(2) == 4 && BeatBytes(3) == 8
  {}

  /** The write channels after an edge, state by state. */
  function WriteNext(w: WriteRegs, m: Master): WriteRegs {
    match w.state
    case WrIdle => WriteRegs(if m.awvalid then WrBurst else WrIdle, if m.awvalid then m.awaddr else w.awaddr,
                             w.awready || m.awvalid, w.wready, false)
    case WrBurst => WriteRegs(if m.wlast && m.wvalid then WrResp else WrBurst, w.awaddr, false, m.wvalid, w.bvalid)
    case WrResp => WriteRegs(if m.bready then WrIdle else WrResp, w.awaddr, w.awready, false, true)
  }

  /** The read channels after an edge, state by state. */
  function ReadNext(range: nat, r: ReadRegs, m: Master): ReadRegs
    requires range > 0
  {
    match r.state
    case RdIdle =>
      if m.arvalid then ReadRegs(RdBurst, m.araddr, m.arlen, m.arsize, m.arburst, true, false, false)
      else r.(rlast := false, rvalid := false)
    case RdBurst =>
      var state := if r.rlast then RdIdle else RdBurst;
      if !m.rready then r.(state := state, arready := false, rvalid := false)
      else ReadRegs(state, if r.arburst == 0 then r.araddr else (r.araddr + BeatBytes(r.arsize)) % range,
                    if r.arlen == 0 then 255 else r.arlen - 1, r.arsize, r.arburst,
                    false, r.rlast || r.arlen == 0, true)
  }

  class Bridge {
    const range: nat                 // number of byte addresses
    var w: WriteRegs
    var r: ReadRegs

    constructor (range: nat)
      requires range > 0
      ensures this.range == range && Idle()
    {
      this.range := range;
      w := WriteRegs(WrIdle, 0, false, false, false);
      r := ReadRegs(RdIdle, 0, 0, 0, 0, false, false, false);
    }

    /** No transaction in progress. A response may still be shown for one more edge. */
    predicate Idle()
      reads this
    {
      && w.state.WrIdle? && !w.awready && !w.wready
      && r.state.RdIdle? && !r.arready
    }

    function RamSide(m: Master): (p: RamPins)
      reads this
    {
      RamPins(if w.state.WrBurst? then w.awaddr else if r.state.RdBurst? then r.araddr else 0,
              m.wdata, m.wstrb,
              w.state.WrBurst? && m.wvalid,
              r.state.RdBurst? && m.rready && !r.rvalid)
    }

    /** A rising edge of the AXI clock. */
    method Edge(m: Master)
      requires range > 0
      modifies this
      ensures w == WriteNext(old(w), m) && r == ReadNext(range, old(r), m)
    {
      WriteEdge(m);
      ReadEdge(m);
    }

    /** axi_write_fsm and axi_write_ctrl */
    method WriteEdge(m: Master)
      modifies this`w
      ensures w == WriteNext(old(w), m)
    {
      match w.state {
        case WrIdle =>
          w := w.(bvalid := false);
          if m.awvalid {
            w := w.(awaddr := m.awaddr, awready := true, state := WrBurst);
          }
        case WrBurst =>
          w := w.(awready := false, wready := m.wvalid);
          if m.wlast && m.wvalid {
            w := w.(state := WrResp);
          }
        case WrResp =>
          w := w.(wready := false, bvalid := true);
          if m.bready {
            w := w.(state := WrIdle);
          }
      }
    }

    /** axi_read_fsm and axi_read_ctrl */
    method ReadEdge(m: Master)
      requires range > 0
      modifies this`r
      ensures r == ReadNext(range, old(r), m)
    {
      hide BeatBytes;
      var last, len := r.rlast, r.arlen;
      match r.state {
        case RdIdle =>
          r := r.(rlast := false, rvalid := false);
          if m.arvalid {
            r := r.(araddr := m.araddr, arlen := m.arlen, arsize := m.arsize, arburst := m.arburst,
                    arready := true, state := RdBurst);
          }
        case RdBurst =>
          r := r.(arready := false, rvalid := m.rready);
          if m.rready {
            r := r.(arlen := if len == 0 then 255 else len - 1);
            if r.arburst != 0 {
              r := r.(araddr := (r.araddr + BeatBytes(r.arsize)) % range);
            }
            if len == 0 {
              r := r.(rlast := true);
            }
          }
          if last {
            r := r.(state := RdIdle);
          }
      }
    }
  }

  // ---------------------------------------------------------------------------
  // Handshakes, for every behaviour of the master
  // ---------------------------------------------------------------------------

  function WriteRun(w: WriteRegs, ms: seq<Master>): WriteRegs
    decreases |ms|
  {
    if ms == [] then w else WriteRun(WriteNext(w, ms[0]), ms[1..])
  }

  function ReadRun(range: nat, r: ReadRegs, ms: seq<Master>): ReadRegs
    requires range > 0
    decreases |ms|
  {
    if ms == [] then r else ReadRun(range, ReadNext(range, r, ms[0]), ms[1..])
  }

  /** Each handshake line of the write channels is up only in its own phase, and no two are up together. */
  predicate WriteInPhase(w: WriteRegs) {
    && (w.awready ==> w.state.WrBurst? && !w.wready && !w.bvalid)
    && (w.wready ==> !w.state.WrIdle? && !w.bvalid)
    && (w.bvalid ==> !w.state.WrBurst?)
  }

  /** The address line of the read channels is up only when no data is. */
  predicate ReadInPhase(r: ReadRegs) {
    r.arready ==> r.state.RdBurst? && !r.rvalid && !r.rlast
  }

  lemma {:induction false} Handshakes(range: nat, w: WriteRegs, r: ReadRegs, ms: seq<Master>)
    requires range > 0 && WriteInPhase(w) && ReadInPhase(r)
    ensures WriteInPhase(WriteRun(w, ms)) && ReadInPhase(ReadRun(range, r, ms))
    decreases |ms|
  {
    hide BeatBytes;
    if ms != [] {
      Handshakes(range, WriteNext(w, ms[0]), ReadNext(range, r, ms[0]), ms[1..]);
    }
  }

  /**
   A response that waits for k edges: BVALID is up from the first edge on, the bridge is idle as
   soon as BREADY is accepted, and BVALID is up for one cycle more and then down.
   */
  lemma {:induction false} LateResponse(w: WriteRegs, ms: seq<Master>, k: nat)
    requires w.state.WrResp? && k + 2 <= |ms| && ms[k].bready && forall i :: 0 <= i < k ==> !ms[i].bready
    ensures forall i :: 1 <= i <= k ==> WriteRun(w, ms[..i]).state.WrResp? && WriteRun(w, ms[..i]).bvalid
    ensures WriteRun(w, ms[..k + 1]).state.WrIdle? && WriteRun(w, ms[..k + 1]).bvalid
    ensures !WriteRun(w, ms[..k + 2]).bvalid
    decreases k
  {
    var next, rest := WriteNext(w, ms[0]), ms[1..];
    forall i | 1 <= i <= |ms| ensures WriteRun(w, ms[..i]) == WriteRun(next, rest[..i - 1]) {
      assert ms[..i][1..] == rest[..i - 1];
    }
    if k > 0 {
      LateResponse(next, rest, k - 1);
    } else {
      assert rest[..1][1..] == [];
      assert WriteRun(next, rest[..1]) == WriteRun(WriteNext(next, rest[0]), []);
    }
  }
}
