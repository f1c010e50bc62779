/**
 * The extraction step (src/extract_packets.py): every captured packet that
 * carries an IP layer is turned into a validated record, which is appended as
 * one entry to the record log. `read_pcap` is modelled for one worker, where
 * the packets are handled one after another in capture order.
 */
module ExtractPackets {
  import opened Wrappers
  import opened PacketModel
  import Hex

  /** The IP-layer attributes a dissector exposes; `dsfield` is its hexadecimal text. */
  datatype IpLayer = IpLayer(
    dsfieldDscp: int, hdrLen: int, dsfield: string, dsfieldEcn: int, len: int, proto: int,
    flagsDf: int, flagsMf: int, flagsRb: int, fragOffset: int, ttl: int,
    src: string, dst: string)

  /** A UDP or TCP layer: its two ports. */
  datatype PortLayer = PortLayer(srcport: int, dstport: int)

  /** A decoded packet with its optional layers and its capture time. */
  datatype CapturedPacket = CapturedPacket(
    ip: Option<IpLayer>, udp: Option<PortLayer>, tcp: Option<PortLayer>, sniffTimestamp: real)

  /** The ports of a record: UDP's if there is a UDP layer, else TCP's, else -1 for both. */
  function SelectPorts(p: CapturedPacket): (ports: (int, int))
    ensures p.udp.Some? ==> ports == (p.udp.value.srcport, p.udp.value.dstport)
    ensures p.udp.None? && p.tcp.Some? ==> ports == (p.tcp.value.srcport, p.tcp.value.dstport)
    ensures p.udp.None? && p.tcp.None? ==> ports == (-1, -1)
  {
    match (p.udp, p.tcp)
    case (Some(u), _) => (u.srcport, u.dstport)
    case (None, Some(t)) => (t.srcport, t.dstport)
    case (None, None) => (-1, -1)
  }

  /** The arguments `read_packet` passes to the record constructor for a packet with IP layer `ip`. */
  function ArgsFor(p: CapturedPacket, ip: IpLayer): PacketArgs {
    var ports := SelectPorts(p);
    PacketArgs(ip.dsfieldDscp, ip.hdrLen, ip.dsfield, ip.dsfieldEcn, ip.len, ip.proto,
               ip.flagsDf, ip.flagsMf, ip.flagsRb, ip.fragOffset, ip.ttl,
               ip.src, ip.dst, ports.0, ports.1, p.sniffTimestamp)
  }

  /**
   * `rec` holds the packet's IP attributes unchanged (with `dsfield` parsed),
   * its selected ports and its timestamp.
   */
  predicate CopiedFrom(rec: Packet, p: CapturedPacket) {
    && p.ip.Some?
    && var ip := p.ip.value;
    && Hex.ParseInt16(ip.dsfield) == Some(rec.dsfield)
    && rec.dsfieldDscp == ip.dsfieldDscp && rec.hdrLen == ip.hdrLen && rec.dsfieldEcn == ip.dsfieldEcn
    && rec.len == ip.len && rec.proto == ip.proto && rec.flagsDf == ip.flagsDf
    && rec.flagsMf == ip.flagsMf && rec.flagsRb == ip.flagsRb && rec.fragOffset == ip.fragOffset
    && rec.ttl == ip.ttl && rec.src == ip.src && rec.dst == ip.dst
    && (rec.srcport, rec.dstport) == SelectPorts(p)
    && rec.sniffTimestamp == p.sniffTimestamp
  }

  /**
   * What `read_packet` makes of one packet: nothing for a packet without an IP
   * layer, the validated record for one with it, or the constructor's failure.
   */
  function ExtractRecord(p: CapturedPacket): (r: Result<Option<Packet>, ValidationError>)
    ensures p.ip.None? ==> r == Ok(None)
    ensures p.ip.Some? ==> (r.Ok? <==> p.ip.value.flagsRb == 0 && Hex.ParseInt16(p.ip.value.dsfield).Some?)
    ensures p.ip.Some? && r.Ok? ==> r.value.Some?
    ensures r.Ok? && r.value.Some? ==> CopiedFrom(r.value.value, p) && r.value.value.flagsRb == 0
    ensures p.ip.Some? && p.ip.value.flagsRb != 0 ==> r == Err(ReservedFlagSet(p.ip.value.flagsRb))
    ensures p.ip.Some? && p.ip.value.flagsRb == 0 && Hex.ParseInt16(p.ip.value.dsfield).None? ==>
      r == Err(DsfieldNotHex(p.ip.value.dsfield))
  {
    match p.ip
    case None => Ok(None)
    case Some(ip) =>
      match NewPacket(ArgsFor(p, ip))
      case Ok(rec) => Ok(Some(rec))
      case Err(e) => Err(e)
  }

  /** The entries a successful `read_packet` appends: the record, if there is one. */
  function Appended(r: Result<Option<Packet>, ValidationError>): seq<Packet> {
    if r.Ok? && r.value.Some? then [r.value.value] else []
  }

  /** The JSON-lines file the records are appended to, as the sequence of its entries. */
  class RecordLog {
    var entries: seq<Packet>

    /** Opens a log that already holds `existing` (empty when the caller removed the old file). */
    constructor (existing: seq<Packet>)
      ensures entries == existing
    {
      entries := existing;
    }

    /** Appends one record as one entry at the end; the earlier entries are untouched. */
    method Write(rec: Packet)
      modifies this
      ensures entries == old(entries) + [rec]
    {
      entries := entries + [rec];
    }
  }

  /**
   * `read_packet(packet, path)`: a packet without an IP layer leaves the log
   * as it is; otherwise the record is built and, if construction succeeds,
   * appended. A failed construction raises before the append is reached.
   */
  method ReadPacket(packet: CapturedPacket, log: RecordLog) returns (outcome: Result<(), ValidationError>)
    modifies log
    ensures packet.ip.None? ==> outcome.Ok? && log.entries == old(log.entries)
    ensures outcome.Err? <==> ExtractRecord(packet).Err?
    ensures outcome.Err? ==> ExtractRecord(packet) == Err(outcome.error)
    ensures log.entries == old(log.entries) + Appended(ExtractRecord(packet))
  {
    if packet.ip.Some? {
      var built := NewPacket(ArgsFor(packet, packet.ip.value));
      if built.Err? {
        return Err(built.error);
      }
      log.Write(built.value);
    }
    return Ok(());
  }

  /** What a one-worker run over a capture appends, and the failure that stopped it, if any. */
  datatype Run = Run(appended: seq<Packet>, failure: Option<ValidationError>)

  /**
   * The sequential run over `capture`: packets are handled in order and the
   * first failed construction ends the run, keeping what was appended before it.
   */
  function Sequential(capture: seq<CapturedPacket>): (run: Run)
    ensures |run.appended| <= |capture|
  {
    if capture == [] then Run([], None)
    else
      var prev := Sequential(capture[..|capture| - 1]);
      if prev.failure.Some? then prev
      else
        match ExtractRecord(capture[|capture| - 1])
        case Err(e) => Run(prev.appended, Some(e))
        case Ok(None) => prev
        case Ok(Some(rec)) => Run(prev.appended + [rec], None)
  }

  /** Once a prefix of the capture has failed, the rest of the capture changes nothing. */
  lemma {:induction false} FailureIsFinal(capture: seq<CapturedPacket>, k: nat)
    requires k <= |capture| && Sequential(capture[..k]).failure.Some?
    ensures Sequential(capture) == Sequential(capture[..k])
  {
    if k < |capture| {
      var front := capture[..|capture| - 1];
      assert front[..k] == capture[..k];
      FailureIsFinal(front, k);
    } else {
      assert capture[..k] == capture;
    }
  }

  /**
   * `read_pcap(path, save_to, n_jobs=1)`: `read_packet` on every packet of the
   * capture in order. A failure propagates out and ends the run; what was
   * appended before it stays in the log.
   */
  method ReadPcap(capture: seq<CapturedPacket>, log: RecordLog) returns (outcome: Result<(), ValidationError>)
    modifies log
    ensures log.entries == old(log.entries) + Sequential(capture).appended
    ensures outcome.Err? <==> Sequential(capture).failure.Some?
    ensures outcome.Err? ==> Sequential(capture).failure == Some(outcome.error)
  {
    var i := 0;
    while i < |capture|
      invariant 0 <= i <= |capture|
      invariant Sequential(capture[..i]).failure.None?
      invariant log.entries == old(log.entries) + Sequential(capture[..i]).appended
    {
      var r := ReadPacket(capture[i], log);
      assert capture[..i + 1][..i] == capture[..i];
      if r.Err? {
        FailureIsFinal(capture, i + 1);
        return Err(r.error);
      }
      i := i + 1;
    }
    assert capture[..i] == capture;
    return Ok(());
  }

  /** The packets of the capture that carry an IP layer, in capture order. */
  function IpBearing(capture: seq<CapturedPacket>): seq<CapturedPacket> {
    if capture == [] then []
    else (if capture[0].ip.Some? then [capture[0]] else []) + IpBearing(capture[1..])
  }

  lemma {:induction false} IpBearingSnoc(capture: seq<CapturedPacket>, p: CapturedPacket)
    ensures IpBearing(capture + [p]) == IpBearing(capture) + (if p.ip.Some? then [p] else [])
  {
    if capture != [] {
      assert (capture + [p])[1..] == capture[1..] + [p];
      IpBearingSnoc(capture[1..], p);
    }
  }

  lemma {:induction false} IpBearingBound(capture: seq<CapturedPacket>)
    ensures |IpBearing(capture)| <= |capture|
    ensures forall q :: q in IpBearing(capture) ==> q in capture && q.ip.Some?
  {
    if capture != [] {
      IpBearingBound(capture[1..]);
    }
  }

  /** A run fails exactly when some packet of the capture fails construction. */
  lemma {:induction false} SequentialSucceedsIffAllValid(capture: seq<CapturedPacket>)
    ensures Sequential(capture).failure.None? <==> forall i :: 0 <= i < |capture| ==> ExtractRecord(capture[i]).Ok?
  {
    if capture != [] {
      var front := capture[..|capture| - 1];
      SequentialSucceedsIffAllValid(front);
      assert forall i :: 0 <= i < |front| ==> front[i] == capture[i];
    }
  }

  /**
   * When no construction fails, the run appends exactly one record per
   * IP-bearing packet, in capture order, and no other.
   */
  lemma {:induction false} SequentialRecordsInOrder(capture: seq<CapturedPacket>)
    requires Sequential(capture).failure.None?
    ensures var run := Sequential(capture);
      && |run.appended| == |IpBearing(capture)|
      && forall j :: 0 <= j < |run.appended| ==> ExtractRecord(IpBearing(capture)[j]) == Ok(Some(run.appended[j]))
  {
    if capture != [] {
      var front := capture[..|capture| - 1];
      var last := capture[|capture| - 1];
      assert front + [last] == capture;
      IpBearingSnoc(front, last);
      var prev := Sequential(front);
      assert prev.failure.None?;
      SequentialRecordsInOrder(front);
      var ips := IpBearing(front);
      var run := Sequential(capture);
      match ExtractRecord(last)
      case Ok(None) =>
        assert last.ip.None?;
        assert IpBearing(capture) == ips;
        assert run == prev;
      case Ok(Some(rec)) =>
        assert IpBearing(capture) == ips + [last];
        assert run.appended == prev.appended + [rec];
        forall j | 0 <= j < |run.appended|
          ensures ExtractRecord(IpBearing(capture)[j]) == Ok(Some(run.appended[j]))
        {
          if j < |prev.appended| {
            assert IpBearing(capture)[j] == ips[j];
            assert run.appended[j] == prev.appended[j];
          }
        }
    }
  }

  /**
   * A failed run stopped at its first failing packet `k`: every packet before
   * it was handled, and the log holds what they appended.
   */
  lemma SequentialStopsAtFirstFailure(capture: seq<CapturedPacket>)
    requires Sequential(capture).failure.Some?
    ensures exists k :: StoppedAt(capture, k)
  {
    var k := FirstFailure(capture);
    PrefixSucceeds(capture, k);
    assert StoppedAt(capture, k);
  }

  /**
   * The run over `capture` failed at packet `k` with that packet's error,
   * every packet before it succeeded, and the log holds what they appended.
   */
  predicate StoppedAt(capture: seq<CapturedPacket>, k: nat) {
    && k < |capture|
    && ExtractRecord(capture[k]).Err?
    && Sequential(capture).failure == Some(ExtractRecord(capture[k]).error)
    && (forall i :: 0 <= i < k ==> ExtractRecord(capture[i]).Ok?)
    && Sequential(capture).appended == Sequential(capture[..k]).appended
  }

  /** The packets before `k` all succeed when the run over them does. */
  lemma PrefixSucceeds(capture: seq<CapturedPacket>, k: nat)
    requires k <= |capture| && Sequential(capture[..k]).failure.None?
    ensures forall i :: 0 <= i < k ==> ExtractRecord(capture[i]).Ok?
  {
    var before := capture[..k];
    SequentialSucceedsIffAllValid(before);
    forall i | 0 <= i < k ensures ExtractRecord(capture[i]).Ok? {
      assert before[i] == capture[i];
    }
  }

  /** The index of the packet that stopped a failed run. */
  function FirstFailure(capture: seq<CapturedPacket>): (k: nat)
    requires Sequential(capture).failure.Some?
    ensures k < |capture|
    ensures Sequential(capture[..k]).failure.None?
    ensures ExtractRecord(capture[k]) == Err(Sequential(capture).failure.value)
    ensures Sequential(capture).appended == Sequential(capture[..k]).appended
  {
    var front := capture[..|capture| - 1];
    if Sequential(front).failure.Some? then
      var k := FirstFailure(front);
      assert front[..k] == capture[..k];
      k
    else
      assert capture[..|capture| - 1] == front;
      |capture| - 1
  }

  /** Every record a run appends came from a packet of the capture and has its reserved flag clear. */
  lemma {:induction false} SequentialRecordsValid(capture: seq<CapturedPacket>)
    ensures |Sequential(capture).appended| <= |IpBearing(capture)| <= |capture|
    ensures forall rec :: rec in Sequential(capture).appended ==>
      rec.flagsRb == 0 && exists i :: 0 <= i < |capture| && CopiedFrom(rec, capture[i])
  {
    IpBearingBound(capture);
    if capture != [] {
      var front := capture[..|capture| - 1];
      var last := capture[|capture| - 1];
      assert front + [last] == capture;
      IpBearingSnoc(front, last);
      SequentialRecordsValid(front);
      forall rec | rec in Sequential(front).appended
        ensures exists i :: 0 <= i < |capture| && CopiedFrom(rec, capture[i])
      {
        var i :| 0 <= i < |front| && CopiedFrom(rec, front[i]);
        assert capture[i] == front[i];
      }
    }
  }
}
