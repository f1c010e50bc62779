/**
 * The validated per-packet record (src/model.py) and its two validators.
 *
 * Constructing the record either yields a `Packet` or fails. `dsfield`
 * arrives as a hexadecimal string and is stored as its integer value; the
 * reserved IP flag `flags_rb` must be zero (section 3.1 of RFC 791); every
 * other field is stored as given.
 */
module PacketModel {
  import opened Wrappers
  import Hex

  /**
   * A record of the log. The fields are, in order, the record's
   * `dsfield_dscp`, `hdr_len`, `dsfield`, `dsfield_ecn`, `len`, `proto`,
   * `flags_df`, `flags_mf`, `flags_rb`, `frag_offset`, `ttl`, `src`, `dst`,
   * `srcport`, `dstport` and `sniff_timestamp`.
   */
  datatype Packet = Packet(
    dsfieldDscp: int, hdrLen: int, dsfield: int, dsfieldEcn: int, len: int, proto: int,
    flagsDf: int, flagsMf: int, flagsRb: int, fragOffset: int, ttl: int,
    src: string, dst: string, srcport: int, dstport: int, sniffTimestamp: real)

  /** The keyword arguments of a record construction, before validation: `dsfield` is still text. */
  datatype PacketArgs = PacketArgs(
    dsfieldDscp: int, hdrLen: int, dsfield: string, dsfieldEcn: int, len: int, proto: int,
    flagsDf: int, flagsMf: int, flagsRb: int, fragOffset: int, ttl: int,
    src: string, dst: string, srcport: int, dstport: int, sniffTimestamp: real)

  /** Why a construction failed. */
  datatype ValidationError =
    | ReservedFlagSet(flagsRb: int)   // the flags_rb validator raised
    | DsfieldNotHex(dsfield: string)  // `int(v, 16)` raised ValueError

  /** The `flags_rb` validator: a non-zero value is rejected, zero is returned unchanged. */
  function FlagsRbMustBeZero(v: int): (r: Result<int, ValidationError>)
    ensures r.Ok? <==> v == 0
    ensures r.Ok? ==> r.value == v
    ensures r.Err? ==> r.error == ReservedFlagSet(v)
  {
    if v != 0 then Err(ReservedFlagSet(v)) else Ok(v)
  }

  /** The `dsfield` pre-validator: the base-16 value of the text, or a rejection. */
  function SetDsfieldInt16(v: string): (r: Result<int, ValidationError>)
    ensures r.Ok? <==> Hex.ParseInt16(v).Some?
    ensures r.Ok? ==> Hex.ParseInt16(v) == Some(r.value)
    ensures r.Err? ==> r.error == DsfieldNotHex(v)
  {
    match Hex.ParseInt16(v)
    case Some(n) => Ok(n)
    case None => Err(DsfieldNotHex(v))
  }

  /** `p` is the record the arguments `a` describe: `dsfield` parsed, everything else the same. */
  predicate BuiltFrom(p: Packet, a: PacketArgs) {
    && Hex.ParseInt16(a.dsfield) == Some(p.dsfield)
    && p.dsfieldDscp == a.dsfieldDscp && p.hdrLen == a.hdrLen && p.dsfieldEcn == a.dsfieldEcn
    && p.len == a.len && p.proto == a.proto && p.flagsDf == a.flagsDf && p.flagsMf == a.flagsMf
    && p.flagsRb == a.flagsRb && p.fragOffset == a.fragOffset && p.ttl == a.ttl
    && p.src == a.src && p.dst == a.dst && p.srcport == a.srcport && p.dstport == a.dstport
    && p.sniffTimestamp == a.sniffTimestamp
  }

  /**
   * `Packet(**a)`. The field validators run in declaration order, so `dsfield`
   * is checked before `flags_rb`; a `dsfield` failure is collected, but the
   * `flags_rb` validator's exception escapes construction at once, so when both
   * fail it is the `flags_rb` failure that is reported.
   */
  function NewPacket(a: PacketArgs): (r: Result<Packet, ValidationError>)
    ensures r.Ok? <==> a.flagsRb == 0 && Hex.ParseInt16(a.dsfield).Some?
    ensures r.Ok? ==> r.value.flagsRb == 0 && BuiltFrom(r.value, a)
    ensures a.flagsRb != 0 ==> r == Err(ReservedFlagSet(a.flagsRb))
    ensures a.flagsRb == 0 && Hex.ParseInt16(a.dsfield).None? ==> r == Err(DsfieldNotHex(a.dsfield))
  {
    var dsfield := SetDsfieldInt16(a.dsfield);
    var flagsRb := FlagsRbMustBeZero(a.flagsRb);
    if flagsRb.Err? then Err(flagsRb.error)
    else if dsfield.Err? then Err(dsfield.error)
    else Ok(Packet(a.dsfieldDscp, a.hdrLen, dsfield.value, a.dsfieldEcn, a.len, a.proto,
                   a.flagsDf, a.flagsMf, flagsRb.value, a.fragOffset, a.ttl,
                   a.src, a.dst, a.srcport, a.dstport, a.sniffTimestamp))
  }

  /** Constructor arguments that describe `p`, with `dsfield` written as Python's `hex()` writes it. */
  function ArgsOf(p: Packet): PacketArgs {
    PacketArgs(p.dsfieldDscp, p.hdrLen, Hex.PyHex(p.dsfield), p.dsfieldEcn, p.len, p.proto,
               p.flagsDf, p.flagsMf, p.flagsRb, p.fragOffset, p.ttl,
               p.src, p.dst, p.srcport, p.dstport, p.sniffTimestamp)
  }

  /**
   * Every record whose reserved flag is clear can be rebuilt from its own
   * rendering: the constructor loses nothing but the spelling of `dsfield`.
   */
  lemma RebuildRecord(p: Packet)
    requires p.flagsRb == 0
    ensures NewPacket(ArgsOf(p)) == Ok(p)
  {
    Hex.ParseOfPyHex(p.dsfield);
  }
}
