/** The wire format of gossip contact information (pkg/gossip/protocol.go):
    encoders that append to a buffer, decoders that thread an offset over the
    received bytes. */
module Crds {
  import opened Bytes

  type Signature = s: seq<byte> | |s| == 64 witness ZeroBytes(64)

  datatype Version = Version(major: u16, minor: u16, patch: u16, commit: u32, featureSet: u32)

  /** An address is set when it has both an IP and a port. */
  datatype SocketAddr = SocketAddr(ip: seq<byte>, port: u16) {
    predicate IsValid() { |ip| > 0 && port > 0 }
  }

  const UNSET: SocketAddr := SocketAddr([], 0)

  datatype ContactInfo = ContactInfo(
    pubkey: Pubkey, wallClock: u64, shredVersion: u16, version: Version,
    gossip: SocketAddr, tvu: SocketAddr, tvuForwards: SocketAddr, repair: SocketAddr, tpu: SocketAddr,
    tpuForwards: SocketAddr, tpuVote: SocketAddr, rpc: SocketAddr, rpcPubsub: SocketAddr, serveRepair: SocketAddr)

  datatype Data = Contact(info: ContactInfo) | Vote | EpochSlots

  datatype Value = Value(signature: Signature, data: Data)

  datatype DecodeError = PacketTooSmall | InvalidIPAddress | UnknownDataType | MalformedPacket

  // ------------------------------------------------------------------ IP addresses

  const MAPPED: seq<byte> := [0, 0, 0, 0, 0, 0, 0, 0, 0, 0, 0xff, 0xff]

  /** net.IP.To4 */
  function To4(ip: seq<byte>): Option<seq<byte>> {
    if |ip| == 4 then Some(ip)
    else if |ip| == 16 && ip[..12] == MAPPED then Some(ip[12..])
    else None
  }

  /** net.IP.To16; nil is the empty slice. */
  function To16(ip: seq<byte>): seq<byte> {
    if |ip| == 4 then MAPPED + ip else if |ip| == 16 then ip else []
  }

  predicate IPFits(a: SocketAddr) {
    a.IsValid() ==> |a.ip| == 4 || |a.ip| == 16
  }

  /** What survives a round trip: IPv4 in its 16-byte form, unset addresses empty. */
  function Norm(a: SocketAddr): SocketAddr {
    if !a.IsValid() then UNSET else SocketAddr(To16(a.ip), a.port)
  }

  // ---------------------------------------------------------------- encoded bytes

  function VersionBytes(v: Version): (s: seq<byte>)
    ensures |s| == 14
  {
    LE(v.major, 2) + LE(v.minor, 2) + LE(v.patch, 2) + LE(v.commit, 4) + LE(v.featureSet, 4)
  }

  function IPBytes(ip: seq<byte>): (s: seq<byte>) {
    if To4(ip).Some? then [4] + To4(ip).value else [6] + To16(ip)
  }

  function AddrBytes(a: SocketAddr): (s: seq<byte>)
    ensures |s| >= 1
  {
    if !a.IsValid() then [0] else [1] + IPBytes(a.ip) + LE(a.port, 2)
  }

  function AddrsBytes(as_: seq<SocketAddr>): seq<byte>
    decreases as_, 1
  {
    if as_ == [] then [] else FirstAddrBytes(as_)
  }

  function FirstAddrBytes(as_: seq<SocketAddr>): seq<byte>
    requires as_ != []
    decreases as_, 0
  {
    AddrBytes(as_[0]) + AddrsBytes(as_[1..])
  }

  function Addrs(i: ContactInfo): (as_: seq<SocketAddr>)
    ensures |as_| == 10
  {
    [i.gossip, i.tvu, i.tvuForwards, i.repair, i.tpu, i.tpuForwards, i.tpuVote, i.rpc, i.rpcPubsub, i.serveRepair]
  }

  function WithAddrs(i: ContactInfo, as_: seq<SocketAddr>): ContactInfo
    requires |as_| == 10
  {
    i.(gossip := as_[0], tvu := as_[1], tvuForwards := as_[2], repair := as_[3], tpu := as_[4], tpuForwards := as_[5],
       tpuVote := as_[6], rpc := as_[7], rpcPubsub := as_[8], serveRepair := as_[9])
  }

  function InfoBytes(i: ContactInfo): seq<byte> {
    i.pubkey + LE(i.wallClock, 8) + LE(i.shredVersion, 2) + VersionBytes(i.version) + AddrsBytes(Addrs(i))
  }

  function ValueBytes(signature: Signature, i: ContactInfo): seq<byte> {
    signature + [0] + InfoBytes(i)
  }

  // --------------------------------------------------------------------- encoders

  class Buffer {
    var bytes: seq<byte>

    constructor ()
      ensures bytes == []
    {
      bytes := [];
    }

    method Write(s: seq<byte>)
      modifies this
      ensures bytes == old(bytes) + s
    {
      bytes := bytes + s;
    }
  }

  method EncodeVersion(buf: Buffer, v: Version)
    modifies buf
    ensures buf.bytes == old(buf.bytes) + VersionBytes(v)
  {
    buf.Write(LE(v.major, 2));
    buf.Write(LE(v.minor, 2));
    buf.Write(LE(v.patch, 2));
    buf.Write(LE(v.commit, 4));
    buf.Write(LE(v.featureSet, 4));
  }

  method EncodeSocketAddr(buf: Buffer, a: SocketAddr)
    modifies buf
    ensures buf.bytes == old(buf.bytes) + AddrBytes(a)
  {
    if !a.IsValid() {
      buf.Write([0]);
      return;
    }
    ghost var before := buf.bytes;
    buf.Write([1]);
    var ip4 := To4(a.ip);
    if ip4.Some? {
      buf.Write([4]);
      buf.Write(ip4.value);
    } else {
      buf.Write([6]);
      buf.Write(To16(a.ip));
    }
    buf.Write(LE(a.port, 2));
    AddrPieces(before, if ip4.Some? then [4] else [6], if ip4.Some? then ip4.value else To16(a.ip), LE(a.port, 2));
  }

  lemma AddrPieces(before: seq<byte>, tag: seq<byte>, ip: seq<byte>, port: seq<byte>)
    ensures before + [1] + tag + ip + port == before + ([1] + (tag + ip) + port)
  {
  }

  method EncodeSocketAddrs(buf: Buffer, as_: seq<SocketAddr>)
    modifies buf
    ensures buf.bytes == old(buf.bytes) + AddrsBytes(as_)
  {
    ghost var before := buf.bytes;
    var i := 0;
    assert as_[0..] == as_;
    while i < |as_|
      invariant 0 <= i <= |as_|
      invariant buf.bytes + AddrsBytes(as_[i..]) == before + AddrsBytes(as_)
    {
      assert as_[i..][0] == as_[i] && as_[i..][1..] == as_[i + 1..];
      ghost var now := buf.bytes;
      EncodeSocketAddr(buf, as_[i]);
      Assoc(now, AddrBytes(as_[i]), AddrsBytes(as_[i + 1..]));
      i := i + 1;
    }
    assert buf.bytes + [] == buf.bytes;
  }

  method EncodeContactInfo(buf: Buffer, i: ContactInfo)
    modifies buf
    ensures buf.bytes == old(buf.bytes) + ([0] + InfoBytes(i))
  {
    ghost var before := buf.bytes;
    buf.Write([0]);
    buf.Write(i.pubkey);
    buf.Write(LE(i.wallClock, 8));
    buf.Write(LE(i.shredVersion, 2));
    EncodeVersion(buf, i.version);
    EncodeSocketAddrs(buf, Addrs(i));
    InfoPieces(before, i.pubkey, LE(i.wallClock, 8), LE(i.shredVersion, 2), VersionBytes(i.version),
      AddrsBytes(Addrs(i)));
  }

  lemma InfoPieces(before: seq<byte>, a: seq<byte>, b: seq<byte>, c: seq<byte>, d: seq<byte>, e: seq<byte>)
    ensures before + [0] + a + b + c + d + e == before + ([0] + (a + b + c + d + e))
  {
  }

  /** Only contact information can be encoded; the signature is written first. */
  method EncodeCRDSValue(buf: Buffer, v: Value) returns (ok: bool)
    modifies buf
    ensures ok <==> v.data.Contact?
    ensures buf.bytes == old(buf.bytes) + if ok then ValueBytes(v.signature, v.data.info) else v.signature
  {
    ghost var before := buf.bytes;
    buf.Write(v.signature);
    if !v.data.Contact? { return false; }
    EncodeContactInfo(buf, v.data.info);
    Regroup(before, v.signature, [0], InfoBytes(v.data.info));
    return true;
  }

  lemma Regroup(a: seq<byte>, b: seq<byte>, c: seq<byte>, d: seq<byte>)
    ensures (a + b) + (c + d) == a + ((b + c) + d)
  {
  }

  // --------------------------------------------------------------------- decoders

  /** What decoding an address gives: the address (unset when it fails), the offset
      reached, and whether it succeeded. */
  datatype AddrResult = AddrResult(addr: SocketAddr, offset: nat, ok: bool)

  function DecodeSocketAddr(data: seq<byte>, offset: nat): (r: AddrResult)
    ensures offset <= r.offset && (offset <= |data| ==> r.offset <= |data|)
    ensures r.addr == UNSET || |r.addr.ip| == 16
  {
    if |data| <= offset then AddrResult(UNSET, offset, false)
    else if data[offset] == 0 then AddrResult(UNSET, offset + 1, true)
    else if |data| <= offset + 1 then AddrResult(UNSET, offset + 1, false)
    else
      var o := offset + 2;
      if data[offset + 1] == 4 then
        if |data| < o + 4 + 2 then AddrResult(UNSET, o, false)
        else AddrResult(SocketAddr(MAPPED + data[o..o + 4], Read2(data[o + 4..o + 6])), o + 6, true)
      else if data[offset + 1] == 6 then
        if |data| < o + 16 + 2 then AddrResult(UNSET, o, false)
        else AddrResult(SocketAddr(data[o..o + 16], Read2(data[o + 16..o + 18])), o + 18, true)
      else AddrResult(UNSET, o, false)
  }

  /** n addresses, one after the other; the errors of all of them are ignored. */
  function DecodeAddrs(data: seq<byte>, offset: nat, n: nat): (r: (seq<SocketAddr>, nat))
    ensures |r.0| == n && offset <= r.1 && (offset <= |data| ==> r.1 <= |data|)
    ensures forall i :: 0 <= i < n ==> r.0[i] == UNSET || |r.0[i].ip| == 16
    decreases n, 1, data
  {
    if n == 0 then ([], offset) else DecodeNextAddr(data, offset, n)
  }

  function DecodeNextAddr(data: seq<byte>, offset: nat, n: nat): (r: (seq<SocketAddr>, nat))
    requires n > 0
    ensures |r.0| == n && offset <= r.1 && (offset <= |data| ==> r.1 <= |data|)
    ensures forall i :: 0 <= i < n ==> r.0[i] == UNSET || |r.0[i].ip| == 16
    decreases n, 0, data
  {
    var first := DecodeSocketAddr(data, offset);
    var (rest, end) := DecodeAddrs(data, first.offset, n - 1);
    ([first.addr] + rest, end)
  }

  const NO_VERSION: Version := Version(0, 0, 0, 0, 0)

  function DecodeVersion(data: seq<byte>, o: nat): (r: (Version, nat))
    ensures o <= r.1 && (o <= |data| ==> r.1 <= |data|)
  {
    if |data| < o + 14 then (NO_VERSION, o)
    else (Version(Read2(data[o..o + 2]), Read2(data[o + 2..o + 4]), Read2(data[o + 4..o + 6]),
                  Read4(data[o + 6..o + 10]), Read4(data[o + 10..o + 14])), o + 14)
  }

  const HEAD: nat := 42

  /** Missing addresses are not an error; if the very first cannot be read, none of
      the others is tried. */
  function DecodeContactInfo(data: seq<byte>): (r: Result<(ContactInfo, nat), DecodeError>)
    ensures r.Ok? ==> HEAD <= r.value.1 <= |data|
  {
    if |data| < HEAD then Err(PacketTooSmall) else
    var (version, o) := if |data| > HEAD + 10 then DecodeVersion(data, HEAD) else (NO_VERSION, HEAD);
    var base := ContactInfo(data[..32], Read8(data[32..40]), Read2(data[40..42]), version,
      UNSET, UNSET, UNSET, UNSET, UNSET, UNSET, UNSET, UNSET, UNSET, UNSET);
    var gossip := DecodeSocketAddr(data, o);
    if !gossip.ok then Ok((base, gossip.offset)) else
    var (rest, end) := DecodeAddrs(data, gossip.offset, 9);
    Ok((WithAddrs(base, [gossip.addr] + rest), end))
  }

  function DecodeCRDSValue(data: seq<byte>): (r: Result<(Value, nat), DecodeError>)
    ensures r.Ok? ==> 65 <= r.value.1 <= |data|
  {
    if |data| < 65 then Err(PacketTooSmall)
    else if data[64] != 0 then Err(UnknownDataType)
    else
      var info := DecodeContactInfo(data[65..]);
      if info.Err? then Err(info.error)
      else Ok((Value(data[..64], Contact(info.value.0)), 65 + info.value.1))
  }

  // ------------------------------------------------------------------- round trip

  /** An address field, with anything before and after it, reads back in normal form
      and is consumed exactly, if and only if its IP has 4 or 16 bytes (or it is
      unset). */
  lemma AddrRoundTrip(pre: seq<byte>, a: SocketAddr, tail: seq<byte>)
    ensures DecodeSocketAddr(pre + AddrBytes(a) + tail, |pre|) == AddrResult(Norm(a), |pre| + |AddrBytes(a)|, true)
       <==> IPFits(a)
  {
    var data := pre + AddrBytes(a) + tail;
    if !a.IsValid() {
      assert data[|pre|] == 0;
    } else {
      LE2(a.port);
      AddrLayout(pre, IPBytes(a.ip)[..1], IPBytes(a.ip)[1..], LE(a.port, 2), tail);
      assert IPBytes(a.ip) == IPBytes(a.ip)[..1] + IPBytes(a.ip)[1..];
      if IPFits(a) {
        SetAddrRoundTrip(data, |pre|, a);
      } else {
        assert DecodeSocketAddr(data, |pre|).offset != |pre| + 4;
      }
    }
  }

  lemma AddrLayout(pre: seq<byte>, tag: seq<byte>, ip: seq<byte>, port: seq<byte>, tail: seq<byte>)
    requires |tag| == 1 && |port| == 2
    ensures var data := pre + ([1] + (tag + ip) + port) + tail;
      var (o, n) := (|pre|, |ip|);
      && |data| >= o + n + 4 && data[o] == 1 && data[o + 1] == tag[0]
      && data[o + 2..o + 2 + n] == ip && data[o + 2 + n..o + 4 + n] == port
  {
  }

  lemma SetAddrRoundTrip(data: seq<byte>, o: nat, a: SocketAddr)
    requires a.IsValid() && IPFits(a) && Read2(LE(a.port, 2)) == a.port
    requires var (tag, ip) := (IPBytes(a.ip)[0], IPBytes(a.ip)[1..]);
      var n := |ip|;
      && |data| >= o + n + 4 && data[o] == 1 && data[o + 1] == tag
      && data[o + 2..o + 2 + n] == ip && data[o + 2 + n..o + 4 + n] == LE(a.port, 2)
    ensures DecodeSocketAddr(data, o) == AddrResult(Norm(a), o + |AddrBytes(a)|, true)
  {
    if To4(a.ip).Some? {
      assert ([4] + To4(a.ip).value)[1..] == To4(a.ip).value;
      if |a.ip| == 16 { assert a.ip == MAPPED + a.ip[12..]; }
    } else {
      assert ([6] + To16(a.ip))[1..] == a.ip;
    }
  }

  predicate AllFit(as_: seq<SocketAddr>) {
    forall i :: 0 <= i < |as_| ==> IPFits(as_[i])
  }

  function NormAll(as_: seq<SocketAddr>): (ns: seq<SocketAddr>)
    ensures |ns| == |as_|
  {
    seq(|as_|, i requires 0 <= i < |as_| => Norm(as_[i]))
  }

  /** The bytes b stand in data at the offset. */
  predicate At(data: seq<byte>, offset: nat, b: seq<byte>) {
    offset + |b| <= |data| && data[offset..offset + |b|] == b
  }

  lemma AtSplit(data: seq<byte>, offset: nat, b: seq<byte>, c: seq<byte>)
    requires At(data, offset, b + c)
    ensures At(data, offset, b) && At(data, offset + |b|, c)
  {
    var all := data[offset..offset + |b + c|];
    assert data[offset..offset + |b|] == all[..|b|];
    assert data[offset + |b|..offset + |b| + |c|] == all[|b|..];
  }

  lemma AddrAt(data: seq<byte>, offset: nat, a: SocketAddr)
    requires IPFits(a) && At(data, offset, AddrBytes(a))
    ensures DecodeSocketAddr(data, offset) == AddrResult(Norm(a), offset + |AddrBytes(a)|, true)
  {
    var (pre, tail) := (data[..offset], data[offset + |AddrBytes(a)|..]);
    assert data == pre + AddrBytes(a) + tail;
    AddrRoundTrip(pre, a, tail);
  }

  lemma {:induction false} AddrsRoundTrip(data: seq<byte>, offset: nat, as_: seq<SocketAddr>)
    requires AllFit(as_) && At(data, offset, AddrsBytes(as_))
    ensures DecodeAddrs(data, offset, |as_|) == (NormAll(as_), offset + |AddrsBytes(as_)|)
    decreases |as_|
  {
    if as_ != [] {
      var (a, rest) := (as_[0], as_[1..]);
      var next := offset + |AddrBytes(a)|;
      ConsFacts(as_, a, rest);
      FirstAt(data, offset, a, AddrsBytes(rest));
      AddrsRoundTrip(data, next, rest);
      AddrsStep(data, offset, |as_|, Norm(a), next, NormAll(rest), next + |AddrsBytes(rest)|);
    }
  }

  lemma FirstAt(data: seq<byte>, offset: nat, a: SocketAddr, more: seq<byte>)
    requires IPFits(a) && At(data, offset, AddrBytes(a) + more)
    ensures DecodeSocketAddr(data, offset) == AddrResult(Norm(a), offset + |AddrBytes(a)|, true)
    ensures At(data, offset + |AddrBytes(a)|, more)
  {
    AtSplit(data, offset, AddrBytes(a), more);
    AddrAt(data, offset, a);
  }

  lemma ConsFacts(as_: seq<SocketAddr>, a: SocketAddr, rest: seq<SocketAddr>)
    requires as_ != [] && a == as_[0] && rest == as_[1..] && AllFit(as_)
    ensures IPFits(a) && AllFit(rest) && AddrsBytes(as_) == AddrBytes(a) + AddrsBytes(rest)
    ensures NormAll(as_) == [Norm(a)] + NormAll(rest)
  {
    forall i | 0 <= i < |rest| ensures IPFits(rest[i]) { assert rest[i] == as_[i + 1]; }
  }

  lemma AddrsStep(data: seq<byte>, offset: nat, n: nat, a: SocketAddr, next: nat, rest: seq<SocketAddr>, end: nat)
    requires n > 0 && DecodeSocketAddr(data, offset) == AddrResult(a, next, true)
    requires DecodeAddrs(data, next, n - 1) == (rest, end)
    ensures DecodeAddrs(data, offset, n) == ([a] + rest, end)
  {
  }

  lemma VersionFields(v: Version)
    ensures var s := VersionBytes(v);
      s[0..2] == LE(v.major, 2) && s[2..4] == LE(v.minor, 2) && s[4..6] == LE(v.patch, 2)
      && s[6..10] == LE(v.commit, 4) && s[10..14] == LE(v.featureSet, 4)
  {
    FivePieces(LE(v.major, 2), LE(v.minor, 2), LE(v.patch, 2), LE(v.commit, 4), LE(v.featureSet, 4));
  }

  lemma FivePieces(a: seq<byte>, b: seq<byte>, c: seq<byte>, d: seq<byte>, e: seq<byte>)
    requires |a| == |b| == |c| == 2 && |d| == |e| == 4
    ensures var s := a + b + c + d + e;
      s[0..2] == a && s[2..4] == b && s[4..6] == c && s[6..10] == d && s[10..14] == e
  {
    var s := a + b + c + d + e;
    assert s[0..2] == a;
    assert s[2..4] == b;
    assert s[4..6] == c;
    assert s[6..10] == d;
    assert s[10..14] == e;
  }

  lemma VersionRoundTrip(pre: seq<byte>, v: Version, tail: seq<byte>)
    ensures DecodeVersion(pre + VersionBytes(v) + tail, |pre|) == (v, |pre| + 14)
  {
    var (data, o) := (pre + VersionBytes(v) + tail, |pre|);
    VersionFields(v);
    Within(pre, VersionBytes(v), tail, 0, 2);
    Within(pre, VersionBytes(v), tail, 2, 4);
    Within(pre, VersionBytes(v), tail, 4, 6);
    Within(pre, VersionBytes(v), tail, 6, 10);
    Within(pre, VersionBytes(v), tail, 10, 14);
    LE2(v.major);
    LE2(v.minor);
    LE2(v.patch);
    LE4(v.commit);
    LE4(v.featureSet);
  }

  function NormInfo(i: ContactInfo): ContactInfo {
    WithAddrs(i, NormAll(Addrs(i)))
  }

  predicate InfoFits(i: ContactInfo) {
    AllFit(Addrs(i))
  }

  lemma {:induction false} AddrsLength(as_: seq<SocketAddr>)
    ensures |AddrsBytes(as_)| >= |as_|
  {
    if as_ != [] { AddrsLength(as_[1..]); }
  }

  lemma InfoRoundTrip(i: ContactInfo, tail: seq<byte>)
    requires InfoFits(i)
    ensures DecodeContactInfo(InfoBytes(i) + tail) == Ok((NormInfo(i), |InfoBytes(i)|))
  {
    var head := i.pubkey + LE(i.wallClock, 8) + LE(i.shredVersion, 2);
    var (v, as_, rest) := (VersionBytes(i.version), Addrs(i), AddrsBytes(Addrs(i)));
    var data := InfoBytes(i) + tail;
    Splits(head, v, rest, tail);
    HeadRoundTrip(i, v + rest + tail);
    VersionRoundTrip(head, i.version, rest + tail);
    AddrsLength(as_);
    assert At(head + v + rest + tail, 56, rest);
    ConsFacts(as_, as_[0], as_[1..]);
    FirstAndRest(data, 56, as_[0], as_[1..]);
    Assemble(i, data);
  }

  lemma Splits(a: seq<byte>, b: seq<byte>, c: seq<byte>, d: seq<byte>)
    ensures a + b + c + d == a + (b + c + d) == a + b + (c + d) == a + (b + c) + d
  {
  }

  /** The parts, put together. */
  lemma Assemble(i: ContactInfo, data: seq<byte>)
    requires |data| >= 66 && data[..32] == i.pubkey
    requires Read8(data[32..40]) == i.wallClock && Read2(data[40..42]) == i.shredVersion
    requires DecodeVersion(data, 42) == (i.version, 56)
    requires DecodeSocketAddr(data, 56).ok
    requires var gossip := DecodeSocketAddr(data, 56);
      [gossip.addr] + DecodeAddrs(data, gossip.offset, 9).0 == NormAll(Addrs(i))
      && DecodeAddrs(data, gossip.offset, 9).1 == |InfoBytes(i)|
    ensures DecodeContactInfo(data) == Ok((NormInfo(i), |InfoBytes(i)|))
  {
  }

  lemma HeadRoundTrip(i: ContactInfo, rest: seq<byte>)
    ensures var data := i.pubkey + LE(i.wallClock, 8) + LE(i.shredVersion, 2) + rest;
      data[..32] == i.pubkey && Read8(data[32..40]) == i.wallClock && Read2(data[40..42]) == i.shredVersion
  {
    var data := i.pubkey + LE(i.wallClock, 8) + LE(i.shredVersion, 2) + rest;
    assert data[32..40] == LE(i.wallClock, 8) && data[40..42] == LE(i.shredVersion, 2);
    LE8(i.wallClock);
    LE2(i.shredVersion);
  }

  /** The first address decodes without error, so the others are tried. */
  lemma FirstAndRest(data: seq<byte>, offset: nat, a: SocketAddr, rest: seq<SocketAddr>)
    requires IPFits(a) && AllFit(rest) && At(data, offset, AddrBytes(a) + AddrsBytes(rest))
    ensures var next := offset + |AddrBytes(a)|;
      && DecodeSocketAddr(data, offset) == AddrResult(Norm(a), next, true)
      && DecodeAddrs(data, next, |rest|) == (NormAll(rest), next + |AddrsBytes(rest)|)
  {
    FirstAt(data, offset, a, AddrsBytes(rest));
    AddrsRoundTrip(data, offset + |AddrBytes(a)|, rest);
  }

  /** No bytes decode to an address whose IP has another length. */
  lemma MisfitNeverDecoded(i: ContactInfo, data: seq<byte>, n: nat)
    requires DecodeContactInfo(data) == Ok((NormInfo(i), n))
    ensures InfoFits(i)
  {
    AddrsOfDecoded(data);
    NormAddrs(i);
    NormFits(Addrs(i));
  }

  lemma NormAddrs(i: ContactInfo)
    ensures Addrs(NormInfo(i)) == NormAll(Addrs(i))
  {
  }

  lemma NormFits(as_: seq<SocketAddr>)
    requires forall k :: 0 <= k < |as_| ==> NormAll(as_)[k] == UNSET || |NormAll(as_)[k].ip| == 16
    ensures AllFit(as_)
  {
    forall k | 0 <= k < |as_| ensures IPFits(as_[k]) { assert NormAll(as_)[k] == Norm(as_[k]); }
  }

  lemma AddrsOfDecoded(data: seq<byte>)
    requires DecodeContactInfo(data).Ok?
    ensures var as_ := Addrs(DecodeContactInfo(data).value.0);
      forall k :: 0 <= k < 10 ==> as_[k] == UNSET || |as_[k].ip| == 16
  {
  }

  /** Decoding inverts encoding up to normal form, whatever bytes follow, and
      consumes exactly the encoding, if and only if every address that is set has an
      IP of 4 or 16 bytes. */
  lemma ValueRoundTrip(signature: Signature, i: ContactInfo, tail: seq<byte>)
    ensures DecodeCRDSValue(ValueBytes(signature, i) + tail)
         == Ok((Value(signature, Contact(NormInfo(i))), |ValueBytes(signature, i)|))
       <==> InfoFits(i)
  {
    Framed(signature, InfoBytes(i), tail);
    if InfoFits(i) {
      InfoRoundTrip(i, tail);
    } else if DecodeContactInfo(InfoBytes(i) + tail) == Ok((NormInfo(i), |InfoBytes(i)|)) {
      MisfitNeverDecoded(i, InfoBytes(i) + tail, |InfoBytes(i)|);
    }
  }

  lemma Framed(signature: Signature, info: seq<byte>, tail: seq<byte>)
    ensures var data := signature + [0] + info + tail;
      data[..64] == signature && data[64] == 0 && data[65..] == info + tail
  {
  }

  /** Normal forms are reached in one round trip: encoding the decoded value gives
      the same bytes again. */
  lemma NormEncodes(a: SocketAddr)
    requires IPFits(a)
    ensures AddrBytes(Norm(a)) == AddrBytes(a) && Norm(Norm(a)) == Norm(a)
  {
    if |a.ip| == 4 { assert (MAPPED + a.ip)[..12] == MAPPED && (MAPPED + a.ip)[12..] == a.ip; }
  }

  // -------------------------------------------------------------------- varints

  /** binary.PutUvarint */
  function UvarintBytes(x: nat): (s: seq<byte>)
    ensures |s| >= 1
  {
    if x < 128 then [x] else [128 + x % 128] + UvarintBytes(x / 128)
  }

  /** binary.Uvarint from byte i on: the value and the bytes read, or None where it
      reports none or an overflow of 64 bits. */
  function Uvarint(s: seq<byte>, i: nat): (r: Option<(nat, nat)>)
    ensures r.Some? ==> 1 <= r.value.1 <= |s|
  {
    if s == [] || i >= 10 then None
    else if s[0] < 128 then if i == 9 && s[0] > 1 then None else Some((s[0], 1))
    else
      var rest := Uvarint(s[1..], i + 1);
      if rest.None? then None else Some((s[0] - 128 + 128 * rest.value.0, rest.value.1 + 1))
  }

  /** The numbers that fit when i bytes have been read. */
  function Room(i: nat): nat
    requires i <= 9
    decreases 9 - i
  {
    if i == 9 then 2 else 128 * Room(i + 1)
  }

  lemma {:induction false} UvarintRoundTrip(x: nat, i: nat, tail: seq<byte>)
    requires i <= 9 && x < Room(i)
    ensures Uvarint(UvarintBytes(x) + tail, i) == Some((x, |UvarintBytes(x)|))
    decreases x
  {
    if x >= 128 {
      UvarintRoundTrip(x / 128, i + 1, tail);
      assert (UvarintBytes(x) + tail)[1..] == UvarintBytes(x / 128) + tail;
    }
  }

  lemma RoomForU64()
    ensures Room(0) == U64_SIZE
  {
    assert Room(7) == 128 * (128 * Room(9));
    assert Room(5) == 128 * (128 * Room(7));
    assert Room(3) == 128 * (128 * Room(5));
    assert Room(0) == 128 * (128 * (128 * Room(3)));
  }

  // -------------------------------------------------------------- pull responses

  datatype PullResponse = PullResponse(from: Pubkey, values: seq<Value>)

  /** At most n values, up to the first that cannot be decoded. */
  function DecodeValues(data: seq<byte>, n: nat): seq<Value>
    decreases n, 1
  {
    if n == 0 || data == [] then [] else DecodeNextValue(data, n)
  }

  function DecodeNextValue(data: seq<byte>, n: nat): seq<Value>
    requires n > 0
    decreases n, 0
  {
    var v := DecodeCRDSValue(data);
    if v.Err? then [] else [v.value.0] + DecodeValues(data[v.value.1..], n - 1)
  }

  function PullResponseOf(data: seq<byte>): Result<PullResponse, DecodeError> {
    if |data| < 32 then Err(PacketTooSmall) else
    var count := Uvarint(data[32..], 0);
    if count.None? then Err(MalformedPacket)
    else Ok(PullResponse(data[..32], DecodeValues(data[32 + count.value.1..], count.value.0)))
  }

  method DecodePullResponse(packet: seq<byte>) returns (r: Result<PullResponse, DecodeError>)
    ensures r == PullResponseOf(packet)
  {
    if |packet| < 32 { return Err(PacketTooSmall); }
    var from, data := packet[..32], packet[32..];
    var count := Uvarint(data, 0);
    if count.None? { return Err(MalformedPacket); }
    data := data[count.value.1..];
    var values := DecodeUpTo(data, count.value.0);
    return Ok(PullResponse(from, values));
  }

  method DecodeUpTo(payload: seq<byte>, n: nat) returns (values: seq<Value>)
    ensures values == DecodeValues(payload, n)
  {
    values := [];
    var data, i, good := payload, 0, true;
    while good && i < n && |data| > 0
      invariant 0 <= i <= n
      invariant DecodeValues(payload, n) == values + if good then DecodeValues(data, n - i) else []
      decreases good, n - i
    {
      var v := DecodeOne(data, n - i);
      if v.None? {
        good := false;
      } else {
        values := values + [v.value.0];
        data := data[v.value.1..];
        i := i + 1;
      }
    }
  }

  /** The next value, or None when it is malformed and the rest is given up. */
  method DecodeOne(data: seq<byte>, ghost n: nat) returns (v: Option<(Value, nat)>)
    requires n > 0 && data != []
    ensures v.None? ==> DecodeValues(data, n) == []
    ensures v.Some? ==> v.value.1 <= |data|
    ensures v.Some? ==> DecodeValues(data, n) == [v.value.0] + DecodeValues(data[v.value.1..], n - 1)
  {
    var r := DecodeCRDSValue(data);
    v := if r.Err? then None else Some(r.value);
  }

  datatype Signed = Signed(signature: Signature, info: ContactInfo)

  function AllBytes(vs: seq<Signed>): seq<byte>
    decreases vs, 1
  {
    if vs == [] then [] else FirstBytes(vs)
  }

  function FirstBytes(vs: seq<Signed>): seq<byte>
    requires vs != []
    decreases vs, 0
  {
    ValueBytes(vs[0].signature, vs[0].info) + AllBytes(vs[1..])
  }

  function Decoded(vs: seq<Signed>): (values: seq<Value>)
    ensures |values| == |vs|
  {
    seq(|vs|, i requires 0 <= i < |vs| => Value(vs[i].signature, Contact(NormInfo(vs[i].info))))
  }

  lemma {:induction false} ValuesRoundTrip(vs: seq<Signed>, tail: seq<byte>)
    requires forall i :: 0 <= i < |vs| ==> InfoFits(vs[i].info)
    ensures DecodeValues(AllBytes(vs) + tail, |vs|) == Decoded(vs)
  {
    if vs != [] {
      ValuesRoundTrip(vs[1..], tail);
      ValuesStep(vs, vs[0], vs[1..], tail);
    }
  }

  lemma ValuesStep(vs: seq<Signed>, v: Signed, more: seq<Signed>, tail: seq<byte>)
    requires vs != [] && v == vs[0] && more == vs[1..] && InfoFits(v.info)
    requires DecodeValues(AllBytes(more) + tail, |more|) == Decoded(more)
    ensures DecodeValues(AllBytes(vs) + tail, |vs|) == Decoded(vs)
  {
    ValueRoundTrip(v.signature, v.info, AllBytes(more) + tail);
    DecodedCons(vs, v, more);
    DecodeOneMore(ValueBytes(v.signature, v.info), AllBytes(more), tail, |more|,
      Value(v.signature, Contact(NormInfo(v.info))), Decoded(more));
  }

  lemma DecodedCons(vs: seq<Signed>, v: Signed, more: seq<Signed>)
    requires vs != [] && v == vs[0] && more == vs[1..]
    ensures Decoded(vs) == [Value(v.signature, Contact(NormInfo(v.info)))] + Decoded(more)
    ensures AllBytes(vs) == ValueBytes(v.signature, v.info) + AllBytes(more)
  {
  }

  lemma DecodeOneMore(first: seq<byte>, rest: seq<byte>, tail: seq<byte>, n: nat, v: Value, values: seq<Value>)
    requires first != [] && DecodeCRDSValue(first + (rest + tail)) == Ok((v, |first|))
    requires DecodeValues(rest + tail, n) == values
    ensures DecodeValues((first + rest) + tail, n + 1) == [v] + values
  {
    Assoc(first, rest, tail);
    assert (first + (rest + tail))[|first|..] == rest + tail;
  }

  /** A pull response made of n concatenated encodings decodes to exactly those n
      values, whatever follows them. */
  lemma PullResponseRoundTrip(from: Pubkey, vs: seq<Signed>, tail: seq<byte>)
    requires |vs| < U64_SIZE && forall i :: 0 <= i < |vs| ==> InfoFits(vs[i].info)
    ensures PullResponseOf(from + UvarintBytes(|vs|) + AllBytes(vs) + tail) == Ok(PullResponse(from, Decoded(vs)))
  {
    var (count, all) := (UvarintBytes(|vs|), AllBytes(vs));
    RoomForU64();
    UvarintRoundTrip(|vs|, 0, all + tail);
    ValuesRoundTrip(vs, tail);
    PacketDecodes(from, count, all, tail, |vs|, Decoded(vs));
  }

  lemma PacketDecodes(from: Pubkey, count: seq<byte>, all: seq<byte>, tail: seq<byte>, n: nat, values: seq<Value>)
    requires Uvarint(count + (all + tail), 0) == Some((n, |count|)) && DecodeValues(all + tail, n) == values
    ensures PullResponseOf(from + count + all + tail) == Ok(PullResponse(from, values))
  {
    PacketParts(from, count, all, tail);
    Packet(from, from + count + all + tail, count + (all + tail), |count|, all + tail, n, values);
  }

  lemma PacketParts(from: Pubkey, count: seq<byte>, all: seq<byte>, tail: seq<byte>)
    ensures var data := from + count + all + tail;
      data[..32] == from && data[32..] == count + (all + tail) && data[32 + |count|..] == all + tail
  {
  }

  lemma Packet(from: Pubkey, data: seq<byte>, rest: seq<byte>, k: nat, body: seq<byte>, n: nat, values: seq<Value>)
    requires 32 + k <= |data| && data[..32] == from && data[32..] == rest && data[32 + k..] == body
    requires Uvarint(rest, 0) == Some((n, k)) && DecodeValues(body, n) == values
    ensures PullResponseOf(data) == Ok(PullResponse(from, values))
  {
  }
}
