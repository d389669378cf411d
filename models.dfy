/**
 * The value types of technisync/models.py: a DNS record with its dict form,
 * equality and hash; a configured server; and the zone-name helpers
 * (reverse zones after the IN-ADDR.ARPA scheme of section 3.5 of RFC 1035
 * and the IP6.ARPA domain of section 2.5 of RFC 3596).
 */
module Models {
  import opened Wrappers
  import opened Strings

  /** A record's rData: field name to its canonical text. */
  type RData = map<string, string>

  /** `DNSRecord`; the fields are set only by the constructor. */
  datatype DnsRecord = DnsRecord(name: string, rtype: string, ttl: int, rdata: RData)

  /** `Server(name, url, api_key)`. */
  datatype Server = Server(name: string, url: string, apiKey: string)

  // ---------------------------------------------------------------------
  // to_dict / from_dict

  /** A value held in the dict form of a record. */
  datatype Field = Text(s: string) | Number(n: int) | Data(d: RData)

  type RecordDict = map<string, Field>

  const DictKeys: set<string> := {"name", "type", "ttl", "rData"}

  /** `to_dict`: the four fields under the keys name, type, ttl and rData. */
  function ToDict(r: DnsRecord): (d: RecordDict)
    ensures d.Keys == DictKeys
  {
    map["name" := Text(r.name), "type" := Text(r.rtype), "ttl" := Number(r.ttl), "rData" := Data(r.rdata)]
  }

  /**
   * `from_dict`: None where the dict lacks one of the four keys (Python raises
   * KeyError there) or holds a value of another kind than the field's.
   */
  function FromDict(d: RecordDict): (r: Option<DnsRecord>)
    ensures r.Some? <==>
      ("name" in d && d["name"].Text? && "type" in d && d["type"].Text?
       && "ttl" in d && d["ttl"].Number? && "rData" in d && d["rData"].Data?)
  {
    if "name" in d && "type" in d && "ttl" in d && "rData" in d then
      match (d["name"], d["type"], d["ttl"], d["rData"])
      case (Text(n), Text(t), Number(ttl), Data(rd)) => Some(DnsRecord(n, t, ttl, rd))
      case _ => None
    else None
  }

  /** A record survives the trip through its dict form unchanged. */
  lemma FromDictToDict(r: DnsRecord)
    ensures FromDict(ToDict(r)) == Some(r)
  {
  }

  /** A dict that converts rebuilds as itself restricted to the four record keys. */
  lemma ToDictFromDict(d: RecordDict)
    requires FromDict(d).Some?
    ensures ToDict(FromDict(d).value) == map k | k in d && k in DictKeys :: d[k]
  {
    var back := ToDict(FromDict(d).value);
    var restricted := map k | k in d && k in DictKeys :: d[k];
    assert back.Keys == restricted.Keys;
    forall k | k in back ensures back[k] == restricted[k] {
    }
  }

  // ---------------------------------------------------------------------
  // __eq__ and __hash__

  /** The right-hand operand of `==`: another DNSRecord or any other Python object. */
  datatype Operand = RecordOperand(rec: DnsRecord) | OtherObject

  /** `__eq__`: false against a non-record, otherwise field by field. */
  predicate RecordEq(self: DnsRecord, other: Operand) {
    match other
    case OtherObject => false
    case RecordOperand(o) =>
      self.name == o.name && self.rtype == o.rtype && self.ttl == o.ttl && self.rdata == o.rdata
  }

  lemma RecordEqIsEquality(self: DnsRecord, other: Operand)
    ensures RecordEq(self, other) <==> other == RecordOperand(self)
  {
  }

  /** `frozenset(rdata.items())`. */
  function Items(m: RData): (s: set<(string, string)>)
    ensures forall k :: k in m ==> (k, m[k]) in s
    ensures forall p :: p in s ==> p.0 in m && m[p.0] == p.1
  {
    set k | k in m :: (k, m[k])
  }

  /** The tuple `__hash__` hashes. */
  function HashKey(r: DnsRecord): (string, string, int, set<(string, string)>) {
    (r.name, r.rtype, r.ttl, Items(r.rdata))
  }

  /** The item set determines the map, so it loses nothing. */
  lemma ItemsInjective(m1: RData, m2: RData)
    requires Items(m1) == Items(m2)
    ensures m1 == m2
  {
    forall k | k in m1 ensures k in m2 && m2[k] == m1[k] {
      assert (k, m1[k]) in Items(m2);
    }
    forall k | k in m2 ensures k in m1 {
      assert (k, m2[k]) in Items(m1);
    }
  }

  /** `__hash__` agrees with `__eq__`: equal records hash alike, and the hashed tuple tells records apart. */
  lemma HashConsistentWithEq(a: DnsRecord, b: DnsRecord)
    ensures RecordEq(a, RecordOperand(b)) <==> HashKey(a) == HashKey(b)
  {
    if HashKey(a) == HashKey(b) {
      ItemsInjective(a.rdata, b.rdata);
    }
  }

  // ---------------------------------------------------------------------
  // Zone names

  const InAddrArpa: string := ".in-addr.arpa"
  const Ip6Arpa: string := ".ip6.arpa"

  /** The fixed internal zones that are never synchronised. */
  const InternalZones: set<string> := {"0.in-addr.arpa", "127.in-addr.arpa", "255.in-addr.arpa", "localhost"}

  /** The IPv6 loopback and unspecified addresses' reverse domain: 31 zero nibbles. */
  const ZeroIp6Suffix: string :=
    ".0.0.0.0.0.0.0.0.0.0.0.0.0.0.0.0.0.0.0.0.0.0.0.0.0.0.0.0.0.0.0.ip6.arpa"

  predicate IsReverseZone(zone: string) {
    EndsWith(zone, InAddrArpa) || EndsWith(zone, Ip6Arpa)
  }

  predicate IsInternalZone(zone: string) {
    zone in InternalZones || EndsWith(zone, ZeroIp6Suffix)
  }

  /** Every internal zone except `localhost` is a reverse zone. */
  lemma InternalZoneIsReverse(zone: string)
    requires IsInternalZone(zone) && zone != "localhost"
    ensures IsReverseZone(zone)
  {
    if zone in InternalZones {
      assert zone[|zone| - |InAddrArpa|..] == InAddrArpa;
    } else {
      assert zone[|zone| - |Ip6Arpa|..] == ZeroIp6Suffix[|ZeroIp6Suffix| - |Ip6Arpa|..];
    }
  }

  // ---------------------------------------------------------------------
  // get_reverse_zone_from_network

  predicate IsOctet(n: int) { 0 <= n <= 255 }

  predicate ValidAddress(a: seq<int>) {
    |a| == 4 && forall i :: 0 <= i < 4 ==> IsOctet(a[i])
  }

  /** The subnet mask as `IPv4Network` accepts it: a prefix length or a dotted netmask. */
  datatype Mask = PrefixLength(bits: int) | Netmask(octets: seq<int>)

  /** The octet values a contiguous netmask can contain. */
  const MaskOctets: set<int> := {0, 128, 192, 224, 240, 248, 252, 254, 255}

  /** A dotted netmask is valid when its one-bits are contiguous from the top. */
  predicate ValidNetmask(m: seq<int>) {
    |m| == 4 && (forall i :: 0 <= i < 4 ==> m[i] in MaskOctets)
    && (forall i :: 0 <= i < 3 ==> m[i] != 255 ==> m[i + 1] == 0)
  }

  predicate ValidMask(mask: Mask) {
    match mask
    case PrefixLength(b) => 0 <= b <= 32
    case Netmask(m) => ValidNetmask(m)
  }

  /** Octet of a prefix-length mask that holds `k` of the mask's one-bits (clamped to 0..8). */
  function PrefixOctet(k: int): (o: int)
    ensures o in MaskOctets
    ensures k >= 8 <==> o == 255
    ensures k <= 0 <==> o == 0
  {
    if k >= 8 then 255
    else if k <= 0 then 0
    else [0, 128, 192, 224, 240, 248, 252, 254][k]
  }

  function MaskOctetsOf(mask: Mask): (m: seq<int>)
    requires ValidMask(mask)
    ensures ValidNetmask(m)
  {
    match mask
    case Netmask(m) => m
    case PrefixLength(b) =>
      [PrefixOctet(b), PrefixOctet(b - 8), PrefixOctet(b - 16), PrefixOctet(b - 24)]
  }

  /** The network address: each octet of the address ANDed with the mask's octet. */
  function NetworkAddress(addr: seq<int>, mask: Mask): (net: seq<int>)
    requires ValidAddress(addr) && ValidMask(mask)
    ensures ValidAddress(net)
    ensures forall i :: 0 <= i < 4 ==> net[i] == AndOctet(addr[i], MaskOctetsOf(mask)[i])
  {
    var m := MaskOctetsOf(mask);
    seq(4, i requires 0 <= i < 4 => AndOctet(addr[i], m[i]))
  }

  function AndOctet(a: int, m: int): (r: int)
    requires IsOctet(a) && IsOctet(m)
    ensures IsOctet(r)
  {
    ((a as bv8) & (m as bv8)) as int
  }

  /** The reverse zone above a network's first three octets, `c.b.a.in-addr.arpa`. */
  function ReverseZoneName(a: nat, b: nat, c: nat): string {
    NatToString(c) + "." + (NatToString(b) + "." + (NatToString(a) + InAddrArpa))
  }

  /**
   * `get_reverse_zone_from_network`: the network address's reverse pointer
   * `d.c.b.a.in-addr.arpa` with its first label cut off, or None when the
   * address or the mask is not valid.
   */
  function ReverseZoneFromNetwork(addr: seq<int>, mask: Mask): (r: Option<string>)
    ensures r.Some? <==> ValidAddress(addr) && ValidMask(mask)
    ensures r.Some? ==> IsReverseZone(r.value)
  {
    if ValidAddress(addr) && ValidMask(mask) then
      var net := NetworkAddress(addr, mask);
      var zone := ReverseZoneName(net[0], net[1], net[2]);
      EndsWithAppend(NatToString(net[0]), InAddrArpa);
      EndsWithSuffix(NatToString(net[1]) + ".", NatToString(net[0]) + InAddrArpa, InAddrArpa);
      EndsWithSuffix(NatToString(net[2]) + ".",
        NatToString(net[1]) + "." + (NatToString(net[0]) + InAddrArpa), InAddrArpa);
      Some(zone)
    else None
  }

  lemma EndsWithSuffix(a: string, b: string, suffix: string)
    requires EndsWith(b, suffix)
    ensures EndsWith(a + b, suffix)
  {
    assert (a + b)[|a + b| - |suffix|..] == b[|b| - |suffix|..];
  }

  /** Only the bits the mask keeps matter: addresses that agree on them get the same zone. */
  lemma ReverseZoneIgnoresHostBits(addr1: seq<int>, addr2: seq<int>, mask: Mask)
    requires ValidAddress(addr1) && ValidAddress(addr2) && ValidMask(mask)
    requires forall i :: 0 <= i < 4 ==>
      AndOctet(addr1[i], MaskOctetsOf(mask)[i]) == AndOctet(addr2[i], MaskOctetsOf(mask)[i])
    ensures ReverseZoneFromNetwork(addr1, mask) == ReverseZoneFromNetwork(addr2, mask)
  {
    assert NetworkAddress(addr1, mask) == NetworkAddress(addr2, mask);
  }

  /** The fourth octet never matters, even under a mask longer than 24 bits. */
  lemma ReverseZoneIgnoresFourthOctet(addr: seq<int>, x: int, mask: Mask)
    requires ValidAddress(addr) && IsOctet(x)
    ensures ReverseZoneFromNetwork(addr[3 := x], mask) == ReverseZoneFromNetwork(addr, mask)
  {
    if ValidMask(mask) {
      var n1, n2 := NetworkAddress(addr[3 := x], mask), NetworkAddress(addr, mask);
      assert n1[0] == n2[0] && n1[1] == n2[1] && n1[2] == n2[2];
    }
  }

  /** The zone names the network's first three octets: different /24 networks get different zones. */
  lemma ReverseZoneInjective(addr1: seq<int>, mask1: Mask, addr2: seq<int>, mask2: Mask)
    requires ReverseZoneFromNetwork(addr1, mask1).Some?
    requires ReverseZoneFromNetwork(addr1, mask1) == ReverseZoneFromNetwork(addr2, mask2)
    ensures NetworkAddress(addr1, mask1)[..3] == NetworkAddress(addr2, mask2)[..3]
  {
    assert ValidAddress(addr2) && ValidMask(mask2);
    var n1 := NetworkAddress(addr1, mask1);
    var n2 := NetworkAddress(addr2, mask2);
    assert ReverseZoneFromNetwork(addr1, mask1).value == ReverseZoneName(n1[0], n1[1], n1[2]);
    assert ReverseZoneFromNetwork(addr2, mask2).value == ReverseZoneName(n2[0], n2[1], n2[2]);
    ReverseZoneNameInjective(n1[0], n1[1], n1[2], n2[0], n2[1], n2[2]);
    FirstThreeOctets(n1, n2);
  }

  lemma FirstThreeOctets(n1: seq<int>, n2: seq<int>)
    requires |n1| == 4 && |n2| == 4 && n1[0] == n2[0] && n1[1] == n2[1] && n1[2] == n2[2]
    ensures n1[..3] == n2[..3]
  {
  }

  lemma ReverseZoneNameInjective(a1: nat, b1: nat, c1: nat, a2: nat, b2: nat, c2: nat)
    requires ReverseZoneName(a1, b1, c1) == ReverseZoneName(a2, b2, c2)
    ensures a1 == a2 && b1 == b2 && c1 == c2
  {
    var sa1, sa2 := NatToString(a1), NatToString(a2);
    var t1, t2 := sa1 + InAddrArpa, sa2 + InAddrArpa;
    DigitsThenDot(NatToString(c1), NatToString(b1) + "." + t1, NatToString(c2), NatToString(b2) + "." + t2);
    DigitsThenDot(NatToString(b1), t1, NatToString(b2), t2);
    assert sa1 == t1[..|t1| - |InAddrArpa|];
    assert sa2 == t2[..|t2| - |InAddrArpa|];
    NatToStringInjective(a1, a2);
    NatToStringInjective(b1, b2);
    NatToStringInjective(c1, c2);
  }

  lemma DotAfterDigits(x: string, rest: string)
    requires AllDigits(x)
    ensures (x + "." + rest)[|x|] == '.'
    ensures forall i :: 0 <= i < |x| ==> (x + "." + rest)[i] != '.'
  {
  }

  /** A run of digits, a dot, the rest: equal texts have equal runs and equal rests. */
  lemma DigitsThenDot(x1: string, rest1: string, x2: string, rest2: string)
    requires AllDigits(x1) && AllDigits(x2)
    requires x1 + "." + rest1 == x2 + "." + rest2
    ensures x1 == x2 && rest1 == rest2
  {
    var s := x1 + "." + rest1;
    DotAfterDigits(x1, rest1);
    DotAfterDigits(x2, rest2);
    assert |x1| == |x2|;
    assert x1 == s[..|x1|];
    assert x2 == s[..|x2|];
    assert rest1 == s[|x1| + 1..];
  }
}
