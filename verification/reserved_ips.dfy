/**
 * `ReservedIPs` of freegeoip/utils.py: a fixed table of sixteen
 * (network, netmask) pairs and a linear scan that calls an address reserved
 * when `address & netmask == network` for some pair.
 *
 * The table is utils.py's `ReservedIPs.IPs`, value for value. It broadly follows the IANA
 * special-purpose IPv4 registry (section 2.2.2 of RFC 6890) but differs from it:
 * it lists 192.18.0.0/15 where the registry's benchmarking block is
 * 198.18.0.0/15, it gives 192.0.0.0 a /29 mask, and its 240.0.0.0/4 entry
 * already contains the 255.255.255.255/32 entry, so the ranges overlap.
 */
module ReservedIPs {
  import opened AddressCodec

  /** One row of the table: an address is inside it when `address & netmask == network`. */
  datatype Range = Range(network: bv32, netmask: bv32)

  /** A row as utils.py writes it: two dotted quads passed through `ip2uint32`. */
  function Row(network: Quad, netmask: Quad): Range {
    Range(ToUint32(network), ToUint32(netmask))
  }

  /** `ReservedIPs.IPs`, row for row and in order. */
  const IPs: seq<Range> := [
    Row(Quad(0, 0, 0, 0),         Quad(255, 0, 0, 0)),
    Row(Quad(10, 0, 0, 0),        Quad(255, 0, 0, 0)),
    Row(Quad(100, 64, 0, 0),      Quad(255, 192, 0, 0)),
    Row(Quad(127, 0, 0, 0),       Quad(255, 0, 0, 0)),
    Row(Quad(169, 254, 0, 0),     Quad(255, 255, 0, 0)),
    Row(Quad(172, 16, 0, 0),      Quad(255, 240, 0, 0)),
    Row(Quad(192, 0, 0, 0),       Quad(255, 255, 255, 248)),
    Row(Quad(192, 0, 2, 0),       Quad(255, 255, 255, 0)),
    Row(Quad(192, 88, 99, 0),     Quad(255, 255, 255, 0)),
    Row(Quad(192, 168, 0, 0),     Quad(255, 255, 0, 0)),
    Row(Quad(192, 18, 0, 0),      Quad(255, 254, 0, 0)),
    Row(Quad(198, 51, 100, 0),    Quad(255, 255, 255, 0)),
    Row(Quad(203, 0, 113, 0),     Quad(255, 255, 255, 0)),
    Row(Quad(224, 0, 0, 0),       Quad(240, 0, 0, 0)),
    Row(Quad(240, 0, 0, 0),       Quad(240, 0, 0, 0)),
    Row(Quad(255, 255, 255, 255), Quad(255, 255, 255, 255))
  ]

  predicate Matches(ip: bv32, r: Range) {
    ip & r.netmask == r.network
  }

  /** The reference meaning of "reserved": some row of the table matches. */
  predicate IsReserved(ip: bv32) {
    exists i :: 0 <= i < |IPs| && Matches(ip, IPs[i])
  }

  /** A linear scan of any table that stops at the first matching row. */
  function Scan(ip: bv32, table: seq<Range>): (found: bool)
    ensures found <==> exists i :: 0 <= i < |table| && Matches(ip, table[i])
    decreases |table|
  {
    if |table| == 0 then false
    else if Matches(ip, table[0]) then true
    else
      var found := Scan(ip, table[1..]);
      assert forall i :: 1 <= i < |table| ==> table[i] == table[1..][i - 1];
      found
  }

  /**
   * `ReservedIPs.test(ip)`: walk the table in order, answer true at the
   * first matching row and false only once every row has failed.
   */
  method Test(ip: bv32) returns (reserved: bool)
    ensures reserved <==> IsReserved(ip)
    ensures !reserved ==> forall i :: 0 <= i < |IPs| ==> IPs[i].network != ip & IPs[i].netmask
  {
    for i := 0 to |IPs|
      invariant forall j :: 0 <= j < i ==> !Matches(ip, IPs[j])
    {
      if Matches(ip, IPs[i]) {
        return true;
      }
    }
    return false;
  }

  /** The scan agrees with the reference meaning on `ReservedIPs.IPs`. */
  lemma ScanIsReserved(ip: bv32)
    ensures Scan(ip, IPs) <==> IsReserved(ip)
  {
  }

  /** Reordering a table never changes what the scan answers. */
  lemma ScanOrderIndependent(ip: bv32, t1: seq<Range>, t2: seq<Range>)
    requires multiset(t1) == multiset(t2)
    ensures Scan(ip, t1) == Scan(ip, t2)
  {
    if Scan(ip, t1) {
      var i :| 0 <= i < |t1| && Matches(ip, t1[i]);
      assert t1[i] in multiset(t2);
      var j :| 0 <= j < |t2| && t2[j] == t1[i];
    }
    if Scan(ip, t2) {
      var j :| 0 <= j < |t2| && Matches(ip, t2[j]);
      assert t2[j] in multiset(t1);
      var i :| 0 <= i < |t1| && t1[i] == t2[j];
    }
  }

  /** A row is well formed when its network has no bits outside its netmask. */
  predicate WellFormed(r: Range) {
    r.network & r.netmask == r.network
  }

  /** Every row of `ReservedIPs.IPs` is well formed. */
  lemma TableWellFormed()
    ensures |IPs| == 16
    ensures forall i :: 0 <= i < |IPs| ==> WellFormed(IPs[i])
  {
  }

  /** Hence each listed network address is itself classified as reserved. */
  lemma NetworksReserved(i: nat)
    requires i < |IPs|
    ensures IsReserved(IPs[i].network)
  {
  }

  /** Multicast and the reserved-for-future-use block: every address from 224.0.0.0 up. */
  lemma FirstOctetAtLeast224Reserved(q: Quad)
    requires q.a >= 224
    ensures IsReserved(ToUint32(q))
  {
    if q.a < 240 {
      assert Matches(ToUint32(q), IPs[13]);
    } else {
      assert Matches(ToUint32(q), IPs[14]);
    }
  }

  lemma PrivateTenReserved(b: bv8, c: bv8, d: bv8)
    ensures IsReserved(ToUint32(Quad(10, b, c, d)))
  {
    assert Matches(ToUint32(Quad(10, b, c, d)), IPs[1]);
  }

  lemma LoopbackReserved(b: bv8, c: bv8, d: bv8)
    ensures IsReserved(ToUint32(Quad(127, b, c, d)))
  {
    assert Matches(ToUint32(Quad(127, b, c, d)), IPs[3]);
  }

  lemma LinkLocalReserved(c: bv8, d: bv8)
    ensures IsReserved(ToUint32(Quad(169, 254, c, d)))
  {
    assert Matches(ToUint32(Quad(169, 254, c, d)), IPs[4]);
  }

  lemma PrivateOneNineTwoReserved(c: bv8, d: bv8)
    ensures IsReserved(ToUint32(Quad(192, 168, c, d)))
  {
    assert Matches(ToUint32(Quad(192, 168, c, d)), IPs[9]);
  }

  /** The limited broadcast address is matched by two rows: the table's ranges overlap. */
  lemma BroadcastMatchesTwoRows()
    ensures IsReserved(ToUint32(Quad(255, 255, 255, 255)))
    ensures Matches(ToUint32(Quad(255, 255, 255, 255)), IPs[14])
    ensures Matches(ToUint32(Quad(255, 255, 255, 255)), IPs[15])
  {
    assert Matches(ToUint32(Quad(255, 255, 255, 255)), IPs[15]);
  }

  /** Public resolvers are not reserved: every row fails for them. */
  lemma PublicResolversNotReserved()
    ensures !IsReserved(ToUint32(Quad(8, 8, 8, 8)))
    ensures !IsReserved(ToUint32(Quad(1, 1, 1, 1)))
  {
  }

  /**
   * Where the table departs from the registry: 198.18.0.1 (benchmarking,
   * 198.18.0.0/15) is not reserved, 192.18.0.1 is, and 192.0.0.8 falls
   * outside the /29 given to 192.0.0.0.
   */
  lemma TableDepartsFromRegistry()
    ensures !IsReserved(ToUint32(Quad(198, 18, 0, 1)))
    ensures IsReserved(ToUint32(Quad(192, 18, 0, 1)))
    ensures IsReserved(ToUint32(Quad(192, 0, 0, 7)))
    ensures !IsReserved(ToUint32(Quad(192, 0, 0, 8)))
  {
    assert Matches(ToUint32(Quad(192, 18, 0, 1)), IPs[10]);
    assert Matches(ToUint32(Quad(192, 0, 0, 7)), IPs[6]);
  }
}
