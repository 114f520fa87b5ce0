/**
 * The address codec of freegeoip/utils.py: `ip2uint32` turns a textual IPv4
 * address into the unsigned 32-bit integer that the quota key and the
 * reserved-range table use. The text is parsed into four octets (the job of
 * `socket.inet_aton`, modelled here for strict dotted quads only) and the four
 * bytes are read as one big-endian integer (`struct.unpack("!I", ...)`).
 */
module AddressCodec {
  import opened Wrappers
  import Decimal

  /** The four octets of an IPv4 address in the order they are written. */
  datatype Quad = Quad(a: bv8, b: bv8, c: bv8, d: bv8)

  /** Why a text is not a dotted quad (the socket error `inet_aton` raises). */
  datatype AddressError =
    | WrongPartCount(parts: nat)
    | NotDecimal(part: string)
    | OctetOutOfRange(part: string)

  // ---------------------------------------------------------------------------
  // Splitting at dots
  // ---------------------------------------------------------------------------

  /** The '.'-separated parts of `s`, in order; "" has the single part "". */
  function Split(s: string): seq<string>
    decreases |s|
  {
    if |s| == 0 then [""]
    else
      var rest := Split(s[1..]);
      if s[0] == '.' then [""] + rest
      else [[s[0]] + rest[0]] + rest[1..]
  }

  /** The parts written out with a '.' between neighbours. */
  function Join(parts: seq<string>): string
    requires |parts| >= 1
    decreases |parts|
  {
    if |parts| == 1 then parts[0] else parts[0] + "." + Join(parts[1..])
  }

  predicate DotFree(p: string) {
    forall i :: 0 <= i < |p| ==> p[i] != '.'
  }

  /** Splitting never loses a part and no part holds a dot. */
  lemma {:induction false} SplitParts(s: string)
    ensures |Split(s)| >= 1
    ensures forall i :: 0 <= i < |Split(s)| ==> DotFree(Split(s)[i])
    decreases |s|
  {
    if |s| > 0 {
      SplitParts(s[1..]);
      var rest := Split(s[1..]);
      if s[0] != '.' {
        assert DotFree([s[0]] + rest[0]) by {
          assert DotFree(rest[0]);
        }
        var r := Split(s);
        forall i | 0 <= i < |r|
          ensures DotFree(r[i])
        {
          if i > 0 {
            assert r[i] == rest[i];
          }
        }
      }
    }
  }

  /** A dot-free prefix joins the first part of whatever follows it. */
  lemma {:induction false} SplitDotFreePrefix(p: string, t: string)
    requires DotFree(p)
    ensures |Split(t)| >= 1
    ensures Split(p + t) == [p + Split(t)[0]] + Split(t)[1..]
    decreases |p|
  {
    SplitParts(t);
    if |p| > 0 {
      assert (p + t)[1..] == p[1..] + t;
      SplitDotFreePrefix(p[1..], t);
      assert [p[0]] + (p[1..] + Split(t)[0]) == p + Split(t)[0];
    } else {
      assert p + t == t;
      assert p + Split(t)[0] == Split(t)[0];
      assert Split(t) == [Split(t)[0]] + Split(t)[1..];
    }
  }

  /** Splitting a join of dot-free parts gives the parts back. */
  lemma {:induction false} SplitJoin(parts: seq<string>)
    requires |parts| >= 1
    requires forall i :: 0 <= i < |parts| ==> DotFree(parts[i])
    ensures Split(Join(parts)) == parts
    decreases |parts|
  {
    if |parts| == 1 {
      SplitDotFreePrefix(parts[0], "");
      assert parts[0] + "" == parts[0];
    } else {
      var t := "." + Join(parts[1..]);
      SplitJoin(parts[1..]);
      assert t[1..] == Join(parts[1..]);
      assert Split(t) == [""] + parts[1..];
      SplitDotFreePrefix(parts[0], t);
      assert parts[0] + "" == parts[0];
      assert Join(parts) == parts[0] + t;
    }
  }

  /** Joining the parts of any text gives the text back. */
  lemma {:induction false} JoinSplit(s: string)
    ensures |Split(s)| >= 1
    ensures Join(Split(s)) == s
    decreases |s|
  {
    SplitParts(s);
    if |s| > 0 {
      JoinSplit(s[1..]);
      var rest := Split(s[1..]);
      if s[0] == '.' {
        assert Split(s)[1..] == rest;
        assert s == "." + s[1..];
      } else {
        var r := Split(s);
        assert r[0] == [s[0]] + rest[0];
        if |rest| == 1 {
          assert s == [s[0]] + s[1..];
        } else {
          assert r[1..] == rest[1..];
          assert Join(rest) == rest[0] + "." + Join(rest[1..]);
          assert s == [s[0]] + s[1..];
        }
      }
    }
  }

  // ---------------------------------------------------------------------------
  // Text <-> octets
  // ---------------------------------------------------------------------------

  /** One component of a dotted quad: a canonical decimal numeral of at most 255. */
  function ParseOctet(p: string): Result<bv8, AddressError> {
    if !Decimal.IsCanonical(p) then Failure(NotDecimal(p))
    else if Decimal.Value(p) > 255 then Failure(OctetOutOfRange(p))
    else Success(Decimal.Value(p) as bv8)
  }

  /**
   * The strict dotted-quad reading of `s`: exactly four '.'-separated parts,
   * each a canonical decimal numeral of at most 255.
   */
  function ParseDottedQuad(s: string): (r: Result<Quad, AddressError>)
    ensures |Split(s)| != 4 ==> r == Failure(WrongPartCount(|Split(s)|))
    ensures r.Success? ==> && |Split(s)| == 4
                           && ParseOctet(Split(s)[0]) == Success(r.value.a)
                           && ParseOctet(Split(s)[1]) == Success(r.value.b)
                           && ParseOctet(Split(s)[2]) == Success(r.value.c)
                           && ParseOctet(Split(s)[3]) == Success(r.value.d)
  {
    var parts := Split(s);
    if |parts| != 4 then Failure(WrongPartCount(|parts|))
    else
      var a :- ParseOctet(parts[0]);
      var b :- ParseOctet(parts[1]);
      var c :- ParseOctet(parts[2]);
      var d :- ParseOctet(parts[3]);
      Success(Quad(a, b, c, d))
  }

  /** The canonical text of an address: four decimal octets joined by dots. */
  function Format(q: Quad): string {
    Join([Decimal.Digits(q.a as int), Decimal.Digits(q.b as int),
          Decimal.Digits(q.c as int), Decimal.Digits(q.d as int)])
  }

  lemma DigitsDotFree(n: nat)
    ensures DotFree(Decimal.Digits(n))
  {
  }

  /** The octet parser reads back every octet's numeral. */
  lemma ParseOctetDigits(o: bv8)
    ensures ParseOctet(Decimal.Digits(o as int)) == Success(o)
  {
  }

  /** Whatever the octet parser accepts is exactly the numeral of the octet it yields. */
  lemma ParseOctetCanonical(p: string, o: bv8)
    requires ParseOctet(p) == Success(o)
    ensures Decimal.Digits(o as int) == p
  {
    var v := Decimal.Value(p);
    assert (v as bv8) as int == v;
    Decimal.DigitsOfValue(p);
  }

  /** Parsing the canonical text of an address yields the address. */
  lemma ParseFormat(q: Quad)
    ensures ParseDottedQuad(Format(q)) == Success(q)
  {
    var parts := [Decimal.Digits(q.a as int), Decimal.Digits(q.b as int),
                  Decimal.Digits(q.c as int), Decimal.Digits(q.d as int)];
    DigitsDotFree(q.a as int);
    DigitsDotFree(q.b as int);
    DigitsDotFree(q.c as int);
    DigitsDotFree(q.d as int);
    SplitJoin(parts);
    ParseOctetDigits(q.a);
    ParseOctetDigits(q.b);
    ParseOctetDigits(q.c);
    ParseOctetDigits(q.d);
  }

  /** Every accepted text is the canonical text of the address it yields. */
  lemma FormatParse(s: string, q: Quad)
    requires ParseDottedQuad(s) == Success(q)
    ensures Format(q) == s
  {
    var parts := Split(s);
    JoinSplit(s);
    ParseOctetCanonical(parts[0], q.a);
    ParseOctetCanonical(parts[1], q.b);
    ParseOctetCanonical(parts[2], q.c);
    ParseOctetCanonical(parts[3], q.d);
    calc {
      Format(q);
      Join([parts[0], parts[1], parts[2], parts[3]]);
      { assert parts == [parts[0], parts[1], parts[2], parts[3]]; }
      Join(parts);
      s;
    }
  }

  /** The parser accepts exactly the canonical texts of addresses. */
  lemma ParseAcceptsExactlyDottedQuads(s: string)
    ensures ParseDottedQuad(s).Success? <==> exists q :: Format(q) == s
  {
    if ParseDottedQuad(s).Success? {
      FormatParse(s, ParseDottedQuad(s).value);
    }
    if q :| Format(q) == s {
      ParseFormat(q);
    }
  }

  // ---------------------------------------------------------------------------
  // Octets <-> 32-bit integer in network byte order
  // ---------------------------------------------------------------------------

  /** Two octets read as one big-endian 16-bit integer. */
  function Half(h: bv8, l: bv8): bv16 {
    (h as bv16 << 8) | l as bv16
  }

  /** Two 16-bit halves read as one big-endian 32-bit integer. */
  function Whole(h: bv16, l: bv16): bv32 {
    (h as bv32 << 16) | l as bv32
  }

  lemma HalfShifts(h: bv8, l: bv8)
    ensures ((h as bv16 << 8) | l as bv16) as int == h as int * 0x100 + l as int
  {
  }

  lemma WholeShifts(h: bv16, l: bv16)
    ensures ((h as bv32 << 16) | l as bv32) as int == h as int * 0x1_0000 + l as int
  {
  }

  lemma HalfValue(h: bv8, l: bv8)
    ensures Half(h, l) as int == h as int * 0x100 + l as int
  {
    var r := (h as bv16 << 8) | l as bv16;
    HalfShifts(h, l);
    assert Half(h, l) == r;
  }

  lemma WholeValue(h: bv16, l: bv16)
    ensures Whole(h, l) as int == h as int * 0x1_0000 + l as int
  {
    var r := (h as bv32 << 16) | l as bv32;
    WholeShifts(h, l);
    assert Whole(h, l) == r;
  }

  lemma PlaceValue(a: int, b: int, c: int, d: int, hi: int, lo: int)
    requires hi == a * 0x100 + b && lo == c * 0x100 + d
    ensures hi * 0x1_0000 + lo == a * 0x100_0000 + b * 0x1_0000 + c * 0x100 + d
  {
  }

  /**
   * `struct.unpack("!I", bytes)`: the four octets read as one big-endian
   * unsigned 32-bit integer.
   */
  function ToUint32(q: Quad): (x: bv32)
    ensures x >> 24 == q.a as bv32
    ensures (x >> 16) & 0xFF == q.b as bv32
    ensures (x >> 8) & 0xFF == q.c as bv32
    ensures x & 0xFF == q.d as bv32
  {
    Whole(Half(q.a, q.b), Half(q.c, q.d))
  }

  /**
   * The integer of a.b.c.d is a*2^24 + b*2^16 + c*2^8 + d (below 2^32): the
   * first octet is the most significant.
   */
  lemma ToUint32Value(q: Quad)
    ensures ToUint32(q) as int
            == q.a as int * 0x100_0000 + q.b as int * 0x1_0000 + q.c as int * 0x100 + q.d as int
    ensures ToUint32(q) as int < 0x1_0000_0000
  {
    var hi := Half(q.a, q.b);
    var lo := Half(q.c, q.d);
    HalfValue(q.a, q.b);
    HalfValue(q.c, q.d);
    WholeValue(hi, lo);
    PlaceValue(q.a as int, q.b as int, q.c as int, q.d as int, hi as int, lo as int);
  }

  /** `struct.pack("!I", x)`: the four octets of a 32-bit integer, most significant first. */
  function FromUint32(x: bv32): (q: Quad)
    ensures ToUint32(q) == x
  {
    Quad((x >> 24) as bv8, ((x >> 16) & 0xFF) as bv8,
         ((x >> 8) & 0xFF) as bv8, (x & 0xFF) as bv8)
  }

  /** Decoding the integer of an address returns its octets, so the encoding is injective. */
  lemma FromToUint32(q: Quad)
    ensures FromUint32(ToUint32(q)) == q
  {
  }

  /** `ip2uint32(address)`: parse the text, then read its octets as one integer. */
  function Ip2Uint32(address: string): (r: Result<bv32, AddressError>)
    ensures r.Success? <==> ParseDottedQuad(address).Success?
    ensures r.Failure? ==> r.error == ParseDottedQuad(address).error
    ensures r.Success? ==> FromUint32(r.value) == ParseDottedQuad(address).value
  {
    var q :- ParseDottedQuad(address);
    Success(ToUint32(q))
  }

  /**
   * A text the strict parser accepts (a canonical dotted quad) is recovered
   * from its integer: decoding the integer and writing it out in dotted form
   * gives the text back.
   */
  lemma Ip2Uint32RoundTrip(address: string, x: bv32)
    requires Ip2Uint32(address) == Success(x)
    ensures Format(FromUint32(x)) == address
  {
    var q := ParseDottedQuad(address).value;
    FromToUint32(q);
    FormatParse(address, q);
  }

  /** The canonical text of every address is accepted and encodes to the address's integer. */
  lemma Ip2Uint32OfFormat(q: Quad)
    ensures Ip2Uint32(Format(q)) == Success(ToUint32(q))
  {
    ParseFormat(q);
  }

  /** Two canonical dotted quads with the same integer are the same text. */
  lemma Ip2Uint32Injective(s1: string, s2: string)
    requires Ip2Uint32(s1).Success? && Ip2Uint32(s2).Success?
    requires s1 != s2
    ensures Ip2Uint32(s1).value != Ip2Uint32(s2).value
  {
    Ip2Uint32RoundTrip(s1, Ip2Uint32(s1).value);
    Ip2Uint32RoundTrip(s2, Ip2Uint32(s2).value);
  }

  /** Splitting a literal written as dot-free parts joined by dots. */
  lemma SplitLiteral(s: string, parts: seq<string>)
    requires |parts| >= 1
    requires forall i :: 0 <= i < |parts| ==> DotFree(parts[i])
    requires Join(parts) == s
    ensures Split(s) == parts
  {
    SplitJoin(parts);
  }

  /** Texts that are not strict dotted quads are refused rather than coerced. */
  lemma EmptyRejected()
    ensures ParseDottedQuad("") == Failure(WrongPartCount(1))
  {
  }

  lemma Ipv6LiteralRejected()
    ensures ParseDottedQuad("::1") == Failure(WrongPartCount(1))
  {
    SplitLiteral("::1", ["::1"]);
  }

  lemma FivePartsRejected()
    ensures ParseDottedQuad("1.2.3.4.5") == Failure(WrongPartCount(5))
  {
    SplitLiteral("1.2.3.4.5", ["1", "2", "3", "4", "5"]);
  }

  lemma LargeOctetRejected()
    ensures ParseDottedQuad("256.1.1.1") == Failure(OctetOutOfRange("256"))
  {
    SplitLiteral("256.1.1.1", ["256", "1", "1", "1"]);
    assert Decimal.Value("256") == 256 by {
      assert "256"[..2] == "25" && "25"[..1] == "2";
    }
  }

  /** Non-numeric parts, and parts with a leading zero (octal to `inet_aton`), are refused. */
  lemma NonDecimalRejected()
    ensures ParseDottedQuad("a.b.c.d") == Failure(NotDecimal("a"))
    ensures ParseDottedQuad("01.2.3.4") == Failure(NotDecimal("01"))
  {
    SplitLiteral("a.b.c.d", ["a", "b", "c", "d"]);
    SplitLiteral("01.2.3.4", ["01", "2", "3", "4"]);
  }

  /** A well-formed text is accepted with its octets in written order. */
  lemma WellFormedAccepted()
    ensures Ip2Uint32("10.0.0.1") == Success(0x0A00_0001)
  {
    var q := Quad(10, 0, 0, 1);
    ParseFormat(q);
    assert Decimal.Digits(0) == "0";
    assert Decimal.Digits(1) == "1";
    assert Decimal.Digits(10) == "10";
    assert Join(["0", "1"]) == "0.1";
    assert Join(["0", "0", "1"]) == "0.0.1";
    assert Format(q) == "10.0.0.1";
  }
}
