/** The query builder, `createQuery` (dnsmess.c:96-137).

    A query is the fixed 12-byte header of section 4.1.1 of RFC 1035
    followed by one question (section 4.1.2): the name as a label sequence,
    QTYPE and QCLASS. An argument that reads as an IPv4 address becomes a
    reverse (PTR) lookup of `d.c.b.a.in-addr.arpa` (section 3.5 of RFC 1035);
    anything else is a forward (A) lookup of the argument itself. */
module Query {
  import opened Bytes
  import opened Names
  import opened Ipv4

  /** The two lookups the program performs (dnsmess.h:7). */
  datatype RecordType = A | PTR {
    /** The QTYPE / TYPE value on the wire. */
    function Code(): byte {
      if A? then 0x01 else 0x0C
    }
  }

  /** ID 0x474C, flags 0x0100 (RD set), QDCOUNT 1, ANCOUNT, NSCOUNT and
      ARCOUNT 0, all big-endian (dnsmess.c:109). */
  const Header: seq<byte> := [0x47, 0x4C, 0x01, 0x00, 0x00, 0x01, 0x00, 0x00, 0x00, 0x00, 0x00, 0x00]

  const HeaderSize: nat := 12

  /** "in-addr" */
  const InAddr: seq<byte> := [0x69, 0x6E, 0x2D, 0x61, 0x64, 0x64, 0x72]

  /** "arpa" */
  const Arpa: seq<byte> := [0x61, 0x72, 0x70, 0x61]

  /** The DNS_QUERY record (dnsmess.h:5-10): the argument as given, the
      lookup type, and the message bytes (`len` is `|bytes|`). */
  datatype DnsQuery = DnsQuery(request: seq<byte>, qtype: RecordType, bytes: seq<byte>)

  /** What every built query satisfies: it fits the BUFFER_SIZE array, opens
      with the fixed header and closes with a zero byte, QTYPE and QCLASS IN. */
  predicate Valid(q: DnsQuery) {
    var n := |q.bytes|;
    && HeaderSize + 5 <= n <= BufferSize
    && q.bytes[..HeaderSize] == Header
    && q.bytes[n - 5..] == [0x00, 0x00, q.qtype.Code(), 0x00, 0x01]
  }

  function LookupType(domain: seq<byte>): RecordType {
    if IsDottedQuad(domain) then PTR else A
  }

  /** `inet_ntoa` of the byte-swapped address followed by ".in-addr.arpa"
      (dnsmess.c:113-115). */
  function ReverseName(addr: Address): seq<byte> {
    Text(Address(addr.d, addr.c, addr.b, addr.a)) + [Dot] + InAddr + [Dot] + Arpa
  }

  /** The text the builder cuts into labels. */
  function QueryName(domain: seq<byte>): seq<byte> {
    match ParseAddress(domain)
    case Some(addr) => ReverseName(addr)
    case None => domain
  }

  /** The question's labels, as `strtok` yields them. */
  function QuestionLabels(domain: seq<byte>): seq<Label> {
    Split(QueryName(domain))
  }

  /** `len` after the builder finishes: header, encoded name, QTYPE, QCLASS. */
  function QueryLength(domain: seq<byte>): nat {
    HeaderSize + WireLength(QuestionLabels(domain)) + 4
  }

  /** Builds the query for `domain`. The source writes into a BUFFER_SIZE
      array without checking, so the caller must keep the message within it. */
  function CreateQuery(domain: seq<byte>): (q: DnsQuery)
    requires QueryLength(domain) <= BufferSize
    ensures Valid(q)
    ensures q.request == domain
    ensures q.qtype == (if IsDottedQuad(domain) then PTR else A)
    ensures |q.bytes| == QueryLength(domain)
  {
    var t := LookupType(domain);
    var name := EncodeLabels(QuestionLabels(domain));
    var bytes := Header + name + [0x00, t.Code(), 0x00, 0x01];
    assert bytes[..HeaderSize] == Header;
    assert bytes[|bytes| - 5..] == [name[|name| - 1], 0x00, t.Code(), 0x00, 0x01];
    DnsQuery(domain, t, bytes)
  }

  // ---------------------------------------------------------------------

  lemma SuffixLabels()
    ensures NonEmptyDotFree([InAddr, Arpa])
  {
  }

  /** For an address a.b.c.d the question asks for d.c.b.a.in-addr.arpa:
      the user's four groups in reverse order, then "in-addr" and "arpa". */
  lemma ReverseLookupLabels(domain: seq<byte>)
    requires IsDottedQuad(domain)
    ensures var addr := ParseAddress(domain).value;
      QuestionLabels(domain) ==
        [Decimal(addr.d as nat), Decimal(addr.c as nat), Decimal(addr.b as nat), Decimal(addr.a as nat), InAddr, Arpa]
    ensures var fs := Fields(domain);
      QuestionLabels(domain) == [fs[3], fs[2], fs[1], fs[0], InAddr, Arpa]
  {
    var addr := ParseAddress(domain).value;
    var rev := Address(addr.d, addr.c, addr.b, addr.a);
    var gs := Groups(rev);
    var all := gs + [InAddr, Arpa];
    DottedAppend(gs, [InAddr, Arpa]);
    DottedAppend([InAddr], [Arpa]);
    assert Dotted([InAddr] + [Arpa]) == InAddr + [Dot] + Arpa;
    assert [InAddr] + [Arpa] == [InAddr, Arpa];
    assert ReverseName(addr) == Dotted(all);
    SuffixLabels();
    assert NonEmptyDotFree(all);
    SplitDotted(all);
    TextParse(domain);
  }

  /** Anything that is not a dotted quad is looked up as given: the built
      message carries the argument's `strtok` components as its question
      name and QTYPE 1. */
  lemma ForwardLookupLabels(domain: seq<byte>)
    requires !IsDottedQuad(domain)
    ensures QuestionLabels(domain) == Split(domain)
    ensures QueryLength(domain) <= BufferSize ==>
      var q := CreateQuery(domain);
      && q.qtype == A
      && q.bytes[|q.bytes| - 3] == 0x01
      && ((forall n :: 0 <= n < |Split(domain)| ==> |Split(domain)[n]| < 256) ==>
            ReadLabels(q.bytes, HeaderSize) == Some((Split(domain), |q.bytes| - 5)))
  {
    if QueryLength(domain) <= BufferSize {
      var q := CreateQuery(domain);
      assert q.bytes[|q.bytes| - 5..][2] == q.bytes[|q.bytes| - 3];
      if forall n :: 0 <= n < |Split(domain)| ==> |Split(domain)[n]| < 256 {
        QueryRoundTrip(domain);
      }
    }
  }

  /** A reverse query always fits the buffer: the only way to exceed it is
      a forward name that is too long. */
  lemma ReverseQueryFits(domain: seq<byte>)
    requires IsDottedQuad(domain)
    ensures QueryLength(domain) <= 46
  {
    ReverseLookupLabels(domain);
    var addr := ParseAddress(domain).value;
    var ls := QuestionLabels(domain);
    forall n | 0 <= n < 4
      ensures |ls[n]| <= 3
    {
      var x := if n == 0 then addr.d else if n == 1 then addr.c else if n == 2 then addr.b else addr.a;
      assert ls[n] == Decimal(x as nat);
    }
    assert WireLength(ls[5..]) == 1 + |Arpa| + WireLength([]);
    assert WireLength(ls[4..]) == 1 + |InAddr| + WireLength(ls[5..]);
    assert WireLength(ls[3..]) == 1 + |ls[3]| + WireLength(ls[4..]);
    assert WireLength(ls[2..]) == 1 + |ls[2]| + WireLength(ls[3..]);
    assert WireLength(ls[1..]) == 1 + |ls[1]| + WireLength(ls[2..]);
    assert WireLength(ls) == 1 + |ls[0]| + WireLength(ls[1..]);
  }

  /** Reading the question from offset 12 gives back exactly the labels
      that were encoded, ending at the zero byte just before QTYPE. */
  lemma QueryRoundTrip(domain: seq<byte>)
    requires QueryLength(domain) <= BufferSize
    requires forall n :: 0 <= n < |QuestionLabels(domain)| ==> |QuestionLabels(domain)[n]| < 256
    ensures ReadLabels(CreateQuery(domain).bytes, HeaderSize) ==
              Some((QuestionLabels(domain), |CreateQuery(domain).bytes| - 5))
  {
    var q := CreateQuery(domain);
    var ls := QuestionLabels(domain);
    var name := EncodeLabels(ls);
    var tail: seq<byte> := [0x00, q.qtype.Code(), 0x00, 0x01];
    assert q.bytes == Header + name + tail;
    MiddleSlice(Header, name, tail);
    var z := HeaderSize + WireLength(ls) - 1;
    assert z == |q.bytes| - 5;
    assert ReadLabels(q.bytes, HeaderSize) == Some((ls, z)) by {
      ReadEncoded(q.bytes, HeaderSize, ls);
    }
  }

  lemma MiddleSlice(x: seq<byte>, y: seq<byte>, z: seq<byte>)
    ensures (x + y + z)[|x|..|x| + |y|] == y
  {
  }
}
