/** The response decoder: the part of `dnsLookup` after the response has
    arrived (dnsmess.c:189-252), as a pure function of the received bytes.

    The program reads the response into a 512-byte buffer zeroed beforehand,
    so every byte the decoder looks at below index 512 but at or past the
    received length reads as 0. It checks RCODE, then scans the buffer byte
    by byte for the pattern `0xC0 ?? ?? type` instead of walking the answer
    section: for A it prints the four bytes 12 past a match, for PTR it
    skips `buf[i+1]` bytes and walks a name, following `0xC0` and `0xC1`
    pointers with a single remembered resume position.

    Where the C code would read outside the buffer, or run forever, the
    model answers `Malformed` instead: every index is checked against 512,
    and the name walk and the PTR scan each carry a step budget. */
module Response {
  import opened Bytes
  import opened Names
  import opened Ipv4
  import opened Query

  /** The receive buffer after `memset` and `recvfrom` (dnsmess.c:150-155,
      177): the bytes that arrived, then zeros up to BUFFER_SIZE. */
  function ZeroFilled(received: seq<byte>): (buf: seq<byte>)
    requires |received| <= BufferSize
    ensures |buf| == BufferSize
    ensures buf[..|received|] == received
    ensures forall x :: |received| <= x < BufferSize ==> buf[x] == 0
  {
    received + seq(BufferSize - |received|, _ => 0)
  }

  /** The decoder's view: the whole buffer and `rec`, the number of bytes
      that arrived. */
  predicate IsBuffer(buf: seq<byte>, rec: nat) {
    |buf| == BufferSize && rec <= BufferSize
  }

  /** RCODE, `buf[3] & 0x0F`: the low four bits of the second flags byte
      (section 4.1.1 of RFC 1035). */
  function HeaderRcode(buf: seq<byte>): byte
    requires |buf| == BufferSize
  {
    buf[3] % 16
  }

  const ServFail: byte := 2
  const NxDomain: byte := 3

  /** One answer as the program prints it (dnsmess.c:208, 227-240). */
  datatype Record = IPv4(addr: Address) | Domain(labels: seq<Label>) {
    /** The printed line: `%u.%u.%u.%u`, or the labels joined by dots. */
    function Line(): seq<byte> {
      match this
      case IPv4(addr) => Text(addr)
      case Domain(labels) => Dotted(labels)
    }
  }

  /** What `dnsLookup` reports once the response is in hand. */
  datatype Outcome =
    | ServerFailure            // RCODE 2, "returned SERVFAIL"
    | NameError                // RCODE 3, "returned NXDOMAIN"
    | NoRecords                // the scan found no record of the query's type
    | Found(records: seq<Record>)
    | Malformed                // the C code would read outside the buffer or not stop

  /** `dnsLookup`'s result: 0 on success, -1 otherwise (dnsmess.h:32-38). */
  function Status(o: Outcome): int {
    if o.Found? then 0 else -1
  }

  // ---------------------------------------------------------------------
  // The scan pattern

  /** The pattern the scan looks for at `i`: 0xC0, two bytes, then `code`. */
  predicate IsMatch(buf: seq<byte>, i: nat, code: byte)
    requires |buf| == BufferSize
  {
    i + 3 < BufferSize && buf[i] == 0xC0 && buf[i + 3] == code
  }

  /** A 0xC0 so close to the end that testing the pattern reads past it. */
  predicate Overrun(buf: seq<byte>, i: nat)
    requires |buf| == BufferSize
  {
    i < BufferSize && buf[i] == 0xC0 && i + 3 >= BufferSize
  }

  /** No position in [lo, hi) matches, and testing none overruns. */
  predicate NoMatchIn(buf: seq<byte>, lo: nat, hi: nat, code: byte)
    requires |buf| == BufferSize
  {
    forall p :: lo <= p < hi ==> !Overrun(buf, p) && !IsMatch(buf, p, code)
  }

  // ---------------------------------------------------------------------
  // A records (dnsmess.c:203-216)

  /** The positions of the A-record matches the scan reports, in scan
      order, scanning from `i`. After a match at `p` the scan resumes at
      `p + 13`. None if a read would leave the buffer. */
  function AScan(buf: seq<byte>, rec: nat, i: nat): (r: Option<seq<nat>>)
    requires IsBuffer(buf, rec)
    ensures r.Some? ==>
      forall n :: 0 <= n < |r.value| ==>
        && i <= r.value[n] < rec
        && r.value[n] + 16 <= BufferSize
        && IsMatch(buf, r.value[n], A.Code())
    decreases BufferSize - i
  {
    if i >= rec then Some([])
    else if buf[i] != 0xC0 then AScan(buf, rec, i + 1)
    else if i + 3 >= BufferSize then None
    else if buf[i + 3] != A.Code() then AScan(buf, rec, i + 1)
    else if i + 16 > BufferSize then None
    else
      match AScan(buf, rec, i + 13)
      case None => None
      case Some(ps) => Some([i] + ps)
  }

  /** The address printed for a match at `p`: the four bytes at p+12. */
  function AddressAt(buf: seq<byte>, p: nat): Address
    requires |buf| == BufferSize && p + 16 <= BufferSize
  {
    Address(buf[p + 12], buf[p + 13], buf[p + 14], buf[p + 15])
  }

  // ---------------------------------------------------------------------
  // PTR records (dnsmess.c:219-250)

  /** Labels the name walk may emit for one record. A walk's state is its
      position and its remembered pointer position, so a walk longer than
      this repeats a state; the C loop would then never stop. */
  const WalkFuel: nat := BufferSize * BufferSize

  /** Records the PTR scan may decode. A record's walk is determined by
      its match position, so a scan decoding more repeats a position; the
      C loop would then never stop. */
  const ScanFuel: nat := BufferSize

  /** A finished walk: the labels emitted and where it leaves the scan
      cursor `i` (the outer loop's `i++` comes on top). */
  datatype Walked = Walked(labels: seq<Label>, cursor: nat)

  /** The `while (1)` loop of dnsmess.c:225-241 from position `i` with
      remembered pointer position `k` (0 when none). Each step reads a
      length byte and that many label bytes; the byte after the label is
      then a terminator (0x00), a pointer (0xC0 to `buf[p+1]`, 0xC1 to
      `(rec+1) - buf[p+1]`, remembered in `k`), or the next length byte.
      Pointers are only recognised after a label, so the first byte and the
      byte a pointer lands on are always read as lengths. */
  function WalkName(buf: seq<byte>, rec: nat, i: int, k: nat, fuel: nat): (r: Option<Walked>)
    requires IsBuffer(buf, rec)
    ensures r.Some? ==> 1 <= |r.value.labels|
    decreases fuel
  {
    if fuel == 0 || i < 0 || i >= BufferSize then None
    else
      var e := i + 1 + buf[i] as int;
      if e >= BufferSize then None
      else
        var text := buf[i + 1..e];
        if buf[e] == 0x00 then
          Some(Walked([text], if k != 0 then k + 1 else e))
        else if buf[e] == 0xC0 || buf[e] == 0xC1 then
          if e + 1 >= BufferSize then None
          else
            PrependAll([text], WalkName(buf, rec, PointerTarget(buf, rec, e), e, fuel - 1))
        else
          PrependAll([text], WalkName(buf, rec, e, k, fuel - 1))
  }

  /** Where the pointer at `p` sends the walk (dnsmess.c:238): `buf[p+1]`
      after 0xC0, `(rec+1) - buf[p+1]` after 0xC1. The latter is not the
      pointer format of section 4.1.4 of RFC 1035 and may be negative. */
  function PointerTarget(buf: seq<byte>, rec: nat, p: nat): int
    requires |buf| == BufferSize && p + 1 < BufferSize
  {
    if buf[p] == 0xC0 then buf[p + 1] as int else (rec + 1) - buf[p + 1] as int
  }

  /** The labels `ls` in front of a finished walk's labels. */
  function PrependAll(ls: seq<Label>, r: Option<Walked>): Option<Walked> {
    match r
    case None => None
    case Some(w) => Some(Walked(ls + w.labels, w.cursor))
  }

  /** The names of the PTR records the scan reports, in scan order,
      scanning from `i`. A match at `i` is walked from `i + buf[i+1]`, and
      the scan resumes one past where the walk leaves its cursor. */
  function PtrScan(buf: seq<byte>, rec: nat, i: nat, fuel: nat): (r: Option<seq<seq<Label>>>)
    requires IsBuffer(buf, rec)
    ensures r.Some? ==> |r.value| <= fuel
    ensures r.Some? ==> forall n :: 0 <= n < |r.value| ==> |r.value[n]| >= 1
    decreases fuel, BufferSize - i
  {
    if i >= rec then Some([])
    else if buf[i] != 0xC0 then PtrScan(buf, rec, i + 1, fuel)
    else if i + 3 >= BufferSize then None
    else if buf[i + 3] != PTR.Code() then PtrScan(buf, rec, i + 1, fuel)
    else if fuel == 0 then None
    else
      match WalkName(buf, rec, i + buf[i + 1] as int, 0, WalkFuel)
      case None => None
      case Some(w) =>
        match PtrScan(buf, rec, w.cursor + 1, fuel - 1)
        case None => None
        case Some(names) => Some([w.labels] + names)
  }

  // ---------------------------------------------------------------------
  // The whole decoder

  /** The records the scan for `qtype` reports, or None if it faults. */
  function Scan(buf: seq<byte>, rec: nat, qtype: RecordType): Option<seq<Record>>
    requires IsBuffer(buf, rec)
  {
    match qtype
    case A =>
      (match AScan(buf, rec, 0)
       case None => None
       case Some(ps) => Some(seq(|ps|, n requires 0 <= n < |ps| => IPv4(AddressAt(buf, ps[n])))))
    case PTR =>
      (match PtrScan(buf, rec, 0, ScanFuel)
       case None => None
       case Some(names) => Some(seq(|names|, n requires 0 <= n < |names| => Domain(names[n]))))
  }

  /** Decodes the `received` bytes of a response to a query of type
      `qtype`. RCODE 2 and 3 end the decoding before any scan; any other
      RCODE goes on to the scan (dnsmess.c:190-200). */
  function Decode(received: seq<byte>, qtype: RecordType): (o: Outcome)
    requires |received| <= BufferSize
    ensures o == ServerFailure <==> |received| > 3 && received[3] % 16 == ServFail
    ensures o == NameError <==> |received| > 3 && received[3] % 16 == NxDomain
    ensures o.Found? ==>
      && |o.records| > 0
      && forall n :: 0 <= n < |o.records| ==> (o.records[n].IPv4? <==> qtype == A)
  {
    var buf := ZeroFilled(received);
    var rec := |received|;
    assert |received| <= 3 ==> buf[3] == 0;
    assert |received| > 3 ==> buf[3] == received[3];
    var rcode := HeaderRcode(buf);
    if rcode == ServFail then ServerFailure
    else if rcode == NxDomain then NameError
    else
      match Scan(buf, rec, qtype)
      case None => Malformed
      case Some(records) => if records == [] then NoRecords else Found(records)
  }

  /** `dnsLookup`'s return value once the response has arrived. */
  function Lookup(received: seq<byte>, qtype: RecordType): (status: int)
    requires |received| <= BufferSize
    ensures status == 0 || status == -1
    ensures status == 0 <==> Decode(received, qtype).Found?
  {
    Status(Decode(received, qtype))
  }
}
