/** What the decoder's scans report, stated independently of how they
    compute it, and the RCODE rules. */
module ScanProperties {
  import opened Bytes
  import opened Names
  import opened Ipv4
  import opened Query
  import opened Response

  // ---------------------------------------------------------------------
  // RCODE (dnsmess.c:155, 190-200)

  /** RCODE is the low four bits of the fourth byte received, and 0 when
      fewer than four bytes arrived, because the buffer was zeroed. */
  lemma RcodeOfReceived(received: seq<byte>)
    requires |received| <= BufferSize
    ensures |received| < 4 ==> HeaderRcode(ZeroFilled(received)) == 0
    ensures |received| >= 4 ==> HeaderRcode(ZeroFilled(received)) == received[3] % 16
  {
    var buf := ZeroFilled(received);
    if |received| >= 4 {
      assert buf[..|received|][3] == received[3];
    }
  }

  /** SERVFAIL and NXDOMAIN depend on the first four bytes only: nothing
      after them, not even the query type, changes the outcome. */
  lemma RcodeShortCircuits(r1: seq<byte>, r2: seq<byte>, t1: RecordType, t2: RecordType)
    requires |r1| <= BufferSize && |r2| <= BufferSize
    requires |r1| >= 4 && |r2| >= 4 && r1[3] == r2[3]
    requires r1[3] % 16 == ServFail || r1[3] % 16 == NxDomain
    ensures Decode(r1, t1) == Decode(r2, t2)
    ensures Decode(r1, t1) == ServerFailure || Decode(r1, t1) == NameError
  {
  }

  /** Any other RCODE goes on to the scan: the outcome is then neither
      SERVFAIL nor NXDOMAIN, it is "no record" exactly when nothing in the
      received bytes matches the query's type, and a forward lookup can only
      fault on a 0xC0 byte among the last 15 buffer positions. */
  lemma OtherRcodesScan(received: seq<byte>, qtype: RecordType)
    requires |received| <= BufferSize
    requires HeaderRcode(ZeroFilled(received)) != ServFail
    requires HeaderRcode(ZeroFilled(received)) != NxDomain
    ensures Decode(received, qtype) != ServerFailure && Decode(received, qtype) != NameError
    ensures Decode(received, qtype) == NoRecords <==> NoMatchIn(ZeroFilled(received), 0, |received|, qtype.Code())
    ensures qtype == A && Decode(received, qtype) == Malformed ==>
      exists p :: 0 <= p < |received| && BufferSize < p + 16 && ZeroFilled(received)[p] == 0xC0
  {
    var buf := ZeroFilled(received);
    DecodeNoRecords(received, qtype);
    if qtype == A && Decode(received, qtype) == Malformed {
      AScanFault(buf, |received|, 0);
    }
  }

  // ---------------------------------------------------------------------
  // Zero matches

  /** The A scan reports nothing exactly when no position from `i` matches
      and none is a 0xC0 too close to the end to test. */
  lemma {:induction false} AScanEmpty(buf: seq<byte>, rec: nat, i: nat)
    requires IsBuffer(buf, rec)
    ensures AScan(buf, rec, i) == Some([]) <==> NoMatchIn(buf, i, rec, A.Code())
    decreases BufferSize - i
  {
    if i < rec {
      AScanEmpty(buf, rec, i + 1);
      if !Overrun(buf, i) && !IsMatch(buf, i, A.Code()) {
        assert AScan(buf, rec, i) == AScan(buf, rec, i + 1);
        assert NoMatchIn(buf, i, rec, A.Code()) <==> NoMatchIn(buf, i + 1, rec, A.Code());
      } else {
        assert AScan(buf, rec, i) != Some([]);
        assert !NoMatchIn(buf, i, rec, A.Code());
      }
    }
  }

  /** Likewise for the PTR scan, whatever its budget. */
  lemma {:induction false} PtrScanEmpty(buf: seq<byte>, rec: nat, i: nat, fuel: nat)
    requires IsBuffer(buf, rec)
    ensures PtrScan(buf, rec, i, fuel) == Some([]) <==> NoMatchIn(buf, i, rec, PTR.Code())
    decreases BufferSize - i
  {
    if i < rec {
      PtrScanEmpty(buf, rec, i + 1, fuel);
      if !Overrun(buf, i) && !IsMatch(buf, i, PTR.Code()) {
        assert PtrScan(buf, rec, i, fuel) == PtrScan(buf, rec, i + 1, fuel);
        assert NoMatchIn(buf, i, rec, PTR.Code()) <==> NoMatchIn(buf, i + 1, rec, PTR.Code());
      } else {
        assert PtrScan(buf, rec, i, fuel) != Some([]);
        assert !NoMatchIn(buf, i, rec, PTR.Code());
      }
    }
  }

  /** "No record found" (dnsmess.c:212-215, 246-249): the RCODE is neither
      2 nor 3 and nothing in the received bytes matches the query's type. */
  lemma DecodeNoRecords(received: seq<byte>, qtype: RecordType)
    requires |received| <= BufferSize
    ensures var buf := ZeroFilled(received);
      Decode(received, qtype) == NoRecords <==>
        && HeaderRcode(buf) != ServFail && HeaderRcode(buf) != NxDomain
        && NoMatchIn(buf, 0, |received|, qtype.Code())
  {
    var buf := ZeroFilled(received);
    AScanEmpty(buf, |received|, 0);
    PtrScanEmpty(buf, |received|, 0, ScanFuel);
  }

  /** `dnsLookup` returns 0 exactly when the RCODE is neither SERVFAIL nor
      NXDOMAIN, the scan does not fault, and some position of the received
      bytes matches the query's type (dnsmess.h:32-38). */
  lemma LookupContract(received: seq<byte>, qtype: RecordType)
    requires |received| <= BufferSize
    ensures var buf := ZeroFilled(received);
      Lookup(received, qtype) == 0 <==>
        && HeaderRcode(buf) != ServFail && HeaderRcode(buf) != NxDomain
        && Scan(buf, |received|, qtype).Some?
        && !NoMatchIn(buf, 0, |received|, qtype.Code())
  {
    var buf := ZeroFilled(received);
    AScanEmpty(buf, |received|, 0);
    PtrScanEmpty(buf, |received|, 0, ScanFuel);
  }

  // ---------------------------------------------------------------------
  // The A scan, declaratively

  /** A match at `p` lies within the 12 bytes the scan skips after some
      reported match. */
  predicate Shadowed(ps: seq<nat>, p: nat) {
    exists n :: 0 <= n < |ps| && ps[n] < p <= ps[n] + 12
  }

  /** `ps` is what a left-to-right scan from `i` that skips 12 bytes after
      each hit must report: hits in increasing order at least 13 apart, each
      a match, and every match from `i` on either reported or skipped. */
  predicate ScanOrder(buf: seq<byte>, rec: nat, i: nat, ps: seq<nat>)
    requires IsBuffer(buf, rec)
  {
    && (forall n :: 0 <= n < |ps| ==> i <= ps[n] < rec && IsMatch(buf, ps[n], A.Code()))
    && (forall a, b :: 0 <= a < b < |ps| ==> ps[a] + 13 <= ps[b])
    && (forall p :: i <= p < rec && IsMatch(buf, p, A.Code()) ==> p in ps || Shadowed(ps, p))
  }

  lemma {:induction false} AScanInOrder(buf: seq<byte>, rec: nat, i: nat)
    requires IsBuffer(buf, rec)
    requires AScan(buf, rec, i).Some?
    ensures ScanOrder(buf, rec, i, AScan(buf, rec, i).value)
    decreases BufferSize - i
  {
    if i >= rec {
    } else if buf[i] != 0xC0 || buf[i + 3] != A.Code() {
      AScanInOrder(buf, rec, i + 1);
      SkipInOrder(buf, rec, i, AScan(buf, rec, i + 1).value);
    } else {
      AScanInOrder(buf, rec, i + 13);
      ConsInOrder(buf, rec, i, AScan(buf, rec, i + 13).value);
    }
  }

  /** A position that does not match adds nothing to the report. */
  lemma SkipInOrder(buf: seq<byte>, rec: nat, i: nat, ps: seq<nat>)
    requires IsBuffer(buf, rec) && i < rec
    requires !IsMatch(buf, i, A.Code())
    requires ScanOrder(buf, rec, i + 1, ps)
    ensures ScanOrder(buf, rec, i, ps)
  {
  }

  /** A match is reported, and covers the 12 positions after it. */
  lemma ConsInOrder(buf: seq<byte>, rec: nat, i: nat, qs: seq<nat>)
    requires IsBuffer(buf, rec) && i < rec
    requires IsMatch(buf, i, A.Code())
    requires ScanOrder(buf, rec, i + 13, qs)
    ensures ScanOrder(buf, rec, i, [i] + qs)
  {
    var ps := [i] + qs;
    forall n | 0 <= n < |ps|
      ensures i <= ps[n] < rec && IsMatch(buf, ps[n], A.Code())
    {
      if n > 0 {
        assert ps[n] == qs[n - 1];
      }
    }
    forall a, b | 0 <= a < b < |ps|
      ensures ps[a] + 13 <= ps[b]
    {
      assert ps[b] == qs[b - 1];
      if a > 0 {
        assert ps[a] == qs[a - 1];
      }
    }
    forall p | i <= p < rec && IsMatch(buf, p, A.Code())
      ensures p in ps || Shadowed(ps, p)
    {
      if p == i {
        assert ps[0] == p;
      } else if p <= i + 12 {
        assert ps[0] < p <= ps[0] + 12;
      } else if p in qs {
        var n :| 0 <= n < |qs| && qs[n] == p;
        assert ps[n + 1] == p;
      } else {
        var n :| 0 <= n < |qs| && qs[n] < p <= qs[n] + 12;
        assert ps[n + 1] == qs[n];
      }
    }
  }

  lemma {:induction false} ScanOrderUnique(buf: seq<byte>, rec: nat, i: nat, ps1: seq<nat>, ps2: seq<nat>)
    requires IsBuffer(buf, rec)
    requires ScanOrder(buf, rec, i, ps1) && ScanOrder(buf, rec, i, ps2)
    ensures ps1 == ps2
    decreases |ps1| + |ps2|
  {
    if ps1 == [] && ps2 != [] {
      FirstHitCovered(buf, rec, i, ps2, ps1);
    } else if ps1 != [] && ps2 == [] {
      FirstHitCovered(buf, rec, i, ps1, ps2);
    } else if ps1 != [] {
      var x, y := ps1[0], ps2[0];
      FirstHitCovered(buf, rec, i, ps1, ps2);
      FirstHitCovered(buf, rec, i, ps2, ps1);
      TailInOrder(buf, rec, i, ps1);
      TailInOrder(buf, rec, i, ps2);
      ScanOrderUnique(buf, rec, x + 13, ps1[1..], ps2[1..]);
      assert ps1 == [x] + ps1[1..] && ps2 == [y] + ps2[1..];
    }
  }

  /** The first hit of one valid report cannot come before the first hit of
      another: it would have to be reported or skipped by the other. */
  lemma FirstHitCovered(buf: seq<byte>, rec: nat, i: nat, ps: seq<nat>, qs: seq<nat>)
    requires IsBuffer(buf, rec)
    requires ScanOrder(buf, rec, i, ps) && ScanOrder(buf, rec, i, qs) && ps != []
    ensures qs != [] && qs[0] <= ps[0]
  {
    var x := ps[0];
    assert x in qs || Shadowed(qs, x);
    if x in qs {
      var n :| 0 <= n < |qs| && qs[n] == x;
      if n > 0 {
        assert qs[0] + 13 <= qs[n];
      }
    } else {
      var n :| 0 <= n < |qs| && qs[n] < x <= qs[n] + 12;
      if n > 0 {
        assert qs[0] + 13 <= qs[n];
      }
    }
  }

  /** After the first hit the rest is what the scan from 13 bytes on reports. */
  lemma TailInOrder(buf: seq<byte>, rec: nat, i: nat, ps: seq<nat>)
    requires IsBuffer(buf, rec)
    requires ScanOrder(buf, rec, i, ps) && ps != []
    ensures ScanOrder(buf, rec, ps[0] + 13, ps[1..])
  {
    var qs := ps[1..];
    forall n | 0 <= n < |qs|
      ensures ps[0] + 13 <= qs[n]
    {
      assert qs[n] == ps[n + 1];
    }
    forall p | ps[0] + 13 <= p < rec && IsMatch(buf, p, A.Code())
      ensures p in qs || Shadowed(qs, p)
    {
      if p in ps {
        var n :| 0 <= n < |ps| && ps[n] == p;
        assert qs[n - 1] == p;
      } else {
        var n :| 0 <= n < |ps| && ps[n] < p <= ps[n] + 12;
        assert qs[n - 1] == ps[n];
      }
    }
  }

  /** The A scan reports exactly the one sequence of hits a left-to-right
      scan skipping 12 bytes after each hit must report (dnsmess.c:205-210). */
  lemma AScanCharacterised(buf: seq<byte>, rec: nat, i: nat)
    requires IsBuffer(buf, rec)
    requires AScan(buf, rec, i).Some?
    ensures ScanOrder(buf, rec, i, AScan(buf, rec, i).value)
    ensures forall qs :: ScanOrder(buf, rec, i, qs) ==> qs == AScan(buf, rec, i).value
  {
    AScanInOrder(buf, rec, i);
    forall qs | ScanOrder(buf, rec, i, qs)
      ensures qs == AScan(buf, rec, i).value
    {
      ScanOrderUnique(buf, rec, i, qs, AScan(buf, rec, i).value);
    }
  }

  /** The A scan faults only on a 0xC0 byte among the last 15 positions of
      a long response, where the C code would read past the buffer. */
  lemma {:induction false} AScanFault(buf: seq<byte>, rec: nat, i: nat)
    requires IsBuffer(buf, rec)
    requires AScan(buf, rec, i).None?
    ensures exists p :: i <= p < rec && BufferSize < p + 16 && buf[p] == 0xC0
    decreases BufferSize - i
  {
    if buf[i] != 0xC0 || (i + 3 < BufferSize && buf[i + 3] != A.Code()) {
      AScanFault(buf, rec, i + 1);
    } else if i + 16 <= BufferSize {
      AScanFault(buf, rec, i + 13);
    }
  }

  /** A forward lookup succeeds with the addresses at offset 12 of the hits
      of the scan, in order, and those hits are the ones `ScanOrder` fixes. */
  lemma DecodeAddresses(received: seq<byte>)
    requires |received| <= BufferSize
    requires Decode(received, A).Found?
    ensures var buf := ZeroFilled(received);
      var rs := Decode(received, A).records;
      exists ps :: ScanOrder(buf, |received|, 0, ps) && |ps| == |rs| &&
        forall n :: 0 <= n < |ps| ==> ps[n] + 16 <= BufferSize && rs[n] == IPv4(AddressAt(buf, ps[n]))
  {
    var buf := ZeroFilled(received);
    AScanCharacterised(buf, |received|, 0);
    var ps := AScan(buf, |received|, 0).value;
    assert ScanOrder(buf, |received|, 0, ps);
  }

  /** Positions that do not match are stepped over one by one. */
  lemma {:induction false} AScanSkip(buf: seq<byte>, rec: nat, i: nat, j: nat)
    requires IsBuffer(buf, rec) && i <= j <= rec
    requires NoMatchIn(buf, i, j, A.Code())
    ensures AScan(buf, rec, i) == AScan(buf, rec, j)
    decreases j - i
  {
    if i < j {
      assert !Overrun(buf, i) && !IsMatch(buf, i, A.Code());
      assert AScan(buf, rec, i) == AScan(buf, rec, i + 1);
      AScanSkip(buf, rec, i + 1, j);
    }
  }

  /** A standard A answer (owner `C0 0C`, TYPE 1, CLASS, TTL, RDLENGTH 4,
      section 4.1.3 of RFC 1035) starting at `p` keeps its RDATA at p+12,
      which is where the scan reads the address. When it is the only
      answer the scan sees, that address is the whole result. */
  lemma DecodeOneAddress(received: seq<byte>, p: nat)
    requires |received| <= BufferSize
    requires var buf := ZeroFilled(received);
      && HeaderRcode(buf) != ServFail && HeaderRcode(buf) != NxDomain
      && p < |received| && p + 16 <= BufferSize
      && NoMatchIn(buf, 0, p, A.Code()) && IsMatch(buf, p, A.Code())
      && NoMatchIn(buf, p + 13, |received|, A.Code())
    ensures Decode(received, A) == Found([IPv4(AddressAt(ZeroFilled(received), p))])
  {
    var buf := ZeroFilled(received);
    AScanOne(buf, |received|, p);
    var ps := AScan(buf, |received|, 0).value;
    var rs := seq(|ps|, n requires 0 <= n < |ps| => IPv4(AddressAt(buf, ps[n])));
    assert rs[0] == IPv4(AddressAt(buf, p));
    assert rs == [IPv4(AddressAt(buf, p))];
  }

  /** A scan whose only match is at `p` reports `p` alone. */
  lemma AScanOne(buf: seq<byte>, rec: nat, p: nat)
    requires IsBuffer(buf, rec) && p < rec && p + 16 <= BufferSize
    requires NoMatchIn(buf, 0, p, A.Code()) && IsMatch(buf, p, A.Code())
    requires NoMatchIn(buf, p + 13, rec, A.Code())
    ensures AScan(buf, rec, 0) == Some([p])
  {
    AScanSkip(buf, rec, 0, p);
    AScanEmpty(buf, rec, p + 13);
    assert AScan(buf, rec, p + 13) == Some([]);
    assert AScan(buf, rec, p) == Some([p] + []);
    assert [p] + [] == [p];
  }
}
