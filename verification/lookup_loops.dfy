/** The decoding half of `dnsLookup` written the way the C code is written:
    one loop over the buffer per record type, the PTR name walk as an inner
    `while (1)` loop, and a single remembered pointer position `k` shared by
    all records of the scan (dnsmess.c:151). Each method is proved to
    compute what the functional model in `Response` computes. The walk
    hands its final `k` back to the scan and is proved to leave it at 0,
    so every record starts with no remembered position, which is what the
    model's per-record `k` assumes. */
module LookupLoops {
  import opened Bytes
  import opened Names
  import opened Query
  import opened Response
  import opened WalkProperties

  function AppendTo<T>(pre: seq<T>, r: Option<seq<T>>): Option<seq<T>> {
    match r
    case None => None
    case Some(xs) => Some(pre + xs)
  }

  lemma AppendToNothing<T>(r: Option<seq<T>>)
    ensures AppendTo([], r) == r
  {
    match r
    case None =>
    case Some(xs) =>
      assert [] + xs == xs;
  }

  lemma PrependNothing(r: Option<Walked>)
    ensures PrependAll([], r) == r
  {
    match r
    case None =>
    case Some(w) =>
      assert [] + w.labels == w.labels;
  }

  lemma AppendToAssoc<T>(pre: seq<T>, x: T, r: Option<seq<T>>)
    ensures AppendTo(pre, AppendTo([x], r)) == AppendTo(pre + [x], r)
  {
    match r
    case None =>
    case Some(xs) =>
      assert pre + ([x] + xs) == pre + [x] + xs;
  }

  /** The PTR scan's invariant survives a record. */
  lemma PtrScanAtMatch(buf: seq<byte>, rec: nat, i: nat, budget: nat, w: Walked,
                       whole: Option<seq<seq<Label>>>, names: seq<seq<Label>>)
    requires IsBuffer(buf, rec) && i < rec && IsMatch(buf, i, PTR.Code()) && budget > 0
    requires WalkName(buf, rec, i + buf[i + 1] as int, 0, WalkFuel) == Some(w)
    requires whole == AppendTo(names, PtrScan(buf, rec, i, budget))
    ensures whole == AppendTo(names + [w.labels], PtrScan(buf, rec, w.cursor + 1, budget - 1))
  {
    assert PtrScan(buf, rec, i, budget) == AppendTo([w.labels], PtrScan(buf, rec, w.cursor + 1, budget - 1));
    AppendToAssoc(names, w.labels, PtrScan(buf, rec, w.cursor + 1, budget - 1));
  }

  /** The PTR scan's invariant survives a position that does not match. */
  lemma PtrScanPastMiss(buf: seq<byte>, rec: nat, i: nat, budget: nat,
                        whole: Option<seq<seq<Label>>>, names: seq<seq<Label>>)
    requires IsBuffer(buf, rec) && i < rec && !Overrun(buf, i) && !IsMatch(buf, i, PTR.Code())
    requires whole == AppendTo(names, PtrScan(buf, rec, i, budget))
    ensures whole == AppendTo(names, PtrScan(buf, rec, i + 1, budget))
  {
  }

  /** The A scan's invariant survives a position that does not match. */
  lemma AScanPastMiss(buf: seq<byte>, rec: nat, i: nat, whole: Option<seq<nat>>, hits: seq<nat>)
    requires IsBuffer(buf, rec) && i < rec && !Overrun(buf, i) && !IsMatch(buf, i, A.Code())
    requires whole == AppendTo(hits, AScan(buf, rec, i))
    ensures whole == AppendTo(hits, AScan(buf, rec, i + 1))
  {
  }

  /** One step of the A scan at a match. */
  lemma AScanAtMatch(buf: seq<byte>, rec: nat, i: nat)
    requires IsBuffer(buf, rec) && i < rec && IsMatch(buf, i, A.Code()) && i + 16 <= BufferSize
    ensures AScan(buf, rec, i) == AppendTo([i], AScan(buf, rec, i + 13))
  {
  }

  /** The A-record loop of dnsmess.c:205-210: the addresses it would print,
      in order, or None where it would read past the buffer. */
  method AddressLoop(buf: seq<byte>, rec: nat) returns (r: Option<seq<nat>>)
    requires IsBuffer(buf, rec)
    ensures r == AScan(buf, rec, 0)
  {
    var hits: seq<nat> := [];
    var i: nat := 0;
    ghost var whole := AScan(buf, rec, 0);
    AppendToNothing(whole);
    while i < rec
      invariant whole == AppendTo(hits, AScan(buf, rec, i))
      decreases BufferSize - i
    {
      if buf[i] == 0xC0 && i + 3 >= BufferSize {
        return None;
      }
      if buf[i] == 0xC0 && buf[i + 3] == A.Code() {
        if i + 16 > BufferSize {
          return None;
        }
        AScanAtMatch(buf, rec, i);
        AppendToAssoc(hits, i, AScan(buf, rec, i + 13));
        hits := hits + [i];
        i := i + 12;
      } else {
        AScanPastMiss(buf, rec, i, whole, hits);
      }
      i := i + 1;
    }
    assert hits + [] == hits;
    return Some(hits);
  }

  /** The PTR-record loop of dnsmess.c:221-244. `k` lives across records
      as in the C code: each record's walk starts from it and leaves it
      behind. It is zero whenever a record starts, because a walk only
      finishes at a terminator, where a non-zero `k` is consumed and
      cleared. */
  method NameLoop(buf: seq<byte>, rec: nat) returns (r: Option<seq<seq<Label>>>)
    requires IsBuffer(buf, rec)
    ensures r == PtrScan(buf, rec, 0, ScanFuel)
  {
    var names: seq<seq<Label>> := [];
    var i: nat := 0;
    var k: nat := 0;
    var budget: nat := ScanFuel;
    ghost var whole := PtrScan(buf, rec, 0, ScanFuel);
    AppendToNothing(whole);
    while i < rec
      invariant k == 0
      invariant whole == AppendTo(names, PtrScan(buf, rec, i, budget))
      decreases budget, BufferSize - i
    {
      var fault: bool;
      fault, i, budget, names, k := NameStep(buf, rec, i, k, budget, names, whole);
      if fault {
        return None;
      }
    }
    assert names + [] == names;
    return Some(names);
  }

  /** One pass of the body of the PTR-record loop at position `i`: either a
      fault, or the position, budget and names after it (the loop's `i++`
      included). */
  method NameStep(buf: seq<byte>, rec: nat, i: nat, k: nat, budget: nat, names: seq<seq<Label>>,
                  ghost whole: Option<seq<seq<Label>>>)
    returns (fault: bool, i': nat, budget': nat, names': seq<seq<Label>>, k': nat)
    requires IsBuffer(buf, rec) && i < rec && k == 0
    requires whole == AppendTo(names, PtrScan(buf, rec, i, budget))
    ensures fault ==> whole == None
    ensures !fault ==> whole == AppendTo(names', PtrScan(buf, rec, i', budget'))
    ensures !fault ==> budget' < budget || (budget' == budget && i' == i + 1)
    ensures !fault ==> k' == 0
  {
    if buf[i] == 0xC0 && i + 3 >= BufferSize {
      return true, i, budget, names, k;
    }
    if buf[i] == 0xC0 && buf[i + 3] == PTR.Code() {
      fault, i', budget', names', k' := NameRecord(buf, rec, i, k, budget, names, whole);
      return;
    }
    PtrScanPastMiss(buf, rec, i, budget, whole, names);
    return false, i + 1, budget, names, k;
  }

  /** The body of the PTR-record loop at a match: walk the name the record
      points at and append it. */
  method NameRecord(buf: seq<byte>, rec: nat, i: nat, k: nat, budget: nat, names: seq<seq<Label>>,
                    ghost whole: Option<seq<seq<Label>>>)
    returns (fault: bool, i': nat, budget': nat, names': seq<seq<Label>>, k': nat)
    requires IsBuffer(buf, rec) && i < rec && k == 0 && IsMatch(buf, i, PTR.Code())
    requires whole == AppendTo(names, PtrScan(buf, rec, i, budget))
    ensures fault ==> whole == None
    ensures !fault ==> whole == AppendTo(names', PtrScan(buf, rec, i', budget')) && budget' < budget
    ensures !fault ==> k' == 0
  {
    if budget == 0 {
      return true, i, budget, names, k;
    }
    var w;
    w, k' := WalkLoop(buf, rec, i + buf[i + 1] as int, k);
    if w.None? {
      return true, i, budget, names, k';
    }
    PtrScanAtMatch(buf, rec, i, budget, w.value, whole, names);
    return false, w.value.cursor + 1, budget - 1, names + [w.value.labels], k';
  }

  /** The `while (1)` name walk from `start`, entered with the remembered
      position `k0` the scan carries, and returning the emitted labels and
      the remembered position it leaves behind: none, once it finishes. */
  method WalkLoop(buf: seq<byte>, rec: nat, start: int, k0: nat) returns (r: Option<Walked>, k': nat)
    requires IsBuffer(buf, rec)
    ensures r == WalkName(buf, rec, start, k0, WalkFuel)
    ensures r.Some? ==> k' == 0
  {
    var labels: seq<Label> := [];
    var i: int := start;
    var k: nat := k0;
    var steps: nat := WalkFuel;
    ghost var whole := WalkName(buf, rec, start, k0, WalkFuel);
    PrependNothing(whole);
    while true
      invariant whole == PrependAll(labels, WalkName(buf, rec, i, k, steps))
      decreases steps
    {
      if steps == 0 || i < 0 || i >= BufferSize {
        return None, k;
      }
      var j := buf[i] as int;
      if i + 1 + j >= BufferSize {
        return None, k;
      }
      var text := buf[i + 1..i + 1 + j];
      ghost var at: nat := i;
      i := i + 1 + j;
      if buf[i] == 0x00 {
        WalkStepEnd(buf, rec, at, k, steps);
        if k != 0 {
          i := k + 1;
          k := 0;
        }
        return Some(Walked(labels + [text], i)), k;
      }
      if buf[i] == 0xC0 || buf[i] == 0xC1 {
        if i + 1 >= BufferSize {
          return None, k;
        }
        PrependAllAppend(labels, [text], WalkName(buf, rec, PointerTarget(buf, rec, i), i, steps - 1));
        k := i;
        i := PointerTarget(buf, rec, i);
      } else {
        PrependAllAppend(labels, [text], WalkName(buf, rec, i, k, steps - 1));
      }
      labels := labels + [text];
      steps := steps - 1;
    }
  }

  /** The decoding part of `dnsLookup` (dnsmess.c:189-252) as straight-line
      code over the zero-filled buffer. */
  method LookupSteps(received: seq<byte>, qtype: RecordType) returns (o: Outcome)
    requires |received| <= BufferSize
    ensures o == Decode(received, qtype)
  {
    var buf := ZeroFilled(received);
    var rec := |received|;
    var rcode := buf[3] % 16;
    if rcode == 2 {
      return ServerFailure;
    } else if rcode == 3 {
      return NameError;
    }
    var records: seq<Record>;
    if qtype == A {
      var hits := AddressLoop(buf, rec);
      if hits.None? {
        return Malformed;
      }
      var ps := hits.value;
      records := seq(|ps|, n requires 0 <= n < |ps| => IPv4(AddressAt(buf, ps[n])));
    } else {
      var found := NameLoop(buf, rec);
      if found.None? {
        return Malformed;
      }
      var names := found.value;
      records := seq(|names|, n requires 0 <= n < |names| => Domain(names[n]));
    }
    if records == [] {
      return NoRecords;
    }
    return Found(records);
  }
}
