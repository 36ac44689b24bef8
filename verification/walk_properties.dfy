/** What the PTR name walk produces on names laid out the way section
    4.1.4 of RFC 1035 lays them out, and where it departs from that. */
module WalkProperties {
  import opened Bytes
  import opened Names
  import opened Query
  import opened Response
  import opened ScanProperties

  /** A run of ordinary labels and the position where it stops. */
  datatype Run = Run(labels: seq<Label>, stop: nat)

  /** The labels from `pos` whose length bytes are ordinary label lengths
      (1..63, section 3.1 of RFC 1035), and the position of the first byte
      that is not such a length (or whose label would not fit the buffer):
      a terminator, a pointer, or something else. */
  function LabelRun(buf: seq<byte>, pos: nat): (r: Run)
    requires |buf| == BufferSize
    ensures pos <= r.stop
    decreases BufferSize - pos
  {
    if pos >= BufferSize || buf[pos] == 0 || buf[pos] >= 64 || pos + 1 + buf[pos] as int >= BufferSize then Run([], pos)
    else
      var end := pos + 1 + buf[pos] as int;
      var r := LabelRun(buf, end);
      Run([buf[pos + 1..end]] + r.labels, r.stop)
  }

  /** A run stays inside the buffer, and each of its labels takes at
      least two bytes. */
  lemma {:induction false} LabelRunBounds(buf: seq<byte>, pos: nat)
    requires |buf| == BufferSize
    ensures pos < BufferSize ==> LabelRun(buf, pos).stop < BufferSize
    ensures 2 * |LabelRun(buf, pos).labels| <= LabelRun(buf, pos).stop - pos
    decreases BufferSize - pos
  {
    if !(pos >= BufferSize || buf[pos] == 0 || buf[pos] >= 64 || pos + 1 + buf[pos] as int >= BufferSize) {
      LabelRunBounds(buf, pos + 1 + buf[pos] as int);
    }
  }

  /** The run stops at a pointer whose second byte is inside the buffer. */
  predicate StopsAtPointer(buf: seq<byte>, p: nat)
    requires |buf| == BufferSize
  {
    p + 1 < BufferSize && (buf[p] == 0xC0 || buf[p] == 0xC1)
  }

  /** The run stops at a terminator. */
  predicate StopsAtEnd(buf: seq<byte>, p: nat)
    requires |buf| == BufferSize
  {
    p < BufferSize && buf[p] == 0x00
  }

  /** The label at `i` as the walk reads it. */
  function LabelAt(buf: seq<byte>, i: nat): Label
    requires |buf| == BufferSize && i < BufferSize && i + 1 + buf[i] as int < BufferSize
  {
    buf[i + 1..i + 1 + buf[i] as int]
  }

  /** A walk step whose label is followed by a terminator ends the walk. */
  lemma WalkStepEnd(buf: seq<byte>, rec: nat, i: nat, k: nat, fuel: nat)
    requires IsBuffer(buf, rec) && fuel >= 1 && i < BufferSize
    requires i + 1 + buf[i] as int < BufferSize && buf[i + 1 + buf[i] as int] == 0x00
    ensures WalkName(buf, rec, i, k, fuel) ==
      Some(Walked([LabelAt(buf, i)], if k != 0 then k + 1 else i + 1 + buf[i] as int))
  {
  }

  /** A walk step whose label is followed by a pointer jumps. */
  lemma WalkStepPointer(buf: seq<byte>, rec: nat, i: nat, k: nat, fuel: nat)
    requires IsBuffer(buf, rec) && fuel >= 1 && i < BufferSize
    requires StopsAtPointer(buf, i + 1 + buf[i] as int)
    ensures var e := i + 1 + buf[i] as int;
      WalkName(buf, rec, i, k, fuel) ==
        PrependAll([LabelAt(buf, i)], WalkName(buf, rec, PointerTarget(buf, rec, e), e, fuel - 1))
  {
    var e := i + 1 + buf[i] as int;
    match WalkName(buf, rec, PointerTarget(buf, rec, e), e, fuel - 1)
    case None =>
    case Some(w) =>
  }

  /** A walk step whose label is followed by another length byte goes on. */
  lemma WalkStepLabel(buf: seq<byte>, rec: nat, i: nat, k: nat, fuel: nat)
    requires IsBuffer(buf, rec) && fuel >= 1 && i < BufferSize
    requires i + 1 + buf[i] as int < BufferSize
    requires var e := i + 1 + buf[i] as int; 1 <= buf[e] < 64
    ensures var e := i + 1 + buf[i] as int;
      WalkName(buf, rec, i, k, fuel) == PrependAll([LabelAt(buf, i)], WalkName(buf, rec, e, k, fuel - 1))
  {
    var e := i + 1 + buf[i] as int;
    match WalkName(buf, rec, e, k, fuel - 1)
    case None =>
    case Some(w) =>
  }

  /** Over a run of ordinary labels that ends at a pointer the walk emits
      the labels one by one and then continues at the pointer's target,
      remembering the pointer's position in place of any earlier one. */
  lemma {:induction false} WalkToPointer(buf: seq<byte>, rec: nat, i: nat, k: nat, fuel: nat)
    requires IsBuffer(buf, rec)
    requires |LabelRun(buf, i).labels| >= 1 && fuel >= |LabelRun(buf, i).labels|
    requires StopsAtPointer(buf, LabelRun(buf, i).stop)
    ensures var r := LabelRun(buf, i);
      WalkName(buf, rec, i, k, fuel) ==
        PrependAll(r.labels, WalkName(buf, rec, PointerTarget(buf, rec, r.stop), r.stop, fuel - |r.labels|))
    decreases BufferSize - i
  {
    var r := LabelRun(buf, i);
    var e := i + 1 + buf[i] as int;
    var rest := LabelRun(buf, e);
    assert r.labels == [LabelAt(buf, i)] + rest.labels && r.stop == rest.stop;
    if rest.labels == [] {
      assert r.labels == [LabelAt(buf, i)] && r.stop == e;
      WalkStepPointer(buf, rec, i, k, fuel);
    } else {
      assert 1 <= buf[e] < 64;
      WalkStepLabel(buf, rec, i, k, fuel);
      WalkToPointer(buf, rec, e, k, fuel - 1);
      assert fuel - 1 - |rest.labels| == fuel - |r.labels|;
      PrependAllAppend([LabelAt(buf, i)], rest.labels,
        WalkName(buf, rec, PointerTarget(buf, rec, r.stop), r.stop, fuel - |r.labels|));
    }
  }

  lemma PrependAllAppend(a: seq<Label>, b: seq<Label>, w: Option<Walked>)
    ensures PrependAll(a, PrependAll(b, w)) == PrependAll(a + b, w)
  {
    match w
    case None =>
    case Some(x) =>
      assert a + (b + x.labels) == a + b + x.labels;
  }

  /** At the terminator that ends a run of ordinary labels the walk
      finishes: the cursor goes just past the remembered pointer position
      `k` if there is one, and stays on the terminator otherwise. */
  lemma {:induction false} WalkRunAtEnd(buf: seq<byte>, rec: nat, i: nat, k: nat, fuel: nat)
    requires IsBuffer(buf, rec)
    requires |LabelRun(buf, i).labels| >= 1 && fuel >= |LabelRun(buf, i).labels|
    requires StopsAtEnd(buf, LabelRun(buf, i).stop)
    ensures var r := LabelRun(buf, i);
      WalkName(buf, rec, i, k, fuel) == Some(Walked(r.labels, if k != 0 then k + 1 else r.stop))
    decreases BufferSize - i
  {
    var r := LabelRun(buf, i);
    var e := i + 1 + buf[i] as int;
    var rest := LabelRun(buf, e);
    assert r.labels == [LabelAt(buf, i)] + rest.labels && r.stop == rest.stop;
    if rest.labels == [] {
      assert r.labels == [LabelAt(buf, i)] && r.stop == e;
      WalkStepEnd(buf, rec, i, k, fuel);
    } else {
      assert 1 <= buf[e] < 64;
      WalkStepLabel(buf, rec, i, k, fuel);
      WalkRunAtEnd(buf, rec, e, k, fuel - 1);
    }
  }

  /** A plain name (labels, then a zero byte) is read exactly: the walk
      emits its labels and leaves the cursor on the zero byte. */
  lemma WalkPlainName(buf: seq<byte>, rec: nat, i: nat, fuel: nat)
    requires IsBuffer(buf, rec)
    requires |LabelRun(buf, i).labels| >= 1 && fuel >= |LabelRun(buf, i).labels|
    requires StopsAtEnd(buf, LabelRun(buf, i).stop)
    ensures WalkName(buf, rec, i, 0, fuel) == Some(Walked(LabelRun(buf, i).labels, LabelRun(buf, i).stop))
  {
    WalkRunAtEnd(buf, rec, i, 0, fuel);
  }

  /** One pointer, as section 4.1.4 of RFC 1035 uses it: labels, then a
      pointer to a plain name. The walk emits both parts, and the scan
      resumes right after the two pointer bytes. */
  lemma WalkOnePointer(buf: seq<byte>, rec: nat, i: nat, t: nat, fuel: nat)
    requires IsBuffer(buf, rec)
    requires |LabelRun(buf, i).labels| >= 1 && StopsAtPointer(buf, LabelRun(buf, i).stop)
    requires PointerTarget(buf, rec, LabelRun(buf, i).stop) == t
    requires |LabelRun(buf, t).labels| >= 1 && StopsAtEnd(buf, LabelRun(buf, t).stop)
    requires fuel >= |LabelRun(buf, i).labels| + |LabelRun(buf, t).labels|
    ensures WalkName(buf, rec, i, 0, fuel) ==
      Some(Walked(LabelRun(buf, i).labels + LabelRun(buf, t).labels, LabelRun(buf, i).stop + 1))
  {
    var r1 := LabelRun(buf, i);
    WalkToPointer(buf, rec, i, 0, fuel);
    WalkRunAtEnd(buf, rec, t, r1.stop, fuel - |r1.labels|);
  }

  /** A second pointer overwrites the remembered one (dnsmess.c:237): after
      two pointers the scan resumes after the second, not after the first
      as the end of the name in section 4.1.4 of RFC 1035 would have it. */
  lemma WalkTwoPointers(buf: seq<byte>, rec: nat, i: nat, t1: nat, t2: nat, fuel: nat)
    requires IsBuffer(buf, rec)
    requires |LabelRun(buf, i).labels| >= 1 && StopsAtPointer(buf, LabelRun(buf, i).stop)
    requires PointerTarget(buf, rec, LabelRun(buf, i).stop) == t1
    requires |LabelRun(buf, t1).labels| >= 1 && StopsAtPointer(buf, LabelRun(buf, t1).stop)
    requires PointerTarget(buf, rec, LabelRun(buf, t1).stop) == t2
    requires |LabelRun(buf, t2).labels| >= 1 && StopsAtEnd(buf, LabelRun(buf, t2).stop)
    requires fuel >= |LabelRun(buf, i).labels| + |LabelRun(buf, t1).labels| + |LabelRun(buf, t2).labels|
    ensures WalkName(buf, rec, i, 0, fuel) ==
      Some(Walked(LabelRun(buf, i).labels + LabelRun(buf, t1).labels + LabelRun(buf, t2).labels,
                  LabelRun(buf, t1).stop + 1))
  {
    var r1 := LabelRun(buf, i);
    var r2 := LabelRun(buf, t1);
    var r3 := LabelRun(buf, t2);
    var f2 := fuel - |r1.labels|;
    var f3 := f2 - |r2.labels|;
    var last := Some(Walked(r3.labels, r2.stop + 1));
    assert WalkName(buf, rec, t2, r2.stop, f3) == last by {
      WalkRunAtEnd(buf, rec, t2, r2.stop, f3);
    }
    assert WalkName(buf, rec, t1, r1.stop, f2) == PrependAll(r2.labels, last) by {
      WalkToPointer(buf, rec, t1, r1.stop, f2);
    }
    assert WalkName(buf, rec, i, 0, fuel) == PrependAll(r1.labels, PrependAll(r2.labels, last)) by {
      WalkToPointer(buf, rec, i, 0, fuel);
    }
    PrependAllAppend(r1.labels, r2.labels, last);
  }

  /** Pointers are recognised only after a label: a walk that starts on a
      0xC0 byte reads it as the length of a 192-byte label. */
  lemma PointerFirstIsLength(buf: seq<byte>, rec: nat, i: nat, k: nat, fuel: nat)
    requires IsBuffer(buf, rec) && i < BufferSize && buf[i] == 0xC0
    requires WalkName(buf, rec, i, k, fuel).Some?
    ensures |WalkName(buf, rec, i, k, fuel).value.labels[0]| == 192
  {
    WalkNameShape(buf, rec, i, k, fuel);
  }

  /** A walk that finishes started at a length byte inside the buffer whose
      label fits, emits that label first, and emits at most one label per
      unit of budget. */
  lemma {:induction false} WalkNameShape(buf: seq<byte>, rec: nat, i: int, k: nat, fuel: nat)
    requires IsBuffer(buf, rec)
    requires WalkName(buf, rec, i, k, fuel).Some?
    ensures 0 <= i < BufferSize && i + 1 + buf[i] as int < BufferSize
    ensures WalkName(buf, rec, i, k, fuel).value.labels[0] == buf[i + 1..i + 1 + buf[i] as int]
    ensures |WalkName(buf, rec, i, k, fuel).value.labels| <= fuel
    decreases fuel
  {
    var e := i + 1 + buf[i] as int;
    if buf[e] == 0xC0 || buf[e] == 0xC1 {
      WalkNameShape(buf, rec, PointerTarget(buf, rec, e), e, fuel - 1);
    } else if buf[e] != 0x00 {
      WalkNameShape(buf, rec, e, k, fuel - 1);
    }
  }

  /** More budget never changes a finished walk. */
  lemma {:induction false} WalkFuelMonotone(buf: seq<byte>, rec: nat, i: int, k: nat, fuel: nat, more: nat)
    requires IsBuffer(buf, rec)
    requires WalkName(buf, rec, i, k, fuel).Some? && fuel <= more
    ensures WalkName(buf, rec, i, k, more) == WalkName(buf, rec, i, k, fuel)
    decreases fuel
  {
    var e := i + 1 + buf[i] as int;
    if buf[e] == 0xC0 || buf[e] == 0xC1 {
      WalkFuelMonotone(buf, rec, PointerTarget(buf, rec, e), e, fuel - 1, more - 1);
    } else if buf[e] != 0x00 {
      WalkFuelMonotone(buf, rec, e, k, fuel - 1, more - 1);
    }
  }

  /** An encoded label list (RFC label lengths) followed by a byte that is
      not a label length is one run. */
  lemma {:induction false} RunOfLabelBytes(buf: seq<byte>, pos: nat, ls: seq<Label>)
    requires |buf| == BufferSize
    requires forall n :: 0 <= n < |ls| ==> 0 < |ls[n]| < 64
    requires pos + |LabelBytes(ls)| < BufferSize
    requires buf[pos..pos + |LabelBytes(ls)|] == LabelBytes(ls)
    requires buf[pos + |LabelBytes(ls)|] == 0 || buf[pos + |LabelBytes(ls)|] >= 64
    ensures LabelRun(buf, pos) == Run(ls, pos + |LabelBytes(ls)|)
    decreases |ls|
  {
    if ls != [] {
      var end := pos + 1 + |ls[0]|;
      LabelBytesHead(buf, pos, ls);
      RunOfLabelBytes(buf, end, ls[1..]);
      assert [ls[0]] + ls[1..] == ls;
    }
  }

  /** The first label of an encoded label list, read back from the buffer. */
  lemma LabelBytesHead(buf: seq<byte>, pos: nat, ls: seq<Label>)
    requires |buf| == BufferSize && ls != [] && |ls[0]| < 256
    requires pos + |LabelBytes(ls)| <= BufferSize
    requires buf[pos..pos + |LabelBytes(ls)|] == LabelBytes(ls)
    ensures var end := pos + 1 + |ls[0]|;
      && buf[pos] as int == |ls[0]| && buf[pos + 1..end] == ls[0]
      && buf[end..end + |LabelBytes(ls[1..])|] == LabelBytes(ls[1..])
  {
    var c := ls[0];
    var e := LabelBytes(ls);
    assert e == [LengthByte(c)] + c + LabelBytes(ls[1..]);
    assert buf[pos] == buf[pos..pos + |e|][0];
    SubSlice(buf, pos, e, 1, 1 + |c|);
    SubSlice(buf, pos, e, 1 + |c|, |e|);
  }

  // ---------------------------------------------------------------------
  // The PTR scan over whole responses

  /** Positions that do not match are stepped over one by one. */
  lemma {:induction false} PtrScanSkip(buf: seq<byte>, rec: nat, i: nat, j: nat, fuel: nat)
    requires IsBuffer(buf, rec) && i <= j <= rec
    requires NoMatchIn(buf, i, j, PTR.Code())
    ensures PtrScan(buf, rec, i, fuel) == PtrScan(buf, rec, j, fuel)
    decreases j - i
  {
    if i < j {
      assert !Overrun(buf, i) && !IsMatch(buf, i, PTR.Code());
      assert PtrScan(buf, rec, i, fuel) == PtrScan(buf, rec, i + 1, fuel);
      PtrScanSkip(buf, rec, i + 1, j, fuel);
    }
  }

  /** A scan whose only match is at `p` reports one name: the one the walk
      from `p + buf[p+1]` emits, provided nothing matches between where that
      walk leaves the cursor and the end of the received bytes. */
  lemma PtrScanOne(buf: seq<byte>, rec: nat, i: nat, p: nat, fuel: nat, w: Walked)
    requires IsBuffer(buf, rec) && i <= p < rec && fuel >= 1
    requires NoMatchIn(buf, i, p, PTR.Code()) && IsMatch(buf, p, PTR.Code())
    requires WalkName(buf, rec, p + buf[p + 1] as int, 0, WalkFuel) == Some(w)
    requires NoMatchIn(buf, w.cursor + 1, rec, PTR.Code())
    ensures PtrScan(buf, rec, i, fuel) == Some([w.labels])
  {
    PtrScanSkip(buf, rec, i, p, fuel);
    PtrScanEmpty(buf, rec, w.cursor + 1, fuel - 1);
    assert PtrScan(buf, rec, w.cursor + 1, fuel - 1) == Some([]);
    assert PtrScan(buf, rec, p, fuel) == Some([w.labels] + []);
    assert [w.labels] + [] == [w.labels];
  }

  lemma ScanOneName(buf: seq<byte>, rec: nat, ls: seq<Label>)
    requires IsBuffer(buf, rec) && PtrScan(buf, rec, 0, ScanFuel) == Some([ls])
    ensures Scan(buf, rec, PTR) == Some([Domain(ls)])
  {
    var names := PtrScan(buf, rec, 0, ScanFuel).value;
    var rs := seq(|names|, n requires 0 <= n < |names| => Domain(names[n]));
    assert rs[0] == Domain(ls);
    assert rs == [Domain(ls)];
  }

  /** The owner name `C0 0C`, TYPE, CLASS, TTL and RDLENGTH take 12 bytes
      (section 4.1.3 of RFC 1035), so the scan's jump by the pointer's low
      byte lands on RDATA exactly when the owner pointer is `C0 0C`. A PTR
      answer whose RDATA is a plain name is decoded to that name. */
  lemma DecodePtrPlain(received: seq<byte>, p: nat)
    requires |received| <= BufferSize
    requires var buf := ZeroFilled(received);
      && HeaderRcode(buf) != ServFail && HeaderRcode(buf) != NxDomain
      && p < |received| && NoMatchIn(buf, 0, p, PTR.Code()) && IsMatch(buf, p, PTR.Code())
      && buf[p + 1] == 12
      && var r := LabelRun(buf, p + 12);
      && |r.labels| >= 1 && StopsAtEnd(buf, r.stop)
      && NoMatchIn(buf, r.stop + 1, |received|, PTR.Code())
    ensures Decode(received, PTR) == Found([Domain(LabelRun(ZeroFilled(received), p + 12).labels)])
  {
    var buf := ZeroFilled(received);
    var rec := |received|;
    var r := LabelRun(buf, p + 12);
    LabelRunBounds(buf, p + 12);
    WalkPlainName(buf, rec, p + 12, WalkFuel);
    PtrScanOne(buf, rec, 0, p, ScanFuel, Walked(r.labels, r.stop));
    ScanOneName(buf, rec, r.labels);
  }

  /** A PTR answer whose RDATA ends in a pointer to a plain name, as section
      4.1.4 of RFC 1035 compresses names: the name is the RDATA labels then
      the labels at the target, and the scan resumes after the pointer. */
  lemma DecodePtrCompressed(received: seq<byte>, p: nat, t: nat)
    requires |received| <= BufferSize
    requires var buf := ZeroFilled(received);
      && HeaderRcode(buf) != ServFail && HeaderRcode(buf) != NxDomain
      && p < |received| && NoMatchIn(buf, 0, p, PTR.Code()) && IsMatch(buf, p, PTR.Code())
      && buf[p + 1] == 12
      && var r := LabelRun(buf, p + 12);
      && |r.labels| >= 1 && StopsAtPointer(buf, r.stop)
      && PointerTarget(buf, |received|, r.stop) == t
      && |LabelRun(buf, t).labels| >= 1 && StopsAtEnd(buf, LabelRun(buf, t).stop)
      && NoMatchIn(buf, r.stop + 2, |received|, PTR.Code())
    ensures var buf := ZeroFilled(received);
      Decode(received, PTR) == Found([Domain(LabelRun(buf, p + 12).labels + LabelRun(buf, t).labels)])
  {
    var buf := ZeroFilled(received);
    var rec := |received|;
    var r := LabelRun(buf, p + 12);
    var ls := r.labels + LabelRun(buf, t).labels;
    LabelRunBounds(buf, p + 12);
    LabelRunBounds(buf, t);
    WalkOnePointer(buf, rec, p + 12, t, WalkFuel);
    PtrScanOne(buf, rec, 0, p, ScanFuel, Walked(ls, r.stop + 1));
    ScanOneName(buf, rec, ls);
  }
}
