/** Domain names as text and on the wire.

    As text a name is a byte string whose components are separated by `.`;
    the query builder cuts it with `strtok(name, ".")` (dnsmess.c:119-131),
    which never yields an empty component. On the wire (section 3.1 of
    RFC 1035) a name is a sequence of labels, each a length byte followed by
    that many bytes, closed by a zero length byte. */
module Names {
  import opened Bytes

  type Label = seq<byte>

  predicate DotFree(s: seq<byte>) {
    forall n :: 0 <= n < |s| ==> s[n] != Dot
  }

  predicate NonEmptyDotFree(cs: seq<Label>) {
    forall n :: 0 <= n < |cs| ==> |cs[n]| > 0 && DotFree(cs[n])
  }

  /** Number of bytes before the first dot of `s` (all of `s` if it has none). */
  function TokenLength(s: seq<byte>): (n: nat)
    ensures n <= |s|
    ensures DotFree(s[..n])
    ensures n < |s| ==> s[n] == Dot
  {
    if s == [] || s[0] == Dot then 0 else 1 + TokenLength(s[1..])
  }

  /** The components `strtok(s, ".")` returns, in order: leading, trailing
      and repeated dots produce no empty component. */
  function Split(s: seq<byte>): (cs: seq<Label>)
    ensures NonEmptyDotFree(cs)
    decreases |s|
  {
    if s == [] then []
    else if s[0] == Dot then Split(s[1..])
    else
      var n := TokenLength(s);
      [s[..n]] + Split(s[n..])
  }

  /** Every dot-separated field of `s`, empty ones included. */
  function Fields(s: seq<byte>): (fs: seq<seq<byte>>)
    ensures |fs| >= 1
    ensures forall n :: 0 <= n < |fs| ==> DotFree(fs[n])
    decreases |s|
  {
    var n := TokenLength(s);
    if n == |s| then [s] else [s[..n]] + Fields(s[n + 1..])
  }

  /** Components joined by single dots, with no leading or trailing dot. */
  function Dotted(cs: seq<Label>): seq<byte> {
    if cs == [] then []
    else if |cs| == 1 then cs[0]
    else cs[0] + [Dot] + Dotted(cs[1..])
  }

  /** The length byte stored for a label: the C code writes `strlen` into
      an unsigned char, so only the low eight bits survive. */
  function LengthByte(c: Label): (b: byte)
    ensures |c| < 256 ==> b as int == |c|
  {
    (|c| % 256) as byte
  }

  /** Bytes a label sequence takes on the wire: a length byte per label, the
      label itself, and the closing zero byte. */
  function WireLength(cs: seq<Label>): nat {
    if cs == [] then 1 else 1 + |cs[0]| + WireLength(cs[1..])
  }

  /** Each label as its length byte followed by its bytes, in order
      (dnsmess.c:119-131). */
  function LabelBytes(cs: seq<Label>): (e: seq<byte>)
    ensures |e| == WireLength(cs) - 1
  {
    if cs == [] then []
    else [LengthByte(cs[0])] + cs[0] + LabelBytes(cs[1..])
  }

  /** The question name as the query builder writes it: the labels, then
      the zero byte of dnsmess.c:132. */
  function EncodeLabels(cs: seq<Label>): (e: seq<byte>)
    ensures |e| == WireLength(cs)
    ensures e[|e| - 1] == 0x00
  {
    LabelBytes(cs) + [0x00]
  }

  /** Reads an uncompressed label sequence starting at `pos`; on success
      returns the labels and the position of the closing zero byte. */
  function ReadLabels(b: seq<byte>, pos: nat): Option<(seq<Label>, nat)>
    decreases |b| - pos
  {
    if pos >= |b| then None
    else if b[pos] == 0x00 then Some(([], pos))
    else
      var end := pos + 1 + b[pos] as int;
      if end > |b| then None
      else
        match ReadLabels(b, end)
        case None => None
        case Some((ls, z)) => Some(([b[pos + 1..end]] + ls, z))
  }

  // ---------------------------------------------------------------------
  // strtok splitting

  lemma {:induction false} TokenLengthAppend(a: seq<byte>, b: seq<byte>)
    ensures TokenLength(a + b) ==
              if TokenLength(a) < |a| then TokenLength(a) else |a| + TokenLength(b)
    decreases |a|
  {
    if a == [] {
      assert a + b == b;
    } else if a[0] == Dot {
    } else {
      assert (a + b)[1..] == a[1..] + b;
      TokenLengthAppend(a[1..], b);
    }
  }

  lemma TokenLengthDotFree(c: seq<byte>)
    requires DotFree(c)
    ensures TokenLength(c) == |c|
  {
    TokenLengthAppend(c, []);
    assert c + [] == c;
  }

  /** A single non-empty component splits to itself. */
  lemma SplitToken(c: seq<byte>)
    requires |c| > 0 && DotFree(c)
    ensures Split(c) == [c]
  {
    TokenLengthDotFree(c);
    assert c[..|c|] == c;
    assert c[|c|..] == [];
  }

  /** Splitting distributes over a dot: strtok treats `a.b` as the
      components of `a` followed by those of `b`. With `SplitToken` and
      `Split([]) == []` this characterises `Split` completely. */
  lemma {:induction false} SplitAppend(a: seq<byte>, b: seq<byte>)
    ensures Split(a + [Dot] + b) == Split(a) + Split(b)
    decreases |a|, 1
  {
    var s := a + [Dot] + b;
    if a == [] {
      assert s == [Dot] + b;
      assert s[1..] == b;
    } else if a[0] == Dot {
      assert s[1..] == a[1..] + [Dot] + b;
      SplitAppend(a[1..], b);
    } else {
      SplitAppendWord(a, b);
    }
  }

  /** `SplitAppend` when `a` starts with a component. */
  lemma {:induction false} SplitAppendWord(a: seq<byte>, b: seq<byte>)
    requires a != [] && a[0] != Dot
    ensures Split(a + [Dot] + b) == Split(a) + Split(b)
    decreases |a|, 0
  {
    var s := a + [Dot] + b;
    var n := TokenLength(a);
    assert TokenLength(s) == n by {
      TokenLengthAppend(a, [Dot] + b);
      assert s == a + ([Dot] + b);
    }
    assert s[..n] == a[..n] && s[n..] == a[n..] + [Dot] + b by {
      SliceAppend(a, [Dot] + b, n);
      assert s == a + ([Dot] + b);
      assert a[n..] + ([Dot] + b) == a[n..] + [Dot] + b;
    }
    SplitWord(s);
    SplitWord(a);
    SplitAppend(a[n..], b);
    assert [a[..n]] + (Split(a[n..]) + Split(b)) == [a[..n]] + Split(a[n..]) + Split(b);
  }

  /** `Split` of a string that starts with a component. */
  lemma SplitWord(s: seq<byte>)
    requires s != [] && s[0] != Dot
    ensures Split(s) == [s[..TokenLength(s)]] + Split(s[TokenLength(s)..])
  {
  }

  lemma SliceAppend(a: seq<byte>, b: seq<byte>, n: nat)
    requires n <= |a|
    ensures (a + b)[..n] == a[..n] && (a + b)[n..] == a[n..] + b
  {
  }

  /** Leading and trailing dots are dropped. */
  lemma SplitDropsOuterDots(s: seq<byte>)
    ensures Split([Dot] + s) == Split(s)
    ensures Split(s + [Dot]) == Split(s)
  {
    SplitAppend([], s);
    assert [] + [Dot] + s == [Dot] + s;
    SplitAppend(s, []);
    assert s + [Dot] + [] == s + [Dot];
  }

  /** Joining non-empty dot-free components and splitting again gives them
      back: the round trip of `Dotted` and `Split`. */
  lemma {:induction false} SplitDotted(cs: seq<Label>)
    requires NonEmptyDotFree(cs)
    ensures Split(Dotted(cs)) == cs
    decreases |cs|
  {
    if cs == [] {
    } else if |cs| == 1 {
      SplitToken(cs[0]);
    } else {
      SplitAppend(cs[0], Dotted(cs[1..]));
      SplitToken(cs[0]);
      SplitDotted(cs[1..]);
      assert cs == [cs[0]] + cs[1..];
    }
  }

  /** Joining two non-empty lists puts exactly one dot between them. */
  lemma {:induction false} DottedAppend(xs: seq<Label>, ys: seq<Label>)
    requires |xs| > 0 && |ys| > 0
    ensures Dotted(xs + ys) == Dotted(xs) + [Dot] + Dotted(ys)
    decreases |xs|
  {
    if |xs| == 1 {
      assert (xs + ys)[1..] == ys;
    } else {
      assert (xs + ys)[1..] == xs[1..] + ys;
      DottedAppend(xs[1..], ys);
    }
  }

  // ---------------------------------------------------------------------
  // Fields (split keeping empty fields)

  /** Fields and Dotted are inverse: joining the fields restores the text. */
  lemma {:induction false} DottedFields(s: seq<byte>)
    ensures Dotted(Fields(s)) == s
    decreases |s|
  {
    var n := TokenLength(s);
    if n == |s| {
      assert s[..n] == s;
    } else {
      var rest := s[n + 1..];
      var fs := [s[..n]] + Fields(rest);
      assert Fields(s) == fs;
      assert |fs| > 1 && fs[0] == s[..n] && fs[1..] == Fields(rest);
      assert Dotted(fs) == s[..n] + [Dot] + Dotted(Fields(rest));
      DottedFields(rest);
      assert s == s[..n] + [Dot] + rest;
    }
  }

  lemma {:induction false} FieldsDotted(cs: seq<seq<byte>>)
    requires |cs| > 0
    requires forall n :: 0 <= n < |cs| ==> DotFree(cs[n])
    ensures Fields(Dotted(cs)) == cs
    decreases |cs|
  {
    if |cs| == 1 {
      TokenLengthDotFree(cs[0]);
      assert cs[0][..|cs[0]|] == cs[0];
    } else {
      var c := cs[0];
      var rest := Dotted(cs[1..]);
      assert Dotted(cs) == c + [Dot] + rest;
      FieldsCons(c, rest);
      FieldsDotted(cs[1..]);
      assert cs == [c] + cs[1..];
    }
  }

  /** A dot-free field followed by a dot is the first field. */
  lemma FieldsCons(c: seq<byte>, t: seq<byte>)
    requires DotFree(c)
    ensures Fields(c + [Dot] + t) == [c] + Fields(t)
  {
    var s := c + [Dot] + t;
    assert s == c + ([Dot] + t);
    TokenLengthAppend(c, [Dot] + t);
    TokenLengthDotFree(c);
    assert TokenLength(s) == |c|;
    assert s[..|c|] == c;
    assert s[|c| + 1..] == t;
  }

  // ---------------------------------------------------------------------
  // Wire encoding

  /** A window of a window is a window of the whole. */
  lemma SubSlice(b: seq<byte>, pos: nat, e: seq<byte>, x: nat, y: nat)
    requires pos + |e| <= |b| && b[pos..pos + |e|] == e
    requires x <= y <= |e|
    ensures b[pos + x..pos + y] == e[x..y]
  {
    forall z | 0 <= z < y - x
      ensures b[pos + x..pos + y][z] == e[x..y][z]
    {
      assert b[pos..pos + |e|][x + z] == e[x + z];
    }
  }

  /** One step of `ReadLabels`: a non-zero length byte followed by the label. */
  lemma ReadLabelsCons(b: seq<byte>, pos: nat, c: Label, ls: seq<Label>, z: nat)
    requires 0 < |c| && pos + 1 + |c| <= |b|
    requires b[pos] as int == |c| && b[pos + 1..pos + 1 + |c|] == c
    requires ReadLabels(b, pos + 1 + |c|) == Some((ls, z))
    ensures ReadLabels(b, pos) == Some(([c] + ls, z))
  {
  }

  lemma EncodeLabelsCons(cs: seq<Label>)
    requires cs != []
    ensures EncodeLabels(cs) == [LengthByte(cs[0])] + cs[0] + EncodeLabels(cs[1..])
  {
    assert LabelBytes(cs) == [LengthByte(cs[0])] + cs[0] + LabelBytes(cs[1..]);
  }

  /** Reading back an encoded label sequence reproduces exactly the labels
      it was built from, provided each label is non-empty and its length
      fits the length byte; the closing zero byte is the last encoded byte. */
  lemma {:induction false} ReadEncoded(b: seq<byte>, pos: nat, cs: seq<Label>)
    requires forall n :: 0 <= n < |cs| ==> 0 < |cs[n]| < 256
    requires pos + WireLength(cs) <= |b|
    requires b[pos..pos + WireLength(cs)] == EncodeLabels(cs)
    ensures ReadLabels(b, pos) == Some((cs, pos + WireLength(cs) - 1))
    decreases |cs|
  {
    if cs == [] {
      assert b[pos] == 0x00 by {
        assert b[pos..pos + 1][0] == b[pos];
      }
    } else {
      var c := cs[0];
      var rest := cs[1..];
      var end := pos + 1 + |c|;
      EncodeHead(b, pos, cs);
      ReadEncoded(b, end, rest);
      var z := end + WireLength(rest) - 1;
      assert z == pos + WireLength(cs) - 1;
      ReadLabelsCons(b, pos, c, rest, z);
      assert [c] + rest == cs;
    }
  }

  /** The window holding an encoded non-empty label list starts with the
      first label's length and bytes, then holds the rest encoded. */
  lemma EncodeHead(b: seq<byte>, pos: nat, cs: seq<Label>)
    requires cs != [] && |cs[0]| < 256
    requires pos + WireLength(cs) <= |b|
    requires b[pos..pos + WireLength(cs)] == EncodeLabels(cs)
    ensures b[pos] as int == |cs[0]|
    ensures b[pos + 1..pos + 1 + |cs[0]|] == cs[0]
    ensures b[pos + 1 + |cs[0]|..pos + 1 + |cs[0]| + WireLength(cs[1..])] == EncodeLabels(cs[1..])
  {
    var e := EncodeLabels(cs);
    var c := cs[0];
    var tail := EncodeLabels(cs[1..]);
    EncodeLabelsCons(cs);
    Window3(b, pos, e, [LengthByte(c)], c, tail);
  }

  /** A window holding `x + y + z` holds `x`, `y` and `z` side by side. */
  lemma Window3(b: seq<byte>, pos: nat, e: seq<byte>, x: seq<byte>, y: seq<byte>, z: seq<byte>)
    requires pos + |e| <= |b| && b[pos..pos + |e|] == e && e == x + y + z
    ensures b[pos..pos + |x|] == x
    ensures b[pos + |x|..pos + |x| + |y|] == y
    ensures b[pos + |x| + |y|..pos + |e|] == z
  {
    SubSlice(b, pos, e, 0, |x|);
    assert e[0..|x|] == x;
    SubSlice(b, pos, e, |x|, |x| + |y|);
    assert e[|x|..|x| + |y|] == y;
    SubSlice(b, pos, e, |x| + |y|, |e|);
    assert e[|x| + |y|..|e|] == z;
  }
}
