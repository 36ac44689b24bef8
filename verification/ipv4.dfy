/** IPv4 addresses as dotted-quad text.

    The query builder asks libc `inet_aton` whether its argument is an
    address (dnsmess.c:102) and, for a reverse lookup, prints the
    byte-reversed address back with `inet_ntoa` (dnsmess.c:113-114). The
    model accepts the strict dotted quad: exactly four decimal groups, each
    0..255 and written without leading zeros. `inet_ntoa` prints that same
    form, so parsing and printing are inverse (`ParseText`, `TextParse`). */
module Ipv4 {
  import opened Bytes
  import opened Names

  /** The four octets in the order they are written, `a.b.c.d`. */
  datatype Address = Address(a: byte, b: byte, c: byte, d: byte)

  const Zero: byte := 0x30

  predicate IsDigit(x: byte) {
    Zero <= x <= 0x39
  }

  predicate AllDigits(s: seq<byte>) {
    forall n :: 0 <= n < |s| ==> IsDigit(s[n])
  }

  /** Decimal digits with no superfluous leading zero. */
  predicate Canonical(s: seq<byte>) {
    |s| > 0 && AllDigits(s) && (|s| > 1 ==> s[0] != Zero)
  }

  function DigitValue(x: byte): (v: nat)
    requires IsDigit(x)
    ensures v < 10
  {
    (x - Zero) as int
  }

  function DigitByte(v: nat): (x: byte)
    requires v < 10
    ensures IsDigit(x) && DigitValue(x) == v
  {
    (v + 0x30) as byte
  }

  /** The number a string of decimal digits denotes. */
  function Value(s: seq<byte>): nat
    requires AllDigits(s)
  {
    if s == [] then 0 else 10 * Value(s[..|s| - 1]) + DigitValue(s[|s| - 1])
  }

  /** `n` in decimal, as `%u` and `inet_ntoa` print it. */
  function Decimal(n: nat): (s: seq<byte>)
    ensures Canonical(s)
    ensures n < 10 ==> |s| == 1
    ensures 10 <= n < 100 ==> |s| == 2
    ensures 100 <= n < 1000 ==> |s| == 3
  {
    if n < 10 then [DigitByte(n)] else Decimal(n / 10) + [DigitByte(n % 10)]
  }

  /** One group of a dotted quad. */
  predicate IsOctetText(g: seq<byte>) {
    Canonical(g) && |g| <= 3 && Value(g) <= 255
  }

  /** The address a dotted quad denotes, or None if `s` is not one. */
  function ParseAddress(s: seq<byte>): (r: Option<Address>)
    ensures r.Some? ==> Text(r.value) == s
    ensures r.None? ==> forall addr :: Text(addr) != s
  {
    var fs := Fields(s);
    if IsQuad(fs) then
      QuadText(s);
      Some(Address(Value(fs[0]) as byte, Value(fs[1]) as byte, Value(fs[2]) as byte, Value(fs[3]) as byte))
    else
      NotQuadText(s);
      None
  }

  /** Four groups, each one a printed octet. */
  predicate IsQuad(fs: seq<seq<byte>>) {
    |fs| == 4 && IsOctetText(fs[0]) && IsOctetText(fs[1]) && IsOctetText(fs[2]) && IsOctetText(fs[3])
  }

  /** Four octet groups are the printed form of the address they denote. */
  lemma QuadText(s: seq<byte>)
    requires IsQuad(Fields(s))
    ensures var fs := Fields(s);
      Text(Address(Value(fs[0]) as byte, Value(fs[1]) as byte, Value(fs[2]) as byte, Value(fs[3]) as byte)) == s
  {
    var fs := Fields(s);
    DecimalValue(fs[0]);
    DecimalValue(fs[1]);
    DecimalValue(fs[2]);
    DecimalValue(fs[3]);
    assert Groups(Address(Value(fs[0]) as byte, Value(fs[1]) as byte, Value(fs[2]) as byte, Value(fs[3]) as byte)) == fs;
    DottedFields(s);
  }

  /** A text whose fields are not four octet groups is no printed address. */
  lemma NotQuadText(s: seq<byte>)
    requires !IsQuad(Fields(s))
    ensures forall addr :: Text(addr) != s
  {
    forall addr
      ensures Text(addr) != s
    {
      if Text(addr) == s {
        FieldsDotted(Groups(addr));
        OctetText(addr.a);
        OctetText(addr.b);
        OctetText(addr.c);
        OctetText(addr.d);
        assert false;
      }
    }
  }

  predicate IsDottedQuad(s: seq<byte>) {
    ParseAddress(s).Some?
  }

  /** The groups of an address in written order. */
  function Groups(addr: Address): seq<seq<byte>> {
    [Decimal(addr.a as nat), Decimal(addr.b as nat), Decimal(addr.c as nat), Decimal(addr.d as nat)]
  }

  /** The address printed as `a.b.c.d`. */
  function Text(addr: Address): seq<byte> {
    Dotted(Groups(addr))
  }

  // ---------------------------------------------------------------------

  lemma {:induction false} ValueDecimal(n: nat)
    ensures Value(Decimal(n)) == n
    decreases n
  {
    if n >= 10 {
      var s := Decimal(n);
      assert s[..|s| - 1] == Decimal(n / 10);
      ValueDecimal(n / 10);
    }
  }

  lemma {:induction false} ValuePositive(s: seq<byte>)
    requires Canonical(s) && |s| > 1
    ensures Value(s) >= 10
    decreases |s|
  {
    var p := s[..|s| - 1];
    if |p| > 1 {
      ValuePositive(p);
    } else {
      assert p[0] == s[0];
    }
  }

  lemma {:induction false} DecimalValue(s: seq<byte>)
    requires Canonical(s)
    ensures Decimal(Value(s)) == s
    decreases |s|
  {
    if |s| > 1 {
      var p := s[..|s| - 1];
      var n := Value(s);
      assert p[0] == s[0];
      if |p| > 1 {
        ValuePositive(p);
      }
      assert Value(p) >= 1;
      assert n / 10 == Value(p) && n % 10 == DigitValue(s[|s| - 1]);
      DecimalValue(p);
      assert s == p + [s[|s| - 1]];
    }
  }

  lemma OctetText(x: byte)
    ensures IsOctetText(Decimal(x as nat))
  {
    ValueDecimal(x as nat);
  }

  /** Printing an address and parsing the text gives the address back. */
  lemma ParseText(addr: Address)
    ensures ParseAddress(Text(addr)) == Some(addr)
  {
    var gs := Groups(addr);
    FieldsDotted(gs);
    OctetText(addr.a);
    OctetText(addr.b);
    OctetText(addr.c);
    OctetText(addr.d);
    ValueDecimal(addr.a as nat);
    ValueDecimal(addr.b as nat);
    ValueDecimal(addr.c as nat);
    ValueDecimal(addr.d as nat);
  }

  /** The parser accepts a text as an address exactly when the text is how
      `inet_ntoa` prints that address. */
  lemma ParseAddressText(s: seq<byte>, addr: Address)
    ensures ParseAddress(s) == Some(addr) <==> Text(addr) == s
  {
    if ParseAddress(s) == Some(addr) {
      TextParse(s);
    }
    if Text(addr) == s {
      ParseText(addr);
    }
  }

  /** A dotted quad is exactly the printed form of the address it denotes:
      the accepted syntax has no alternative spellings. */
  lemma TextParse(s: seq<byte>)
    requires IsDottedQuad(s)
    ensures Text(ParseAddress(s).value) == s
    ensures Groups(ParseAddress(s).value) == Fields(s)
  {
    var fs := Fields(s);
    DecimalValue(fs[0]);
    DecimalValue(fs[1]);
    DecimalValue(fs[2]);
    DecimalValue(fs[3]);
    assert Groups(ParseAddress(s).value) == fs;
    DottedFields(s);
  }
}
