# dnsmess DNS message codec in Dafny

This project models the two halves of the `dnsmess` command-line resolver that build and read DNS messages:

- **The query builder, `createQuery`.** It decides whether its argument is an IPv4 address. If it is, the query is a reverse (PTR, type 0x0C) lookup of `d.c.b.a.in-addr.arpa`; otherwise it is a forward (A, type 0x01) lookup of the argument. The builder writes:
  - the fixed 12-byte header `47 4C 01 00 00 01 00 00 00 00 00 00`;
  - the name, cut at dots the way `strtok` cuts it, each piece as a length byte and its bytes;
  - a zero byte;
  - QTYPE and QCLASS IN.
- **The response decoder, the part of `dnsLookup` after `recvfrom`.** It works on the 512-byte receive buffer, which was zeroed before the response arrived. It reads RCODE from the low four bits of byte 3: 2 is SERVFAIL and 3 is NXDOMAIN, and both stop the lookup. Any other value leads to a byte-by-byte scan for the pattern `C0 ?? ?? type`.
  - For A, it reports the four bytes 12 past each hit and resumes 13 past it.
  - For PTR, it jumps `buf[i+1]` bytes ahead and walks a name. The walk reads the first byte as a length, always. It follows `C0` pointers to `buf[p+1]` and `C1` pointers to `(rec+1) - buf[p+1]`. It remembers only the last pointer position `k`. When the name ends after a pointer was followed, the cursor moves to `k + 1`, and the loop's `i++` makes the scan resume at `k + 2`, just after both bytes of that pointer. When no pointer was followed, the cursor stays on the terminating zero byte and the scan resumes just after it.

Both halves are pure functions over byte sequences:

- `Query.CreateQuery` builds a `DnsQuery`.
- `Response.Decode` maps the received bytes to an `Outcome`: `ServerFailure`, `NameError`, `NoRecords`, `Found(records)` or `Malformed`.
- `Response.Lookup` gives the 0 / -1 status of `dnsLookup`.

The `LookupLoops` module writes the decoder again in the shape of the C loops and proves that it computes the same as the functions. The resume slot `k` is shared by all records of the scan, as in the C code. The walk hands its final `k` back and is proved to leave it at 0, so every record starts without a remembered position.

Modules:

| module | file | contents |
|---|---|---|
| `Bytes` | bytes.dfy | `byte`, `BufferSize` (512), `Option` |
| `Names` | names.dfy | `strtok` splitting, dot joining, label encoding and reading |
| `Ipv4` | ipv4.dfy | dotted-quad parsing and printing |
| `Query` | query.dfy | the query builder |
| `Response` | response.dfy | the decoder: RCODE, A scan, PTR name walk and PTR scan |
| `ScanProperties` | scan_properties.dfy | RCODE rules, and what the A scan reports, stated declaratively |
| `WalkProperties` | walk_properties.dfy | the PTR walk on standard and on compressed names |
| `LookupLoops` | lookup_loops.dfy | the decoder as the C loops, proved equal to `Response` |

Where the program departs from RFC 1035 or from what a validating decoder would do, the model follows the program:

- **Short responses.** A response shorter than the 12-byte header is not rejected. A response of fewer than four bytes has RCODE 0. A longer one takes RCODE from its fourth byte, so a 4- to 11-byte response can still be SERVFAIL or NXDOMAIN (`ScanProperties.RcodeOfReceived`). Past `rec` the scan reads zeros.
- **Dots between labels.** The walk prints a `.` only between labels, never after the last one (dnsmess.c:229-240), so the printed name has no trailing root dot. A PTR name is therefore `Names.Dotted` of its labels.
- **No construction errors.** The builder does not reject labels over 63 bytes (section 2.3.4 of RFC 1035) or messages over 512 bytes. The length byte is `strlen` stored into an `unsigned char` (`Names.LengthByte`, length mod 256). The message must fit the 512-byte array, which the model states as a precondition.
- **Pointers.** Pointers are not the 14-bit offsets of section 4.1.4 of RFC 1035. A `C0` pointer uses only its second byte, and a `C1` pointer counts back from `rec + 1`.
- **Reads past the received bytes.** Reads are bounded by the 512-byte buffer, not by the received length. Bytes past `rec` read as zero.
- **Faults.** A read outside the buffer in the model makes the whole outcome `Malformed`, not just the record being read.

## Model

| member | source | states |
|---|---|---|
| Names.Split | dnsmess.c:119-131 | the components `strtok` returns are non-empty and contain no dot |
| Names.SplitToken | dnsmess.c:119-130 | a non-empty dot-free name is one component |
| Names.SplitAppend | dnsmess.c:119-131 | splitting `a.b` gives the components of `a` followed by those of `b` |
| Names.SplitDropsOuterDots | dnsmess.c:119-131 | a leading or trailing dot adds no empty component |
| Names.SplitDotted | dnsmess.c:119-131 | joining non-empty dot-free components with dots and splitting again gives them back |
| Names.DottedAppend | dnsmess.c:227-240 | joining two non-empty label lists puts exactly one dot between them |
| Names.DottedFields | dnsmess.c:114 | joining the dot-separated fields of a text restores the text |
| Names.FieldsDotted | dnsmess.c:114 | the fields of dot-joined dot-free groups are those groups |
| Names.LengthByte | dnsmess.c:123 | the stored length byte equals the component length whenever that length fits a byte |
| Names.LabelBytes | dnsmess.c:120-131 | the encoded components take one length byte plus their bytes each |
| Names.EncodeLabels | dnsmess.c:119-132 | the encoded name is one byte longer than its labels and ends with the zero byte |
| Names.ReadEncoded | dnsmess.c:119-132 | reading length-prefixed labels from an encoded name gives back exactly the encoded list, ending at the closing zero byte |
| Ipv4.Decimal | dnsmess.c:114 | an octet prints as canonical decimal of one to three digits |
| Ipv4.ValueDecimal | dnsmess.c:114 | the printed decimal denotes the number printed |
| Ipv4.DecimalValue | dnsmess.c:102 | a canonical decimal string is the printed form of its value |
| Ipv4.ParseAddress | dnsmess.c:102 | a parsed address prints back as the text, and a text that is not parsed is the printed form of no address |
| Ipv4.QuadText | dnsmess.c:102-114 | four octet groups are the printed form of the address they denote |
| Ipv4.NotQuadText | dnsmess.c:102 | a text whose fields are not four octet groups is the printed form of no address |
| Ipv4.ParseAddressText | dnsmess.c:102-114 | the parser returns an address exactly when the text is that address as `inet_ntoa` prints it |
| Ipv4.ParseText | dnsmess.c:102-114 | parsing a printed address gives the address back |
| Ipv4.TextParse | dnsmess.c:102-114 | printing a parsed address reproduces the text, group by group |
| Query.CreateQuery | dnsmess.c:96-137 | the query fits 512 bytes, starts with the fixed header, and ends with the zero byte, QTYPE and QCLASS 1. The type is PTR exactly for a dotted quad. The length is 12 plus the encoded name plus 4 |
| Query.ReverseLookupLabels | dnsmess.c:112-131 | for `a.b.c.d` the question's labels are `d`, `c`, `b`, `a`, `in-addr`, `arpa`, the user's own groups reversed |
| Query.ForwardLookupLabels | dnsmess.c:102-134 | any other argument is looked up by its `strtok` components: the QTYPE byte is 1, and when every component is shorter than 256 bytes, reading the built message from offset 12 gives exactly those components |
| Query.ReverseQueryFits | dnsmess.c:112-134 | a reverse query is at most 46 bytes, so it always fits the buffer |
| Query.QueryRoundTrip | dnsmess.c:119-134 | reading the question from offset 12 gives back exactly the labels written, ending at the byte just before QTYPE |
| Response.ZeroFilled | dnsmess.c:150-155 | the buffer holds the received bytes and then zeros up to 512 |
| Response.AScan | dnsmess.c:205-210 | every reported position is a pattern match within the received bytes whose address lies inside the buffer |
| Response.WalkName | dnsmess.c:225-241 | a finished walk emits at least one label |
| Response.PtrScan | dnsmess.c:221-244 | the scan reports at most its budget of names, each of at least one label |
| Response.Decode | dnsmess.c:189-252 | SERVFAIL and NXDOMAIN exactly for RCODE 2 and 3 of the fourth byte. A success carries records, all of the query's type |
| Response.Lookup | dnsmess.h:32-38 | the status is 0 or -1, and 0 exactly when records were found |
| ScanProperties.RcodeOfReceived | dnsmess.c:155-190 | RCODE is the low four bits of the fourth byte received, and 0 when fewer than four bytes arrived |
| ScanProperties.RcodeShortCircuits | dnsmess.c:190-200 | under RCODE 2 or 3 nothing else in the response, nor the query type, changes the outcome |
| ScanProperties.OtherRcodesScan | dnsmess.c:190-250 | under any other RCODE the outcome is neither SERVFAIL nor NXDOMAIN. It is "no record" exactly when no position matches the query type. A forward lookup faults only on a 0xC0 among the last 15 buffer positions |
| ScanProperties.AScanEmpty | dnsmess.c:205-215 | the A scan reports nothing exactly when no position matches and none overruns |
| ScanProperties.PtrScanEmpty | dnsmess.c:221-249 | the PTR scan reports nothing exactly when no position matches and none overruns |
| ScanProperties.DecodeNoRecords | dnsmess.c:212-249 | "no record found" exactly when the RCODE passes and nothing in the received bytes matches |
| ScanProperties.LookupContract | dnsmess.h:32-38 | `dnsLookup` returns 0 exactly when the RCODE is neither 2 nor 3, the scan does not fault, and some received position matches the query type |
| ScanProperties.AScanCharacterised | dnsmess.c:205-210 | the A scan reports the one hit sequence that is increasing, 13 apart, all matches, and covers every match it does not skip |
| ScanProperties.AScanFault | dnsmess.c:206-208 | the A scan faults only on a 0xC0 byte among the last 15 buffer positions |
| ScanProperties.DecodeAddresses | dnsmess.c:205-210 | a forward lookup's records are the addresses 12 past the hits of that hit sequence, in order |
| ScanProperties.AScanSkip | dnsmess.c:205-206 | positions that do not match leave the A scan's report unchanged |
| ScanProperties.DecodeOneAddress | dnsmess.c:205-210 | a response with one standard A answer decodes to exactly its RDATA address |
| WalkProperties.LabelRunBounds | dnsmess.c:226-228 | a run of labels stays inside the buffer and each label takes at least two bytes |
| WalkProperties.WalkToPointer | dnsmess.c:226-240 | over ordinary labels the walk emits them one by one, then jumps to the pointer target and remembers the pointer position |
| WalkProperties.WalkRunAtEnd | dnsmess.c:229-235 | at the terminator the cursor goes just past the remembered position if there is one, and stays on the terminator otherwise |
| WalkProperties.WalkPlainName | dnsmess.c:225-235 | an uncompressed name is read exactly, and the cursor ends on its zero byte |
| WalkProperties.WalkOnePointer | dnsmess.c:225-240 | a name ending in one pointer reads as its labels followed by the target's labels, and the scan resumes after the pointer |
| WalkProperties.WalkTwoPointers | dnsmess.c:236-238 | a second pointer overwrites the remembered one, so the scan resumes after the second pointer, not after the first |
| WalkProperties.WalkNameShape | dnsmess.c:225-228 | a finished walk began at a length byte whose label fits, emits that label first, and emits at most one label per step |
| WalkProperties.PointerFirstIsLength | dnsmess.c:226-227 | a 0xC0 at the start of a walk is read as a 192-byte label length, not as a pointer |
| WalkProperties.WalkFuelMonotone | dnsmess.c:225-241 | a finished walk gives the same result under any larger step budget |
| WalkProperties.RunOfLabelBytes | dnsmess.c:226-228 | labels encoded as in the query are read back as one run by the walk |
| WalkProperties.PtrScanSkip | dnsmess.c:221-222 | positions that do not match leave the PTR scan's report unchanged |
| WalkProperties.PtrScanOne | dnsmess.c:221-244 | a scan with one match reports exactly the name walked from that match |
| WalkProperties.DecodePtrPlain | dnsmess.c:221-244 | a reverse lookup with one standard PTR answer holding a plain name decodes to that name |
| WalkProperties.DecodePtrCompressed | dnsmess.c:221-244 | a PTR answer whose name ends in a pointer decodes to its labels followed by the target's labels |
| LookupLoops.AddressLoop | dnsmess.c:205-210 | the A loop, with `i += 12` then `i++`, reports what `AScan` reports |
| LookupLoops.NameLoop | dnsmess.c:151-244 | the PTR loop, with one resume slot `k` shared by all records and kept at 0 between records, reports what `PtrScan` reports |
| LookupLoops.NameStep | dnsmess.c:222-243 | one pass of the PTR loop body keeps the loop's invariant and leaves `k` at 0, or faults only where the scan faults |
| LookupLoops.NameRecord | dnsmess.c:222-243 | the loop body at a match appends the walked name and moves past it, as `PtrScan` does, with `k` back at 0 |
| LookupLoops.WalkLoop | dnsmess.c:225-241 | the `while (1)` loop with its mutable `i`, `j` and `k`, entered with any `k`, emits what `WalkName` emits, and a finished walk leaves `k` at 0 |
| LookupLoops.LookupSteps | dnsmess.c:189-252 | the decoding code as straight-line steps computes `Decode` |

## Left out

- `main`, argument checking and the exit status: command-line plumbing outside the codec.
- `hexDump` and every `printf`: output is modelled as `Outcome` data. `Record.Line` gives each printed line's bytes.
- Socket creation, `sendto`, `recvfrom` and `close`: I/O. The received bytes are an input, and `rec` is their count.
- Ipv4.ParseAddress: accepts only the strict dotted quad, while `inet_aton` also accepts forms such as `1.2` or `0x7f.1`, because its full grammar belongs to libc.
- `htonl`: the byte reversal of a little-endian host is modelled. On a big-endian host the reverse name would not be reversed.
- `strcat` into the static `inet_ntoa` buffer: it is a memory-safety defect, so the model just appends `.in-addr.arpa`.
- `strdup` and memory ownership: `request` is the argument's bytes.
- `printf("%.*s")` stopping at a NUL byte inside a label: labels are raw bytes.
- Query.CreateQuery: requires the message to fit the 512-byte array, because the C code writes past it unchecked. Nothing checks for labels over 63 bytes, and an over-long component's length byte wraps mod 256.
- Query.QueryRoundTrip: requires every label to be shorter than 256 bytes, because a wrapped length byte cannot be read back.
- Response.Decode: returns `Malformed` where the C code would read outside the 512-byte buffer, or where its scan or walk would never stop. A step budget bounds each walk (`WalkFuel`, 512 × 512 labels) and each scan (`ScanFuel`, 512 names). That the budgets are never reached by a walk or scan that terminates in C is argued in comments, not proved.
- Response.WalkName: its contract states only that a finished walk emits a label. The start position, the first label and the budget bound are in `WalkProperties.WalkNameShape`.
- Response.PtrScan: its contract bounds the number of names but does not characterise them independently. Concrete responses are covered by `WalkProperties.DecodePtrPlain` and `WalkProperties.DecodePtrCompressed`.
