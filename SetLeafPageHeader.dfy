/** The header of a Set leaf page: fixed fields at fixed byte offsets inside the
    64-byte page-header region, little-endian, overlaid on the page's memory. */
module Sets {
  import opened Bytes

  /** PageHeader.SizeOf: the size of the header region at the start of every page. */
  const PageHeaderSizeOf: nat := 64

  /** The fields of SetLeafPageHeader, in layout order. */
  datatype Field =
    | PageNumber
    | NumberOfCompressedPositions
    | Ceiling
    | Flags
    | SetFlags
    | Reserved
    | Baseline
    | NumberOfEntries

  const AllFields: seq<Field> :=
    [PageNumber, NumberOfCompressedPositions, Ceiling, Flags, SetFlags, Reserved, Baseline, NumberOfEntries]

  /** The FieldOffset of each field. */
  function Offset(f: Field): nat {
    match f
    case PageNumber => 0
    case NumberOfCompressedPositions => 8
    case Ceiling => 10
    case Flags => 12
    case SetFlags => 13
    case Reserved => 14
    case Baseline => 16
    case NumberOfEntries => 24
  }

  /** The size in bytes of each field's type: long, ushort, ushort, PageFlags (a byte),
      ExtendedPageType (a byte), byte[2], long, int. */
  function Width(f: Field): nat {
    match f
    case PageNumber => 8
    case NumberOfCompressedPositions => 2
    case Ceiling => 2
    case Flags => 1
    case SetFlags => 1
    case Reserved => 2
    case Baseline => 8
    case NumberOfEntries => 4
  }

  /** Fields of a signed C# type (long, int), stored in two's complement. */
  predicate IsSigned(f: Field) {
    f == PageNumber || f == Baseline || f == NumberOfEntries
  }

  /** Byte i of the header belongs to field f. */
  predicate InField(f: Field, i: int) {
    Offset(f) <= i < Offset(f) + Width(f)
  }

  lemma FieldsDisjoint(f: Field, g: Field, i: int)
    requires f != g
    ensures !(InField(f, i) && InField(g, i))
  {
  }

  lemma FieldsWithinHeader(f: Field)
    ensures Offset(f) + Width(f) <= PageHeaderSizeOf
  {
  }

  lemma AllFieldsListed(f: Field)
    ensures f in AllFields
  {
  }

  /** The values the C# type of field f can hold. */
  predicate InRange(f: Field, v: int) {
    if IsSigned(f) then -(Pow256(Width(f)) as int) / 2 <= v < Pow256(Width(f)) / 2
    else 0 <= v < Pow256(Width(f))
  }

  datatype SetLeafPageHeader = SetLeafPageHeader(
    pageNumber: int64,
    numberOfCompressedPositions: uint16,
    ceiling: uint16,
    flags: byte,
    setFlags: byte,
    reserved: uint16,  // the two bytes of Reserved[2], read little-endian
    baseline: int64,
    numberOfEntries: int32)
  {
    /** The value of field f. */
    function Get(f: Field): (v: int)
      ensures InRange(f, v)
    {
      Pow256Values();
      match f
      case PageNumber => pageNumber as int
      case NumberOfCompressedPositions => numberOfCompressedPositions as int
      case Ceiling => ceiling as int
      case Flags => flags as int
      case SetFlags => setFlags as int
      case Reserved => reserved as int
      case Baseline => baseline as int
      case NumberOfEntries => numberOfEntries as int
    }

    /** This header with field f set to v. */
    function With(f: Field, v: int): (h: SetLeafPageHeader)
      requires InRange(f, v)
      ensures h.Get(f) == v
      ensures forall g :: g != f ==> h.Get(g) == Get(g)
    {
      Pow256Values();
      match f
      case PageNumber => this.(pageNumber := v as int64)
      case NumberOfCompressedPositions => this.(numberOfCompressedPositions := v as uint16)
      case Ceiling => this.(ceiling := v as uint16)
      case Flags => this.(flags := v as byte)
      case SetFlags => this.(setFlags := v as byte)
      case Reserved => this.(reserved := v as uint16)
      case Baseline => this.(baseline := v as int64)
      case NumberOfEntries => this.(numberOfEntries := v as int32)
    }
  }

  /** Two headers that agree on every field are the same header. */
  lemma HeaderExtensionality(h: SetLeafPageHeader, k: SetLeafPageHeader)
    requires forall f :: h.Get(f) == k.Get(f)
    ensures h == k
  {
    assert h.Get(PageNumber) == k.Get(PageNumber);
    assert h.Get(NumberOfCompressedPositions) == k.Get(NumberOfCompressedPositions);
    assert h.Get(Ceiling) == k.Get(Ceiling);
    assert h.Get(Flags) == k.Get(Flags);
    assert h.Get(SetFlags) == k.Get(SetFlags);
    assert h.Get(Reserved) == k.Get(Reserved);
    assert h.Get(Baseline) == k.Get(Baseline);
    assert h.Get(NumberOfEntries) == k.Get(NumberOfEntries);
  }

  /** The bit pattern stored in memory for value v of field f. */
  function Raw(f: Field, v: int): (raw: nat)
    requires InRange(f, v)
    ensures raw < Pow256(Width(f))
  {
    if IsSigned(f) then Unsigned(v, Width(f)) else v
  }

  /** The value of field f whose stored bit pattern is raw. */
  function Cook(f: Field, raw: nat): (v: int)
    requires raw < Pow256(Width(f))
    ensures InRange(f, v)
    ensures Raw(f, v) == raw
  {
    if IsSigned(f) then UnsignedSigned(raw, Width(f)); Signed(raw, Width(f)) else raw
  }

  lemma CookRaw(f: Field, v: int)
    requires InRange(f, v)
    ensures Cook(f, Raw(f, v)) == v
  {
    if IsSigned(f) {
      SignedUnsigned(v, Width(f));
    }
  }

  /** The bytes of field f in a buffer that starts with a page header. */
  function FieldBytes(buf: seq<byte>, f: Field): (s: seq<byte>)
    requires |buf| >= PageHeaderSizeOf
    ensures |s| == Width(f)
  {
    buf[Offset(f)..Offset(f) + Width(f)]
  }

  lemma FieldByte(buf: seq<byte>, f: Field, i: int)
    requires |buf| >= PageHeaderSizeOf && 0 <= i < Width(f)
    ensures FieldBytes(buf, f)[i] == buf[Offset(f) + i]
  {
  }

  /** Reading field f from memory: its bytes, little-endian. */
  function Load(buf: seq<byte>, f: Field): (raw: nat)
    requires |buf| >= PageHeaderSizeOf
    ensures raw < Pow256(Width(f))
  {
    DecodeLE(FieldBytes(buf, f))
  }

  /** Writing field f to memory: its bytes replaced by the little-endian bit pattern,
      every other byte of the buffer kept. */
  function Store(buf: seq<byte>, f: Field, raw: nat): (r: seq<byte>)
    requires |buf| >= PageHeaderSizeOf && raw < Pow256(Width(f))
    ensures |r| == |buf|
    ensures Load(r, f) == raw
    ensures forall i :: 0 <= i < |buf| && !InField(f, i) ==> r[i] == buf[i]
    ensures forall i :: InField(f, i) ==> r[i] == EncodeLE(raw, Width(f))[i - Offset(f)]
  {
    var r := buf[..Offset(f)] + EncodeLE(raw, Width(f)) + buf[Offset(f) + Width(f)..];
    assert FieldBytes(r, f) == EncodeLE(raw, Width(f));
    r
  }

  /** Writing one field leaves the stored value of every other field as it was. */
  lemma StoreKeepsOtherFields(buf: seq<byte>, f: Field, raw: nat, g: Field)
    requires |buf| >= PageHeaderSizeOf && raw < Pow256(Width(f)) && g != f
    ensures Load(Store(buf, f, raw), g) == Load(buf, g)
  {
    var r := Store(buf, f, raw);
    forall i | 0 <= i < Width(g)
      ensures FieldBytes(r, g)[i] == FieldBytes(buf, g)[i]
    {
      var p := Offset(g) + i;
      FieldsDisjoint(f, g, p);
      FieldsWithinHeader(g);
      assert !InField(f, p) && r[p] == buf[p];
      FieldByte(r, g, i);
      FieldByte(buf, g, i);
    }
    assert FieldBytes(r, g) == FieldBytes(buf, g);
  }

  /** Storing back the value a field already holds changes nothing. */
  lemma StoreLoad(buf: seq<byte>, f: Field)
    requires |buf| >= PageHeaderSizeOf
    ensures Store(buf, f, Load(buf, f)) == buf
  {
    EncodeDecodeLE(FieldBytes(buf, f));
    forall i | InField(f, i)
      ensures buf[i] == EncodeLE(Load(buf, f), Width(f))[i - Offset(f)]
    {
      FieldByte(buf, f, i - Offset(f));
    }
    StoredBytes(buf, f, Load(buf, f), buf);
  }

  /** Viewing the start of a page as a SetLeafPageHeader. */
  function Decode(buf: seq<byte>): (h: SetLeafPageHeader)
    requires |buf| >= PageHeaderSizeOf
    ensures forall f :: Raw(f, h.Get(f)) == Load(buf, f)
  {
    Pow256Values();
    var h := SetLeafPageHeader(
      Cook(PageNumber, Load(buf, PageNumber)) as int64,
      Cook(NumberOfCompressedPositions, Load(buf, NumberOfCompressedPositions)) as uint16,
      Cook(Ceiling, Load(buf, Ceiling)) as uint16,
      Cook(Flags, Load(buf, Flags)) as byte,
      Cook(SetFlags, Load(buf, SetFlags)) as byte,
      Cook(Reserved, Load(buf, Reserved)) as uint16,
      Cook(Baseline, Load(buf, Baseline)) as int64,
      Cook(NumberOfEntries, Load(buf, NumberOfEntries)) as int32);
    assert forall f :: h.Get(f) == Cook(f, Load(buf, f));
    h
  }

  /** Assigning one field through the overlay changes that field of the header and no other. */
  lemma StoreThenDecode(buf: seq<byte>, f: Field, v: int)
    requires |buf| >= PageHeaderSizeOf && InRange(f, v)
    ensures Decode(Store(buf, f, Raw(f, v))) == Decode(buf).With(f, v)
  {
    var r := Store(buf, f, Raw(f, v));
    var h, k := Decode(r), Decode(buf).With(f, v);
    forall g ensures h.Get(g) == k.Get(g) {
      if g == f {
        CookRaw(f, h.Get(f));
        CookRaw(f, v);
      } else {
        StoreKeepsOtherFields(buf, f, Raw(f, v), g);
        CookRaw(g, h.Get(g));
        CookRaw(g, Decode(buf).Get(g));
      }
    }
    HeaderExtensionality(h, k);
  }

  /** Writing the fields fs of h, one after another, into buf. */
  function StoreFields(buf: seq<byte>, h: SetLeafPageHeader, fs: seq<Field>): (r: seq<byte>)
    requires |buf| >= PageHeaderSizeOf
    ensures |r| == |buf|
    decreases |fs|
  {
    if fs == [] then buf
    else StoreFields(Store(buf, fs[0], Raw(fs[0], h.Get(fs[0]))), h, fs[1..])
  }

  /** Writing a whole header into the start of a page; the bytes after the last field are kept. */
  function Encode(buf: seq<byte>, h: SetLeafPageHeader): (r: seq<byte>)
    requires |buf| >= PageHeaderSizeOf
    ensures |r| == |buf|
  {
    StoreFields(buf, h, AllFields)
  }

  lemma {:induction false} StoreFieldsLoad(buf: seq<byte>, h: SetLeafPageHeader, fs: seq<Field>, g: Field)
    requires |buf| >= PageHeaderSizeOf
    ensures Load(StoreFields(buf, h, fs), g) == if g in fs then Raw(g, h.Get(g)) else Load(buf, g)
    decreases |fs|
  {
    if fs != [] {
      var next := Store(buf, fs[0], Raw(fs[0], h.Get(fs[0])));
      StoreFieldsLoad(next, h, fs[1..], g);
      if g != fs[0] {
        StoreKeepsOtherFields(buf, fs[0], Raw(fs[0], h.Get(fs[0])), g);
      }
      assert g in fs <==> g == fs[0] || g in fs[1..];
    }
  }

  lemma {:induction false} StoreFieldsOutside(buf: seq<byte>, h: SetLeafPageHeader, fs: seq<Field>, i: int)
    requires |buf| >= PageHeaderSizeOf && 0 <= i < |buf|
    requires forall f :: f in fs ==> !InField(f, i)
    ensures StoreFields(buf, h, fs)[i] == buf[i]
    decreases |fs|
  {
    if fs != [] {
      StoreFieldsOutside(Store(buf, fs[0], Raw(fs[0], h.Get(fs[0]))), h, fs[1..], i);
    }
  }

  lemma {:induction false} StoreFieldsOfDecode(buf: seq<byte>, fs: seq<Field>)
    requires |buf| >= PageHeaderSizeOf
    ensures StoreFields(buf, Decode(buf), fs) == buf
    decreases |fs|
  {
    if fs != [] {
      StoreLoad(buf, fs[0]);
      StoreFieldsOfDecode(buf, fs[1..]);
    }
  }

  /** Decoding a freshly encoded header gives back every field value. */
  lemma DecodeEncode(buf: seq<byte>, h: SetLeafPageHeader)
    requires |buf| >= PageHeaderSizeOf
    ensures Decode(Encode(buf, h)) == h
  {
    var k := Decode(Encode(buf, h));
    forall g ensures k.Get(g) == h.Get(g) {
      StoreFieldsLoad(buf, h, AllFields, g);
      AllFieldsListed(g);
      CookRaw(g, k.Get(g));
      CookRaw(g, h.Get(g));
    }
    HeaderExtensionality(k, h);
  }

  /** Encoding the header a page already holds leaves the page as it was. */
  lemma EncodeDecode(buf: seq<byte>)
    requires |buf| >= PageHeaderSizeOf
    ensures Encode(buf, Decode(buf)) == buf
  {
    StoreFieldsOfDecode(buf, AllFields);
  }

  /** Encoding a header touches only bytes 0 to 27: the bytes after NumberOfEntries are kept. */
  lemma EncodeKeepsTail(buf: seq<byte>, h: SetLeafPageHeader, i: int)
    requires |buf| >= PageHeaderSizeOf && Offset(NumberOfEntries) + Width(NumberOfEntries) <= i < |buf|
    ensures Encode(buf, h)[i] == buf[i]
  {
    StoreFieldsOutside(buf, h, AllFields, i);
  }

  /** An assignment to one header field through a pointer into page memory. Reserved is a
      private fixed buffer that the source never assigns, so it is not a target here. */
  method WriteField(page: array<byte>, f: Field, v: int)
    requires page.Length >= PageHeaderSizeOf && InRange(f, v) && f != Reserved
    modifies page
    ensures page[..] == Store(old(page[..]), f, Raw(f, v))
    ensures Decode(page[..]) == Decode(old(page[..])).With(f, v)
    ensures forall i :: 0 <= i < page.Length && !InField(f, i) ==> page[i] == old(page[i])
  {
    ghost var before := page[..];
    FieldsWithinHeader(f);
    WriteBytes(page, Offset(f), EncodeLE(Raw(f, v), Width(f)));
    StoreThenDecode(before, f, v);
  }

  /** Copying bytes into memory at offset off; every other byte is kept. */
  method WriteBytes(page: array<byte>, off: nat, bytes: seq<byte>)
    requires off + |bytes| <= page.Length
    modifies page
    ensures page[..] == old(page[..off]) + bytes + old(page[off + |bytes|..])
  {
    forall i | off <= i < off + |bytes| {
      page[i] := bytes[i - off];
    }
    assert page[..] == old(page[..off]) + bytes + old(page[off + |bytes|..]);
  }

  /** A buffer holding raw's pattern in field f and the bytes of buf everywhere else is
      Store(buf, f, raw). */
  lemma StoredBytes(buf: seq<byte>, f: Field, raw: nat, r: seq<byte>)
    requires |buf| >= PageHeaderSizeOf && raw < Pow256(Width(f)) && |r| == |buf|
    requires forall i :: 0 <= i < |buf| && !InField(f, i) ==> r[i] == buf[i]
    requires forall i :: InField(f, i) ==> r[i] == EncodeLE(raw, Width(f))[i - Offset(f)]
    ensures r == Store(buf, f, raw)
  {
    var stored := Store(buf, f, raw);
    assert forall i :: 0 <= i < |r| ==> r[i] == stored[i];
  }

  /** C#'s unchecked int arithmetic: the 32-bit value congruent to x modulo 2^32. */
  function WrapInt32(x: int): (r: int32)
    ensures (r as int - x) % 0x1_0000_0000 == 0
  {
    ((x + 0x8000_0000) % 0x1_0000_0000 - 0x8000_0000) as int32
  }

  /** The largest size of SetLeafPage.CompressedHeader for which Floor cannot overflow. */
  const MaxCompressedHeaderSize: nat := 32768

  /** Floor: the end of the positions table, where the compressed entries may begin.
      compressedHeaderSize stands for sizeof(SetLeafPage.CompressedHeader). */
  function Floor(h: SetLeafPageHeader, compressedHeaderSize: nat): (r: int32)
    requires compressedHeaderSize > 0
    ensures var exact := PageHeaderSizeOf + h.numberOfCompressedPositions as int * compressedHeaderSize;
      r as int == exact <==> exact < 0x8000_0000
  {
    WrapInt32(PageHeaderSizeOf + h.numberOfCompressedPositions as int * compressedHeaderSize)
  }

  /** For a compressed header of at most 32768 bytes, Floor never overflows: it is the header
      size plus the size of the positions table. */
  lemma FloorExact(h: SetLeafPageHeader, c: nat)
    requires 0 < c <= MaxCompressedHeaderSize
    ensures Floor(h, c) as int == PageHeaderSizeOf + h.numberOfCompressedPositions as int * c
  {
    MulMonotone(h.numberOfCompressedPositions as int, 0xFFFF, c);
    MulMonotone(c, MaxCompressedHeaderSize, 0xFFFF);
  }

  /** For any larger compressed header, a full positions count overflows Floor. */
  lemma FloorOverflows(h: SetLeafPageHeader, c: nat)
    requires c > MaxCompressedHeaderSize && h.numberOfCompressedPositions == 0xFFFF
    ensures Floor(h, c) as int != PageHeaderSizeOf + h.numberOfCompressedPositions as int * c
  {
    assert 0xFFFF * c > 0x7FFF_FFFF - 64;
  }

  /** Floor is never below the header, and is exactly the header size when there are no positions. */
  lemma FloorAtLeastHeader(h: SetLeafPageHeader, c: nat)
    requires 0 < c <= MaxCompressedHeaderSize
    ensures Floor(h, c) as int >= PageHeaderSizeOf
    ensures Floor(h, c) as int == PageHeaderSizeOf <==> h.numberOfCompressedPositions == 0
  {
    FloorExact(h, c);
  }

  /** Floor grows strictly with the number of compressed positions. */
  lemma FloorStrictlyIncreasing(h: SetLeafPageHeader, k: SetLeafPageHeader, c: nat)
    requires 0 < c <= MaxCompressedHeaderSize
    requires h.numberOfCompressedPositions < k.numberOfCompressedPositions
    ensures Floor(h, c) < Floor(k, c)
  {
    FloorExact(h, c);
    FloorExact(k, c);
    MulStrictlyIncreasing(h.numberOfCompressedPositions as int, k.numberOfCompressedPositions as int, c);
  }

  lemma MulStrictlyIncreasing(n: int, m: int, c: int)
    requires n < m && c > 0
    ensures n * c < m * c
  {
    assert m * c == n * c + (m - n) * c;
  }

  lemma MulMonotone(n: int, m: int, c: int)
    requires n <= m && c >= 0
    ensures n * c <= m * c
  {
    assert m * c == n * c + (m - n) * c;
  }
}
