/**
  The variable-length key of a flow: destination and source with their prefix lengths, each
  optional, then traffic class, protocol and interface index.  Fields are found by chained
  offsets computed from the length bytes.
*/
module FlowKey {
  import opened Basics

  const KEY_MAX := 42
  const OFFSET_DLEN := 0
  const OFFSET_DST := 1

  /** A present address: its bytes and its prefix length in bits. */
  datatype Prefix = Prefix(addr: seq<byte>, mask: byte)

  datatype Flow = Flow(dst: Option<Prefix>, src: Option<Prefix>, class_: byte, protocol: byte, index: u32)

  /** A length fits its byte, and a length of zero means there is no address. */
  predicate ValidPrefix(p: Option<Prefix>) { p.Some? ==> 1 <= |p.value.addr| <= 255 }

  predicate Describable(f: Flow) {
    ValidPrefix(f.dst) && ValidPrefix(f.src)
  }

  function PrefixLength(p: Option<Prefix>): nat {
    match p case None => 0 case Some(x) => |x.addr|
  }

  function FieldSize(p: Option<Prefix>): nat {
    match p case None => 1 case Some(x) => |x.addr| + 2
  }

  /** The key is long enough for the flow, as it is for any two addresses of up to 16 bytes. */
  predicate ValidFlow(f: Flow) {
    Describable(f) && FieldSize(f.dst) + FieldSize(f.src) + 6 <= KEY_MAX
  }

  /** A length byte, then address and prefix length if the length is not zero. */
  function PrefixBytes(p: Option<Prefix>): seq<byte>
    requires ValidPrefix(p)
  {
    match p
    case None => [0]
    case Some(x) => [|x.addr|] + x.addr + [x.mask]
  }

  /** The documented layout. */
  function Encode(f: Flow): (key: seq<byte>)
    requires Describable(f)
    ensures |key| == FieldSize(f.dst) + FieldSize(f.src) + 6
  {
    PrefixBytes(f.dst) + PrefixBytes(f.src) + [f.class_, f.protocol] + WordBytes(f.index)
  }

  // ----- the accessors -----

  function At(key: seq<byte>, i: int): byte { if 0 <= i < |key| then key[i] else 0 }

  function DstLength(key: seq<byte>): byte { At(key, OFFSET_DLEN) }

  function OffsetDmask(key: seq<byte>): int {
    if DstLength(key) != 0 then OFFSET_DST + DstLength(key) else 0
  }

  function OffsetSlen(key: seq<byte>): int {
    if DstLength(key) != 0 then 2 + DstLength(key) else OFFSET_DST
  }

  function SrcLength(key: seq<byte>): byte { At(key, OffsetSlen(key)) }

  function OffsetSrc(key: seq<byte>): int { OffsetSlen(key) + 1 }

  function OffsetSmask(key: seq<byte>): int {
    if SrcLength(key) != 0 then OffsetSrc(key) + SrcLength(key) else 0
  }

  function OffsetTrafficClass(key: seq<byte>): int {
    if SrcLength(key) != 0 then OffsetSmask(key) + 1 else OffsetSlen(key) + 1
  }

  function OffsetProtocol(key: seq<byte>): int { OffsetTrafficClass(key) + 1 }

  function OffsetIndex(key: seq<byte>): int { OffsetProtocol(key) + 1 }

  function Slice(key: seq<byte>, start: int, len: nat): seq<byte> {
    if 0 <= start && start + len <= |key| then key[start..start + len] else []
  }

  function DstMaskLength(key: seq<byte>): byte { At(key, OffsetDmask(key)) }

  function SrcMaskLength(key: seq<byte>): byte { At(key, OffsetSmask(key)) }

  function InterfaceIndex(key: seq<byte>): u32 {
    var b := Slice(key, OffsetIndex(key), 4);
    if |b| == 4 then WordValue(b) else 0
  }

  /** Everything the accessors read from a key. */
  function Decode(key: seq<byte>): Flow {
    Flow(if DstLength(key) == 0 then None
         else Some(Prefix(Slice(key, OFFSET_DST, DstLength(key)), DstMaskLength(key))),
         if SrcLength(key) == 0 then None
         else Some(Prefix(Slice(key, OffsetSrc(key), SrcLength(key)), SrcMaskLength(key))),
         At(key, OffsetTrafficClass(key)), At(key, OffsetProtocol(key)),
         InterfaceIndex(key))
  }

  /** The offsets land where the layout put the fields. */
  lemma OffsetsFit(f: Flow)
    requires ValidFlow(f)
    ensures var key, d, s := Encode(f), FieldSize(f.dst), FieldSize(f.src);
            && |key| == d + s + 6 <= KEY_MAX
            && DstLength(key) == PrefixLength(f.dst) && OffsetSlen(key) == d
            && SrcLength(key) == PrefixLength(f.src)
            && OffsetTrafficClass(key) == d + s && OffsetIndex(key) == d + s + 2
  {
    var key, d := Encode(f), FieldSize(f.dst);
    assert key[0] == PrefixBytes(f.dst)[0];
    assert key[d] == PrefixBytes(f.src)[0];
  }

  lemma DestinationRead(f: Flow)
    requires ValidFlow(f)
    ensures Decode(Encode(f)).dst == f.dst
  {
    OffsetsFit(f);
    var key, d := Encode(f), FieldSize(f.dst);
    if f.dst.Some? {
      assert key[1..d - 1] == f.dst.value.addr;
      assert key[d - 1] == f.dst.value.mask;
    }
  }

  lemma SourceRead(f: Flow)
    requires ValidFlow(f)
    ensures Decode(Encode(f)).src == f.src
  {
    OffsetsFit(f);
    var key, d, s := Encode(f), FieldSize(f.dst), FieldSize(f.src);
    if f.src.Some? {
      assert key[d + 1..d + s - 1] == f.src.value.addr;
      assert key[d + s - 1] == f.src.value.mask;
    }
  }

  /** The accessors read back every field that was set. */
  lemma KeyRoundTrip(f: Flow)
    requires ValidFlow(f)
    ensures Decode(Encode(f)) == f
  {
    OffsetsFit(f);
    DestinationRead(f);
    SourceRead(f);
    var key, end := Encode(f), FieldSize(f.dst) + FieldSize(f.src);
    assert key[end] == f.class_ && key[end + 1] == f.protocol;
    assert key[end + 2..end + 6] == WordBytes(f.index);
    WordRoundTrip(f.index);
  }

  /** Where the fields lie, byte by byte: the length of the destination first, then, if it is not
      zero, the address and the prefix length; the same for the source; then class and protocol
      and the four bytes of the index, least significant first. */
  lemma KeyLayout(f: Flow)
    requires ValidFlow(f)
    ensures var key, n, m := Encode(f), PrefixLength(f.dst), PrefixLength(f.src);
            var d := if n == 0 then 1 else n + 2;
            var s := d + if m == 0 then 1 else m + 2;
            && |key| == s + 6 && key[0] as int == n && key[d] as int == m
            && (f.dst.Some? ==> key[1..1 + n] == f.dst.value.addr && key[1 + n] == f.dst.value.mask)
            && (f.src.Some? ==> key[d + 1..d + 1 + m] == f.src.value.addr && key[d + 1 + m] == f.src.value.mask)
            && key[s] == f.class_ && key[s + 1] == f.protocol
            && f.index as int == key[s + 2] as int + 256 * (key[s + 3] as int)
                              + 65536 * (key[s + 4] as int) + 16777216 * (key[s + 5] as int)
  {
    OffsetsFit(f);
    DestinationRead(f);
    SourceRead(f);
    KeyEnd(f);
  }

  lemma KeyEnd(f: Flow)
    requires ValidFlow(f)
    ensures var key, s := Encode(f), FieldSize(f.dst) + FieldSize(f.src);
            && key[s] == f.class_ && key[s + 1] == f.protocol
            && f.index as int == key[s + 2] as int + 256 * (key[s + 3] as int)
                              + 65536 * (key[s + 4] as int) + 16777216 * (key[s + 5] as int)
  {
    var key, s := Encode(f), FieldSize(f.dst) + FieldSize(f.src);
    WordRoundTrip(f.index);
    assert forall i | 0 <= i < 4 :: key[s + 2 + i] == WordBytes(f.index)[i];
  }

  /** Equal keys mean equal flows. */
  lemma KeyInjective(f: Flow, g: Flow)
    requires ValidFlow(f) && ValidFlow(g) && Encode(f) == Encode(g)
    ensures f == g
  {
    KeyRoundTrip(f);
    KeyRoundTrip(g);
  }

  /** Without a source address, asking for its prefix length reads the destination's length
      byte: the answer is the expected zero exactly if there is no destination either. */
  lemma AbsentSourceMask(f: Flow)
    requires ValidFlow(f) && f.src.None?
    ensures SrcMaskLength(Encode(f)) == PrefixLength(f.dst)
    ensures SrcMaskLength(Encode(f)) == 0 <==> f.dst.None?
  {
    OffsetsFit(f);
  }

  /** Without a destination, its prefix length does read as zero. */
  lemma AbsentDestinationMask(f: Flow)
    requires ValidFlow(f) && f.dst.None?
    ensures DstMaskLength(Encode(f)) == 0
  {
    OffsetsFit(f);
  }

  // ----- setting the key -----

  /** A prefix length counts bits of its address. */
  predicate Masked(p: Option<Prefix>) { p.Some? ==> p.value.mask as int <= 8 * |p.value.addr| }

  predicate FullPrefix(p: Option<Prefix>) { p.Some? && p.value.mask as int == 8 * |p.value.addr| }

  const CLASS_ANY := 0x03

  /** No field is left open. */
  predicate Specified(f: Flow, reserved: byte) {
    FullPrefix(f.dst) && FullPrefix(f.src) && f.class_ != CLASS_ANY && f.protocol != reserved && f.index != 0
  }

  /** A field of the key: how many of its leading bits are specified, and whether all are. */
  datatype Field = Field(bits: nat, whole: bool)

  /** An address with its length byte before it and its prefix length after it, if the prefix
      covers the address; else the length byte and the prefix, or nothing at all. */
  function AddressField(p: Option<Prefix>): Field {
    match p
    case None => Field(0, false)
    case Some(x) =>
      var whole := x.mask as int == 8 * |x.addr|;
      Field(if whole then 8 + 8 * |x.addr| + 8 else 8 + x.mask as int, whole)
  }

  /** The fields in the order of the key; a class of three, the reserved protocol and an index
      of zero stand for any. */
  function Fields(f: Flow, reserved: byte): seq<Field> {
    [AddressField(f.dst), AddressField(f.src),
     if f.class_ == 3 then Field(0, false) else Field(8, true),
     if f.protocol == reserved then Field(0, false) else Field(8, true),
     if f.index == 0 then Field(0, false) else Field(32, true)]
  }

  /** The specified bits up to the first field left open, and that field's own. */
  function LeadingBits(fields: seq<Field>): nat {
    if fields == [] then 0
    else fields[0].bits + if fields[0].whole then LeadingBits(fields[1..]) else 0
  }

  lemma LeadingFive(a: Field, b: Field, c: Field, d: Field, e: Field)
    ensures LeadingBits([a, b, c, d, e]) ==
            a.bits + if !a.whole then 0 else
            b.bits + if !b.whole then 0 else
            c.bits + if !c.whole then 0 else
            d.bits + if !d.whole then 0 else e.bits
  {
    assert [a, b, c, d, e][1..] == [b, c, d, e] && [b, c, d, e][1..] == [c, d, e];
    assert [c, d, e][1..] == [d, e] && [d, e][1..] == [e] && [e][1..] == [];
    assert LeadingBits([e]) == e.bits;
    assert LeadingBits([d, e]) == d.bits + if d.whole then LeadingBits([e]) else 0;
    assert LeadingBits([c, d, e]) == c.bits + if c.whole then LeadingBits([d, e]) else 0;
    assert LeadingBits([b, c, d, e]) == b.bits + if b.whole then LeadingBits([c, d, e]) else 0;
  }

  class Description {
    const flowKey: array<byte>
    var keySize: nat     // in bits
    var prefixSize: nat  // in bits

    ghost predicate Valid() { flowKey.Length == KEY_MAX }

    constructor ()
      ensures Valid() && fresh(flowKey) && keySize == 0 && prefixSize == 0
    {
      flowKey := new byte[KEY_MAX](_ => 0);
      keySize, prefixSize := 0, 0;
    }

    /** The bytes of the key. */
    ghost function Key(): seq<byte>
      reads this, flowKey
      requires Valid() && keySize <= 8 * KEY_MAX
    {
      flowKey[..keySize / 8]
    }

    method Put(offset: nat, bytes: seq<byte>) returns (next: nat)
      requires Valid() && offset + |bytes| <= KEY_MAX
      modifies flowKey
      ensures next == offset + |bytes|
      ensures flowKey[..next] == old(flowKey[..offset]) + bytes
    {
      for i := 0 to |bytes|
        invariant flowKey[..offset + i] == old(flowKey[..offset]) + bytes[..i]
      {
        flowKey[offset + i] := bytes[i];
      }
      next := offset + |bytes|;
    }

    /** A length byte, then address and prefix length if there is an address. */
    method PutPrefix(offset: nat, p: Option<Prefix>) returns (next: nat)
      requires Valid() && ValidPrefix(p) && offset + FieldSize(p) <= KEY_MAX
      modifies flowKey
      ensures next == offset + FieldSize(p)
      ensures flowKey[..next] == old(flowKey[..offset]) + PrefixBytes(p)
    {
      next := Put(offset, [PrefixLength(p)]);
      if p.Some? {
        next := Put(next, p.value.addr);
        next := Put(next, [p.value.mask]);
      }
    }

    method PutFields(f: Flow)
      requires Valid() && ValidFlow(f)
      modifies flowKey
      ensures flowKey[..|Encode(f)|] == Encode(f)
    {
      var offset := PutPrefix(0, f.dst);
      offset := PutPrefix(offset, f.src);
      offset := Put(offset, [f.class_]);
      offset := Put(offset, [f.protocol]);
      offset := Put(offset, WordBytes(f.index));
    }

    /** Set the key, or clear its size if the flow does not fit. */
    method SetKey(f: Flow, reserved: byte)
      requires Valid() && Describable(f)
      modifies `keySize, `prefixSize, flowKey
      ensures keySize == if ValidFlow(f) then 8 * |Encode(f)| else 0
      ensures ValidFlow(f) ==> keySize <= 8 * KEY_MAX && Key() == Encode(f)
      ensures !ValidFlow(f) ==> flowKey[..] == old(flowKey[..]) && prefixSize == old(prefixSize)
      ensures ValidFlow(f) ==> prefixSize == LeadingBits(Fields(f, reserved))
      ensures ValidFlow(f) && Masked(f.dst) && Masked(f.src) ==>
                prefixSize <= keySize && (prefixSize == keySize <==> Specified(f, reserved))
    {
      var keylen := FieldSize(f.dst) + FieldSize(f.src) + 6;
      if keylen > KEY_MAX {
        keySize := 0;
        return;
      }
      PutFields(f);
      prefixSize := MeasurePrefix(f, reserved);
      keySize := 8 * keylen;
    }
  }

  /** How many leading bits of the key are specified: all of them exactly if no field is left
      open. */
  method MeasurePrefix(f: Flow, reserved: byte) returns (prefixSize: nat)
    requires Describable(f)
    ensures prefixSize == LeadingBits(Fields(f, reserved))
    ensures Masked(f.dst) && Masked(f.src) ==>
              prefixSize <= 8 * |Encode(f)| && (prefixSize == 8 * |Encode(f)| <==> Specified(f, reserved))
  {
    ghost var fields := Fields(f, reserved);
    LeadingFive(fields[0], fields[1], fields[2], fields[3], fields[4]);
    assert fields == [fields[0], fields[1], fields[2], fields[3], fields[4]];
    prefixSize := 0;
    var extendPrefix := true;
    if f.dst.Some? {
      prefixSize := 8 + f.dst.value.mask;
      if f.dst.value.mask == 8 * |f.dst.value.addr| {
        prefixSize := prefixSize + 8;
      } else {
        extendPrefix := false;
      }
    } else {
      extendPrefix := false;
    }
    if f.src.Some? {
      if extendPrefix {
        prefixSize := prefixSize + 8 + f.src.value.mask;
        if f.src.value.mask == 8 * |f.src.value.addr| {
          prefixSize := prefixSize + 8;
        } else {
          extendPrefix := false;
        }
      }
    } else {
      extendPrefix := false;
    }
    if extendPrefix {
      if f.class_ != CLASS_ANY { prefixSize := prefixSize + 8; } else { extendPrefix := false; }
    }
    if extendPrefix {
      if f.protocol != reserved { prefixSize := prefixSize + 8; } else { extendPrefix := false; }
    }
    if extendPrefix && f.index != 0 {
      prefixSize := prefixSize + 32;
    }
  }
}
