/**
  Fragmentation of one packet at one interface, in closed form, and what one such step
  guarantees: cover, minimality, size, and the split of the uncompressed size.

  Offsets are kept in bytes, and a piece carries as many bytes as the MTU leaves room
  for, without rounding to eight-octet units.
*/
module Fragmentation {
  import opened Basics
  import opened Kernel

  const FRAG_HEADER_V6 := 8

  /** C's integer division drops the fraction. */
  function TruncDiv(a: int, b: int): int
    requires b != 0
  {
    if b > 0 then (if a >= 0 then a / b else -(-a / b))
    else (if a >= 0 then -(a / -b) else -a / -b)
  }

  function ByteSize(d: Pkt): int { TruncDiv(d.size, 8) }

  /** The header of a packet as its size and payload length imply it. */
  function HeaderOf(d: Pkt): int { ByteSize(d) - d.fragLen }

  /** The header every piece will have. */
  function HeaderSize(d: Pkt): int { HeaderOf(d) + if d.v6 then FRAG_HEADER_V6 else 0 }

  /** The packet goes out as it is. */
  predicate Fits(d: Pkt, mtu: int, comp: int) {
    ByteSize(d) <= mtu && (d.compression.NoCompression? || comp <= mtu * 8)
  }

  /** Room for payload in one piece. */
  function Room(d: Pkt, mtu: int): int { mtu - HeaderSize(d) }

  /** The number of pieces as the source computes it.  At no room at all the source divides
      by zero; the value there stands for nothing, and no procedure is called for it. */
  function NumFrags(d: Pkt, mtu: int): int {
    if Room(d, mtu) == 0 then 0 else TruncDiv(d.fragLen + Room(d, mtu) - 1, Room(d, mtu))
  }

  /** The uncompressed size given to a piece with `len` of `total` payload bytes: the load
      in proportion to the bytes, plus the header, truncated to bits and then to bytes. */
  function OriginalShare(originalSize: int, header: int, len: int, total: int): int
    requires total != 0
  {
    8 * TruncDiv(TruncDiv((originalSize - header * 8) * len + header * 8 * total, total), 8)
  }

  function ShareOf(d: Pkt, mtu: int): int {
    if d.compression.PerVirtualCircuit? && d.fragLen != 0
    then OriginalShare(d.originalSize, HeaderSize(d), Room(d, mtu), d.fragLen)
    else 0
  }

  /** The datagram a last piece carries: the original itself, or what it carried. */
  function Passenger(d: Pkt): Option<Pkt> {
    if d.frag then d.carried else Some(d.(carried := None))
  }

  /** The piece with index `i`, in closed form. */
  function Piece(d: Pkt, mtu: int, i: nat): Pkt {
    var bare := d.(frag := true, offset := d.offset + i * Room(d, mtu), data := None, carried := None);
    if i < NumFrags(d, mtu) - 1 then
      bare.(fragLen := Room(d, mtu), size := 8 * mtu,
            originalSize := if d.compression.PerVirtualCircuit? then ShareOf(d, mtu) else d.originalSize)
    else
      var rest := d.fragLen - i * Room(d, mtu);
      bare.(fragLen := rest, size := 8 * (HeaderSize(d) + rest), carried := Passenger(d),
            originalSize := if d.compression.PerVirtualCircuit?
                            then d.originalSize - i * (ShareOf(d, mtu) - HeaderSize(d) * 8)
                            else d.originalSize)
  }

  /** What one packet turns into at an interface. */
  function Frags(d: Pkt, mtu: int, comp: int): seq<Pkt> {
    if Fits(d, mtu, comp) then [d]
    else if NumFrags(d, mtu) <= 0 then []
    else seq(NumFrags(d, mtu), i requires 0 <= i => Piece(d, mtu, i))
  }

  /** Some payload, and room for some of it in every piece. */
  predicate Divisible(d: Pkt, mtu: int, comp: int) {
    d.fragLen > 0 && (Fits(d, mtu, comp) || Room(d, mtu) > 0)
  }

  // ----- cover -----

  /** Consecutive, non-empty payload ranges from `lo` up to `hi`. */
  ghost predicate Chain(s: seq<Pkt>, lo: int, hi: int) {
    if s == [] then lo == hi
    else s[0].offset == lo && s[0].fragLen > 0 && Chain(s[1..], lo + s[0].fragLen, hi)
  }

  /** There are just enough pieces: all but the last full, the last neither empty nor overfull. */
  lemma NumFragsBounds(d: Pkt, mtu: int)
    requires d.fragLen > 0 && Room(d, mtu) > 0
    ensures var n, room := NumFrags(d, mtu), Room(d, mtu);
            n >= 1 && (n - 1) * room < d.fragLen <= n * room
  {
    var room := Room(d, mtu);
    var n := NumFrags(d, mtu);
    assert n == (d.fragLen + room - 1) / room;
    DivBounds(d.fragLen + room - 1, room);
    assert (n - 1) * room == n * room - room;
  }

  lemma DivBounds(a: int, b: int)
    requires b > 0
    ensures a / b * b <= a < a / b * b + b
  {
    assert a == b * (a / b) + a % b;
  }

  lemma {:induction false} PiecesChain(d: Pkt, mtu: int, i: nat)
    requires d.fragLen > 0 && Room(d, mtu) > 0 && i <= NumFrags(d, mtu)
    ensures var n, pieces := NumFrags(d, mtu), seq(NumFrags(d, mtu), i requires 0 <= i => Piece(d, mtu, i));
            Chain(pieces[i..], if i < n then d.offset + i * Room(d, mtu) else d.offset + d.fragLen,
                  d.offset + d.fragLen)
    decreases NumFrags(d, mtu) - i
  {
    NumFragsBounds(d, mtu);
    var n, room := NumFrags(d, mtu), Room(d, mtu);
    var pieces := seq(n, i requires 0 <= i => Piece(d, mtu, i));
    if i < n {
      PiecesChain(d, mtu, i + 1);
      assert pieces[i..][0] == Piece(d, mtu, i) && pieces[i..][1..] == pieces[i + 1..];
      assert (i + 1) * room == i * room + room;
    }
  }

  /** One step cuts the payload range into consecutive, non-empty pieces. */
  lemma FragsChain(d: Pkt, mtu: int, comp: int)
    requires Divisible(d, mtu, comp)
    ensures Frags(d, mtu, comp) != [] && Chain(Frags(d, mtu, comp), d.offset, d.offset + d.fragLen)
  {
    if !Fits(d, mtu, comp) {
      NumFragsBounds(d, mtu);
      PiecesChain(d, mtu, 0);
      var pieces := Frags(d, mtu, comp);
      assert pieces[0..] == pieces;
    } else {
      assert Chain([d][1..], d.offset + d.fragLen, d.offset + d.fragLen);
    }
  }

  /** Every piece made has the computed header and fits the MTU. */
  lemma PiecesFit(d: Pkt, mtu: int, comp: int, i: nat)
    requires Divisible(d, mtu, comp) && !Fits(d, mtu, comp) && i < |Frags(d, mtu, comp)|
    ensures var p := Frags(d, mtu, comp)[i];
            HeaderOf(p) == HeaderSize(d) && p.size <= 8 * mtu && 0 < p.fragLen <= Room(d, mtu) && p.frag
  {
    NumFragsBounds(d, mtu);
    var n, room := NumFrags(d, mtu), Room(d, mtu);
    var p := Frags(d, mtu, comp)[i];
    assert p == Piece(d, mtu, i);
    assert (n - 1) * room == n * room - room;
    EightTimes(if i < n - 1 then mtu else HeaderSize(d) + p.fragLen);
  }

  lemma EightTimes(x: int)
    ensures TruncDiv(8 * x, 8) == x
  {
  }

  /** Every piece of a packet has payload and room for some of it next to its header. */
  predicate HasRoom(d: Pkt, mtu: int) {
    d.fragLen > 0 && ByteSize(d) - d.fragLen + (if d.v6 then 8 else 0) < mtu
  }

  /** Nothing goes out that is larger than the MTU; what is larger is cut, into pieces with the
      header of the packet and, for IPv6, eight bytes more.  An uncompressed packet within the
      MTU goes out as it is, a compressed one if its compressed size is within it, too. */
  lemma NothingOversized(d: Pkt, mtu: int, comp: int)
    ensures ByteSize(d) <= mtu && (d.compression.NoCompression? || comp <= 8 * mtu) ==> Frags(d, mtu, comp) == [d]
    ensures HasRoom(d, mtu) ==>
              Frags(d, mtu, comp) != [] && forall p | p in Frags(d, mtu, comp) :: ByteSize(p) <= mtu
    ensures HasRoom(d, mtu) && ByteSize(d) > mtu ==> |Frags(d, mtu, comp)| >= 2
    ensures HasRoom(d, mtu) && (ByteSize(d) > mtu || (!d.compression.NoCompression? && comp > 8 * mtu)) ==>
              forall p | p in Frags(d, mtu, comp) ::
                p.frag && ByteSize(p) - p.fragLen == ByteSize(d) - d.fragLen + if d.v6 then 8 else 0
  {
    var s := Frags(d, mtu, comp);
    if HasRoom(d, mtu) && !(ByteSize(d) <= mtu && (d.compression.NoCompression? || comp <= 8 * mtu)) {
      NumFragsBounds(d, mtu);
      forall p | p in s
        ensures ByteSize(p) <= mtu && p.frag
        ensures ByteSize(p) - p.fragLen == ByteSize(d) - d.fragLen + if d.v6 then 8 else 0
      {
        var i :| 0 <= i < |s| && s[i] == p;
        PiecesFit(d, mtu, comp, i);
      }
      assert |s| == 1 ==> d.fragLen <= Room(d, mtu);
    }
  }

  // ----- minimality -----

  function Sum(lens: seq<nat>): nat {
    if lens == [] then 0 else lens[0] + Sum(lens[1..])
  }

  lemma {:induction false} SumBounded(lens: seq<nat>, room: nat)
    requires forall x | x in lens :: x <= room
    ensures Sum(lens) <= |lens| * room
  {
    if lens != [] {
      assert forall x | x in lens[1..] :: x in lens;
      SumBounded(lens[1..], room);
      var k := |lens[1..]|;
      OneMore(k, room);
      assert |lens| == k + 1;
      assert Sum(lens) == lens[0] + Sum(lens[1..]) && lens[0] in lens;
    }
  }

  /** No way of cutting the payload into pieces that fit uses fewer of them. */
  lemma FewestFragments(d: Pkt, mtu: int, comp: int, lens: seq<nat>)
    requires Divisible(d, mtu, comp) && !Fits(d, mtu, comp)
    requires Sum(lens) == d.fragLen && forall x | x in lens :: x <= Room(d, mtu)
    ensures |Frags(d, mtu, comp)| <= |lens|
  {
    NumFragsBounds(d, mtu);
    var n, room := NumFrags(d, mtu), Room(d, mtu);
    SumBounded(lens, room);
    if |lens| < n {
      MulMonotone(|lens|, n - 1, room);
    }
  }

  lemma MulMonotone(a: int, b: int, c: int)
    requires a <= b && c >= 0
    ensures a * c <= b * c
  {
  }

  // ----- the uncompressed size -----

  /** The part of the uncompressed size that is not header. */
  function Load(d: Pkt): int { d.originalSize - 8 * HeaderOf(d) }

  function Loads(s: seq<Pkt>): int {
    if s == [] then 0 else Load(s[0]) + Loads(s[1..])
  }

  lemma {:induction false} LoadsFrom(d: Pkt, mtu: int, i: nat)
    requires d.fragLen > 0 && Room(d, mtu) > 0 && d.compression.PerVirtualCircuit? && i < NumFrags(d, mtu)
    ensures var pieces := seq(NumFrags(d, mtu), i requires 0 <= i => Piece(d, mtu, i));
            var share := ShareOf(d, mtu) - 8 * HeaderSize(d);
            Loads(pieces[i..]) == d.originalSize - 8 * HeaderSize(d) - i * share
    decreases NumFrags(d, mtu) - i
  {
    var n, room := NumFrags(d, mtu), Room(d, mtu);
    var share := ShareOf(d, mtu) - 8 * HeaderSize(d);
    var pieces := seq(n, i requires 0 <= i => Piece(d, mtu, i));
    assert pieces[i..][0] == Piece(d, mtu, i) && pieces[i..][1..] == pieces[i + 1..];
    if i < n - 1 {
      LoadsFrom(d, mtu, i + 1);
      EightTimes(mtu);
      assert (i + 1) * share == i * share + share;
    } else {
      EightTimes(HeaderSize(d) + d.fragLen - i * room);
    }
  }

  /** Rounding loses nothing: the pieces' loads add up to the load being divided. */
  lemma LoadsConserved(d: Pkt, mtu: int, comp: int)
    requires Divisible(d, mtu, comp) && !Fits(d, mtu, comp) && d.compression.PerVirtualCircuit?
    ensures Loads(Frags(d, mtu, comp)) == LoadToDivide(d)
  {
    NumFragsBounds(d, mtu);
    LoadsFrom(d, mtu, 0);
    assert Frags(d, mtu, comp)[0..] == Frags(d, mtu, comp);
  }

  lemma FloorTwice(n: int, total: int)
    requires total > 0
    ensures var q := n / total / 8; 8 * q * total <= n < (8 * q + 8) * total
  {
    DivBounds(n, total);
    var t := n / total;
    var q := t / 8;
    MulMonotone(8 * q, t, total);
    MulMonotone(t + 1, 8 * q + 8, total);
    assert (t + 1) * total == t * total + total;
  }

  lemma ShareFloored(load: int, header: int, len: int, total: int)
    requires total > 0 && load * len + 8 * header * total >= 0
    ensures OriginalShare(load + 8 * header, header, len, total) == 8 * ((load * len + 8 * header * total) / total / 8)
  {
    var n := load * len + 8 * header * total;
    assert (load + 8 * header - header * 8) * len + header * 8 * total == n;
    TruncatedTwice(n, total);
  }

  /** Truncating to bits and then to bytes truncates to bytes. */
  lemma ShareRounds(load: int, header: int, len: int, total: int)
    requires total > 0 && load * len + 8 * header * total >= 0
    ensures var share := OriginalShare(load + 8 * header, header, len, total) - 8 * header;
            share % 8 == 0 && share * total <= load * len < (share + 8) * total
  {
    var n := load * len + 8 * header * total;
    ShareFloored(load, header, len, total);
    var q := n / total / 8;
    FloorTwice(n, total);
    ShiftedBounds(8 * q, 8 * header, total, n);
    WholeBytes(q - header);
  }

  lemma WholeBytes(n: int)
    ensures (8 * n) % 8 == 0
  {
  }

  lemma TruncatedTwice(n: int, total: int)
    requires total > 0 && n >= 0
    ensures TruncDiv(TruncDiv(n, total), 8) == n / total / 8
  {
  }

  lemma ShiftedBounds(a: int, h: int, total: int, n: int)
    requires a * total <= n < (a + 8) * total
    ensures (a - h) * total <= n - h * total < (a - h + 8) * total
  {
    assert (a - h) * total == a * total - h * total;
    assert (a - h + 8) * total == (a + 8) * total - h * total;
  }

  /** The load of a packet that is to be divided. */
  function LoadToDivide(d: Pkt): int { d.originalSize - 8 * HeaderSize(d) }

  /** The load of a full piece. */
  function FullLoad(d: Pkt, mtu: int): int { ShareOf(d, mtu) - 8 * HeaderSize(d) }

  /** A caller's check that the rounding is applied to a non-negative number. */
  predicate LoadSane(d: Pkt, mtu: int) {
    HeaderSize(d) >= 0 || (d.originalSize >= 8 * d.fragLen && mtu >= 0)
  }

  lemma SaneIsNonNegative(d: Pkt, mtu: int)
    requires d.fragLen > 0 && Room(d, mtu) > 0 && LoadToDivide(d) >= 0 && LoadSane(d, mtu)
    ensures LoadToDivide(d) * Room(d, mtu) + 8 * HeaderSize(d) * d.fragLen >= 0
  {
    var load, room, h, len := LoadToDivide(d), Room(d, mtu), HeaderSize(d), d.fragLen;
    if h >= 0 {
      MulMonotone(0, load, room);
      MulMonotone(0, 8 * h, len);
    } else {
      MulMonotone(8 * len - 8 * h, load, room);
      MulMonotone(-h, room, 8 * len - 8 * h);
      assert (8 * len - 8 * h) * room == room * (8 * len - 8 * h);
      assert -h * (8 * len - 8 * h) == 8 * (h * h) - 8 * h * len;
    }
  }

  /** A full piece gets its proportional load, rounded down to whole bytes. */
  lemma FullShare(d: Pkt, mtu: int)
    requires d.fragLen > 0 && Room(d, mtu) > 0 && d.compression.PerVirtualCircuit?
    requires LoadToDivide(d) >= 0 && LoadSane(d, mtu)
    ensures var full := FullLoad(d, mtu);
            0 <= full && full * d.fragLen <= LoadToDivide(d) * Room(d, mtu) < (full + 8) * d.fragLen
  {
    SaneIsNonNegative(d, mtu);
    ShareRounds(LoadToDivide(d), HeaderSize(d), Room(d, mtu), d.fragLen);
    var full := FullLoad(d, mtu);
    MulMonotone(0, LoadToDivide(d), Room(d, mtu));
    if full + 8 <= 0 {
      MulMonotone(full + 8, 0, d.fragLen);
    }
  }

  lemma LastLoad(d: Pkt, mtu: int, comp: int)
    requires Divisible(d, mtu, comp) && !Fits(d, mtu, comp) && d.compression.PerVirtualCircuit?
    requires NumFrags(d, mtu) >= 1
    ensures var n := NumFrags(d, mtu);
            var last := Frags(d, mtu, comp)[n - 1];
            last.fragLen == d.fragLen - (n - 1) * Room(d, mtu) &&
            Load(last) == LoadToDivide(d) - (n - 1) * FullLoad(d, mtu)
  {
    var last := Piece(d, mtu, NumFrags(d, mtu) - 1);
    EightTimes(HeaderSize(d) + last.fragLen);
  }

  /** The last piece's load against its proportion `LoadToDivide * len / fragLen`, multiplied
      out: never short of it, and over it by less than a byte for each earlier piece. */
  lemma LastShare(d: Pkt, mtu: int, comp: int)
    requires Divisible(d, mtu, comp) && !Fits(d, mtu, comp) && d.compression.PerVirtualCircuit?
    requires LoadToDivide(d) >= 0 && LoadSane(d, mtu)
    ensures var n := NumFrags(d, mtu);
            var last := Frags(d, mtu, comp)[n - 1];
            var over := Load(last) * d.fragLen - LoadToDivide(d) * last.fragLen;
            0 <= over <= (n - 1) * (8 * d.fragLen - 1) && Load(last) >= 0
  {
    NumFragsBounds(d, mtu);
    FullShare(d, mtu);
    LastLoad(d, mtu, comp);
    var n := NumFrags(d, mtu);
    var last := Frags(d, mtu, comp)[n - 1];
    LastOver(LoadToDivide(d), FullLoad(d, mtu), Room(d, mtu), d.fragLen, n - 1);
    MulMonotone(0, LoadToDivide(d), last.fragLen);
    if Load(last) < 0 {
      MulMonotone(Load(last), -1, d.fragLen);
    }
  }

  lemma LastOver(load: int, full: int, room: int, total: int, k: int)
    requires k >= 0 && full * total <= load * room < (full + 8) * total
    ensures var over := (load - k * full) * total - load * (total - k * room);
            0 <= over <= k * (8 * total - 1)
  {
    var gap := load * room - full * total;
    assert (full + 8) * total == full * total + 8 * total;
    assert (load - k * full) * total == load * total - k * (full * total);
    assert load * (total - k * room) == load * total - k * (load * room);
    MulMonotone(0, gap, k);
    MulMonotone(gap, 8 * total - 1, k);
    assert k * gap == k * (load * room) - k * (full * total);
  }

  /** All loads are non-negative exactly if the load being divided is. */
  lemma LoadsNonNegativeIff(d: Pkt, mtu: int, comp: int)
    requires Divisible(d, mtu, comp) && !Fits(d, mtu, comp) && d.compression.PerVirtualCircuit?
    requires LoadSane(d, mtu)
    ensures (forall i | 0 <= i < |Frags(d, mtu, comp)| :: Load(Frags(d, mtu, comp)[i]) >= 0)
            <==> LoadToDivide(d) >= 0
  {
    NumFragsBounds(d, mtu);
    LoadsConserved(d, mtu, comp);
    var s := Frags(d, mtu, comp);
    if LoadToDivide(d) >= 0 {
      FullShare(d, mtu);
      LastShare(d, mtu, comp);
      forall i | 0 <= i < |s|
        ensures Load(s[i]) >= 0
      {
        if i < |s| - 1 { EightTimes(mtu); }
      }
    } else if forall i | 0 <= i < |s| :: Load(s[i]) >= 0 {
      LoadsNonNegative(s);
    }
  }

  lemma {:induction false} LoadsNonNegative(s: seq<Pkt>)
    requires forall i | 0 <= i < |s| :: Load(s[i]) >= 0
    ensures Loads(s) >= 0
  {
    if s != [] {
      LoadsNonNegative(s[1..]);
    }
  }
}
