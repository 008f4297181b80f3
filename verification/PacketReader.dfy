/** Reading the bits of a packet (`next_segment`, `get8_packet_raw`, `get_bits`, `prep_huffman`): the packet is
spread over segments and pages, and bits are taken from a lazily filled accumulator, lowest bit first. */
module PacketReader {
  import opened Arithmetic
  import opened Bits

  type BitString = seq<bool>

  // ---------------------------------------------------------------- Bit strings

  /** The lowest `k` bits of `x`, lowest first. */
  function BitsOf(x: nat, k: nat): (b: BitString)
    ensures |b| == k
    decreases k
  {
    if k == 0 then [] else [x % 2 == 1] + BitsOf(x / 2, k - 1)
  }

  /** The number that a bit string stands for, lowest bit first. */
  function Value(b: BitString): nat {
    if b == [] then 0 else (if b[0] then 1 else 0) + 2 * Value(b[1..])
  }

  function ByteBits(bytes: seq<nat>): BitString {
    if bytes == [] then [] else BitsOf(bytes[0], 8) + ByteBits(bytes[1..])
  }

  lemma {:induction false} ValueOfBits(x: nat, k: nat)
    ensures Value(BitsOf(x, k)) == Low(x, k)
    decreases k
  {
    if k > 0 {
      assert BitsOf(x, k)[1..] == BitsOf(x / 2, k - 1);
      ValueOfBits(x / 2, k - 1);
    }
  }

  /** Putting `z` on top of a value of `v` bits appends its bits. */
  lemma {:induction false} BitsJoin(acc: nat, v: nat, z: nat, k: nat)
    requires acc < Pow2(v)
    ensures BitsOf(acc + z * Pow2(v), v + k) == BitsOf(acc, v) + BitsOf(z, k)
    decreases v
  {
    if v > 0 {
      var h := z * Pow2(v - 1);
      DoubleFactor(z, Pow2(v - 1));
      Halve(acc % 2, acc / 2 + h);
      assert acc + 2 * h == acc % 2 + 2 * (acc / 2 + h);
      BitsJoin(acc / 2, v - 1, z, k);
    }
  }

  /** Taking `n` bits off the bottom. */
  lemma {:induction false} BitsSplit(x: nat, k: nat, n: nat)
    requires n <= k
    ensures BitsOf(x, k)[..n] == BitsOf(x, n)
    ensures BitsOf(x, k)[n..] == BitsOf(High(x, n), k - n)
    decreases n
  {
    if n > 0 {
      BitsSplit(x / 2, k - 1, n - 1);
      var b := BitsOf(x, k);
      assert b[1..] == BitsOf(x / 2, k - 1);
      assert b[..n] == [b[0]] + b[1..][..n - 1] && b[n..] == b[1..][n - 1..];
    }
  }

  lemma {:induction false} HighBound(x: nat, v: nat, n: nat)
    requires x < Pow2(v) && n <= v
    ensures High(x, n) < Pow2(v - n)
    decreases n
  {
    if n > 0 {
      HighBound(x / 2, v - 1, n - 1);
    }
  }

  lemma JoinBound(acc: nat, v: nat, z: nat)
    requires acc < Pow2(v) && z < 256
    ensures acc + z * Pow2(v) < Pow2(v + 8)
  {
    Pow2Add(v, 8);
    assert Pow2(8) == 256 by { assert Pow2(4) == 16; }
    MulMonotone(z + 1, 256, Pow2(v));
  }

  // ---------------------------------------------------------------- Pages

  /** A page: its lacing values, its payload, and whether it begins inside a packet. */
  datatype Page = Page(segments: seq<nat>, body: seq<nat>, continued: bool)

  function Sum(s: seq<nat>): nat {
    if s == [] then 0 else s[0] + Sum(s[1..])
  }

  predicate AllBytes(s: seq<nat>) {
    forall x <- s :: x < 256
  }

  predicate PageOk(p: Page) {
    p.segments != [] && |p.body| == Sum(p.segments) && AllBytes(p.segments) && AllBytes(p.body)
  }

  predicate AllOk(pages: seq<Page>) {
    forall p <- pages :: PageOk(p)
  }

  /** The bytes of the current packet in the segments of lengths `lens` and on the pages after them: a packet ends
      with the first lacing value below 255 (section 6 of RFC 3533). */
  function Rest(lens: seq<nat>, payload: seq<nat>, pages: seq<Page>): seq<nat>
    decreases |pages|, |lens|
  {
    if lens == [] then
      if pages == [] || !pages[0].continued then [] else Rest(pages[0].segments, pages[0].body, pages[1..])
    else if |payload| < lens[0] then []
    else payload[..lens[0]] + if lens[0] < 255 then [] else Rest(lens[1..], payload[lens[0]..], pages)
  }

  /** The packet has an end: no page without the flag comes before it, except one that begins with an empty segment. */
  predicate Ends(lens: seq<nat>, pages: seq<Page>)
    decreases |pages|, |lens|
  {
    if lens == [] then pages == [] ||
      (if pages[0].continued then Ends(pages[0].segments, pages[1..]) else BeginsEmpty(pages[0]))
    else lens[0] < 255 || Ends(lens[1..], pages)
  }

  predicate BeginsEmpty(p: Page) {
    p.segments != [] && p.segments[0] == 0
  }

  /** Where a reader stands: the lacing values and the payload left of the page it has started, how much of the
      payload is in its segment, whether that is the packet's last, and the pages not started. */
  datatype Cursor = Cursor(lens: seq<nat>, payload: seq<nat>, inSeg: nat, last: bool, pages: seq<Page>)

  predicate CursorOk(p: Cursor) {
    && AllOk(p.pages) && AllBytes(p.lens) && AllBytes(p.payload)
    && |p.payload| == p.inSeg + Sum(p.lens)
  }

  predicate EndsAt(p: Cursor) {
    p.last || Ends(p.lens, p.pages)
  }

  /** The bytes of the packet that have not been read. */
  function UnreadAt(p: Cursor): seq<nat>
    requires p.inSeg <= |p.payload|
  {
    p.payload[..p.inSeg] + if p.last then [] else Rest(p.lens, p.payload[p.inSeg..], p.pages)
  }

  lemma InTail<T>(s: seq<T>, x: T)
    requires s != [] && x in s[1..]
    ensures x in s
  {
  }

  lemma BytesTail(s: seq<nat>)
    requires s != [] && AllBytes(s)
    ensures AllBytes(s[1..]) && s[0] < 256
  {
    forall x | x in s[1..] ensures x < 256 { InTail(s, x); }
    assert s[0] in s;
  }

  lemma PagesTail(s: seq<Page>)
    requires s != [] && AllOk(s)
    ensures AllOk(s[1..]) && PageOk(s[0])
  {
    forall x | x in s[1..] ensures PageOk(x) { InTail(s, x); }
    assert s[0] in s;
  }

  function EnterPage(p: Cursor): Cursor
    requires p.pages != []
  {
    Cursor(p.pages[0].segments, p.pages[0].body, 0, p.last, p.pages[1..])
  }

  lemma PageIsEntered(p: Cursor)
    requires CursorOk(p) && p.inSeg == 0 && !p.last && p.lens == [] && p.pages != []
    ensures |p.pages[0].segments| > 0 && CursorOk(EnterPage(p))
    ensures p.pages[0].continued ==> UnreadAt(EnterPage(p)) == UnreadAt(p) && (EndsAt(EnterPage(p)) <==> EndsAt(p))
    ensures !p.pages[0].continued ==> UnreadAt(p) == []
    ensures !p.pages[0].continued ==>
      if EndsAt(p) then EndsAt(EnterPage(p)) && UnreadAt(EnterPage(p)) == [] else UnreadAt(EnterPage(p)) != []
  {
    PagesTail(p.pages);
    assert p.pages[0].body[0..] == p.pages[0].body;
    assert UnreadAt(p) == Rest([], p.payload[0..], p.pages);
    BreakIsEntered(p.pages[0], p.pages[1..]);
  }

  lemma BreakIsEntered(page: Page, pages: seq<Page>)
    requires PageOk(page)
    ensures BeginsEmpty(page) ==> Ends(page.segments, pages) && Rest(page.segments, page.body, pages) == []
    ensures !BeginsEmpty(page) ==> Rest(page.segments, page.body, pages) != []
  {
  }

  function EnterSegment(p: Cursor): Cursor
    requires p.lens != []
  {
    Cursor(p.lens[1..], p.payload, p.lens[0], p.lens[0] < 255, p.pages)
  }

  lemma SegmentIsEntered(p: Cursor)
    requires CursorOk(p) && p.inSeg == 0 && !p.last && p.lens != []
    ensures CursorOk(EnterSegment(p)) && UnreadAt(EnterSegment(p)) == UnreadAt(p)
    ensures EndsAt(EnterSegment(p)) <==> EndsAt(p)
    ensures p.lens[0] == 0 ==> UnreadAt(EnterSegment(p)) == [] && EndsAt(p)
    ensures p.lens[0] > 0 ==> UnreadAt(p) != []
  {
    BytesTail(p.lens);
    assert p.payload[0..] == p.payload;
    assert UnreadAt(p) == Rest(p.lens, p.payload, p.pages);
  }

  lemma PacketEnds(p: Cursor)
    requires CursorOk(p) && p.inSeg == 0 && (p.last || (p.lens == [] && p.pages == []))
    ensures CursorOk(p.(last := true)) && UnreadAt(p) == [] && UnreadAt(p.(last := true)) == [] && EndsAt(p)
  {
  }

  function TakeByte(p: Cursor): Cursor
    requires p.payload != [] && p.inSeg > 0
  {
    p.(payload := p.payload[1..], inSeg := p.inSeg - 1)
  }

  lemma ByteIsTaken(p: Cursor)
    requires CursorOk(p) && p.inSeg > 0
    ensures CursorOk(TakeByte(p)) && p.payload[0] < 256 && (EndsAt(TakeByte(p)) <==> EndsAt(p))
    ensures UnreadAt(p) == [p.payload[0]] + UnreadAt(TakeByte(p))
  {
    hide Rest, Ends;
    BytesTail(p.payload);
    assert p.payload[1..][p.inSeg - 1..] == p.payload[p.inSeg..];
    assert p.payload[..p.inSeg] == [p.payload[0]] + p.payload[1..][..p.inSeg - 1];
  }

  // ---------------------------------------------------------------- Bytes

  /** One call for the next segment: its length, and where the reader stands then. Of a page without the flag, the
      source has read the header when it gives up, and it does not note that the packet has ended. */
  function NextSegmentAt(p: Cursor): (nat, Cursor) {
    if p.last then (0, p)
    else if p.lens != [] then (p.lens[0], EnterSegment(p))
    else if p.pages == [] then (0, p.(last := true))
    else if !p.pages[0].continued || p.pages[0].segments == [] then (0, EnterPage(p))
    else (p.pages[0].segments[0], EnterSegment(EnterPage(p)))
  }

  const EOP := -1

  /** One read: a byte or the end of the packet. */
  function ReadAt(p: Cursor): (int, Cursor) {
    if p.inSeg > 0 then TakenAt(p)
    else
      var (len, q) := NextSegmentAt(p);
      if len == 0 then (EOP, q) else TakenAt(q)
  }

  function TakenAt(p: Cursor): (int, Cursor) {
    if p.payload != [] && p.inSeg > 0 then (p.payload[0], TakeByte(p)) else (EOP, p)
  }

  lemma SegmentIsNext(p: Cursor)
    requires CursorOk(p) && p.inSeg == 0
    ensures var (len, q) := NextSegmentAt(p);
      && CursorOk(q) && q.inSeg == len && (EndsAt(p) ==> EndsAt(q))
      && (UnreadAt(p) != [] || EndsAt(p) ==> UnreadAt(q) == UnreadAt(p))
      && (len == 0 <==> UnreadAt(p) == [])
      && (UnreadAt(p) != [] ==> (EndsAt(q) <==> EndsAt(p)))
      && (UnreadAt(p) == [] && !EndsAt(p) ==> UnreadAt(q) != [])
  {
    hide Rest, Ends;
    if p.last {
    } else if p.lens != [] {
      SegmentIsEntered(p);
    } else if p.pages == [] {
      PacketEnds(p);
    } else {
      PageIsEntered(p);
      if p.pages[0].continued {
        SegmentIsEntered(EnterPage(p));
      }
    }
  }

  /** A read gives the first unread byte of the packet and removes it; if there is none, it gives the end code, and then
      the reader is left in front of bytes of another packet exactly if the packet has no end. */
  lemma ReadIs(p: Cursor)
    requires CursorOk(p)
    ensures var (b, q) := ReadAt(p);
      && CursorOk(q)
      && (UnreadAt(p) != [] ==> 0 <= b < 256 && UnreadAt(p) == [b] + UnreadAt(q) && (EndsAt(q) <==> EndsAt(p)))
      && (UnreadAt(p) == [] ==> b == EOP && q.inSeg == 0 && if EndsAt(p) then EndsAt(q) && UnreadAt(q) == []
        else UnreadAt(q) != [])
  {
    hide Rest, Ends, UnreadAt, EndsAt, NextSegmentAt, AllOk, AllBytes;
    if p.inSeg > 0 {
      ByteIsTaken(p);
    } else {
      SegmentIsNext(p);
      var (len, q) := NextSegmentAt(p);
      if len > 0 {
        ByteIsTaken(q);
      }
    }
  }

  /** Where the reader stands after `k` reads. */
  function After(p: Cursor, k: nat): Cursor
    decreases k
  {
    if k == 0 then p else After(ReadAt(p).1, k - 1)
  }

  lemma {:induction false} NothingFollows(p: Cursor, k: nat)
    requires CursorOk(p) && UnreadAt(p) == [] && EndsAt(p)
    ensures ReadAt(After(p, k)).0 == EOP
    decreases k
  {
    hide CursorOk, UnreadAt, EndsAt, ReadAt;
    ReadIs(p);
    if k > 0 {
      NothingFollows(ReadAt(p).1, k - 1);
    }
  }

  lemma {:induction false} BytesFollow(p: Cursor, k: nat)
    requires CursorOk(p) && k <= |UnreadAt(p)|
    ensures CursorOk(After(p, k)) && UnreadAt(After(p, k)) == UnreadAt(p)[k..] && (EndsAt(After(p, k)) <==> EndsAt(p))
    decreases k
  {
    hide CursorOk, UnreadAt, EndsAt, ReadAt;
    if k > 0 {
      ReadIs(p);
      BytesFollow(ReadAt(p).1, k - 1);
    }
  }

  lemma {:induction false} AfterAfter(p: Cursor, j: nat, k: nat)
    ensures After(After(p, j), k) == After(p, j + k)
    decreases j
  {
    hide ReadAt;
    if j > 0 {
      AfterAfter(ReadAt(p).1, j - 1, k);
    }
  }

  /** Reads past the end of a packet keep giving the end code exactly if the packet has an end. */
  lemma EndStaysIffEnds(p: Cursor)
    requires CursorOk(p)
    ensures (forall k: nat | k >= |UnreadAt(p)| :: ReadAt(After(p, k)).0 == EOP) <==> EndsAt(p)
  {
    hide AllOk, AllBytes, UnreadAt, EndsAt, ReadAt;
    var n := |UnreadAt(p)|;
    BytesFollow(p, n);
    if EndsAt(p) {
      forall k: nat | k >= n
        ensures ReadAt(After(p, k)).0 == EOP
      {
        NothingFollows(After(p, n), k - n);
        AfterAfter(p, n, k - n);
      }
    } else {
      var q := After(p, n);
      ReadIs(q);
      ReadIs(ReadAt(q).1);
      AfterAfter(p, n, 1);
      assert After(q, 1) == ReadAt(q).1 by { assert After(ReadAt(q).1, 0) == ReadAt(q).1; }
      assert ReadAt(After(p, n + 1)).0 != EOP;
    }
  }

  /** A packet broken off by a page without the flag: after the end code, a byte of the next packet is read. */
  lemma BrokenPacketReadsOn()
    ensures var p := Cursor([], [], 0, false, [Page([1], [7], false)]);
      && CursorOk(p) && UnreadAt(p) == [] && ReadAt(p).0 == EOP && ReadAt(After(p, 1)).0 == 7
      && !EndsAt(p) && UnreadAt(After(p, 1)) == [7]
  {
    var page := Page([1], [7], false);
    var p := Cursor([], [], 0, false, [page]);
    assert Sum(page.segments) == 1 by { assert Sum(page.segments[1..]) == 0; }
    var q := EnterPage(p);
    assert ReadAt(p) == (EOP, q) && q == Cursor([1], [7], 0, false, []);
    assert After(p, 1) == q by { assert After(q, 0) == q; }
    assert ReadAt(q).0 == 7;
  }

  // ---------------------------------------------------------------- The accumulator

  function PendingAt(acc: nat, valid: int, unread: seq<nat>): BitString {
    BitsOf(acc, if valid < 0 then 0 else valid) + ByteBits(unread)
  }

  /** The unread bytes that belong to the packet after a refill that left the bits `pending`: none, if all fit. */
  function Own(pending: BitString, unread: seq<nat>): seq<nat> {
    if |pending| > 24 then unread else []
  }

  lemma PendingLength(acc: nat, valid: int, unread: seq<nat>)
    ensures |PendingAt(acc, valid, unread)| == (if valid < 0 then 0 else valid) + 8 * |unread|
  {
    ByteBitsLength(unread);
  }

  /** The same packet and a refill: no bit is pending before it, and bits of the next packet are after it. After a read
      of
      bits instead, which leaves the accumulator invalid, a refill would shift by a negative number. */
  lemma BrokenRefillGoesOn()
    ensures var p := Cursor([], [], 0, false, [Page([1], [7], false)]);
      && CursorOk(p) && !EndsAt(p) && ReadAt(p).0 == EOP && UnreadAt(ReadAt(p).1) != []
      && PendingAt(0, 0, UnreadAt(p)) == [] && PendingAt(0, 0, UnreadAt(ReadAt(p).1)) == BitsOf(7, 8)
  {
    BrokenPacketReadsOn();
    var p := Cursor([], [], 0, false, [Page([1], [7], false)]);
    assert After(p, 1) == ReadAt(p).1 by { assert After(ReadAt(p).1, 0) == ReadAt(p).1; }
    assert ByteBits([7]) == BitsOf(7, 8) + ByteBits([]);
  }

  /** The bits in the accumulator come first. */
  lemma PendingSplits(acc: nat, valid: int, unread: seq<nat>)
    ensures |PendingAt(acc, valid, unread)| == (if valid < 0 then 0 else valid) + 8 * |unread|
    ensures PendingAt(acc, valid, []) <= PendingAt(acc, valid, unread)
    ensures PendingAt(acc, valid, unread) == PendingAt(acc, valid, []) <==> unread == []
  {
    PendingLength(acc, valid, unread);
    PendingLength(acc, valid, []);
  }

  lemma ClearedPending(acc: nat, unread: seq<nat>)
    ensures PendingAt(0, 0, unread) == PendingAt(acc, 0, unread)
  {
  }

  /** How many bits the accumulator holds once it has been filled with as many bytes as fit. */
  function Filled(valid: nat, unread: nat): nat
    decreases unread
  {
    if valid > 24 || unread == 0 then valid else Filled(valid + 8, unread - 1)
  }

  lemma {:induction false} FilledIsEnough(valid: nat, unread: nat)
    ensures Filled(valid, unread) >= valid
    ensures Filled(valid, unread) > 24 || Filled(valid, unread) == valid + 8 * unread
    decreases unread
  {
    if valid <= 24 && unread > 0 {
      FilledIsEnough(valid + 8, unread - 1);
    }
  }

  function Shifted(z: nat, v: nat): nat {
    if v == 0 then z else 2 * Shifted(z, v - 1)
  }

  lemma {:induction false} ShiftedIs(z: nat, v: nat)
    ensures Shifted(z, v) == z * Pow2(v)
  {
    if v > 0 {
      ShiftedIs(z, v - 1);
      DoubleFactor(z, Pow2(v - 1));
    }
  }

  /** The accumulator with `z` put above its `v` bits. */
  function PutAbove(acc: nat, z: nat, v: nat): nat {
    acc + Shifted(z, v)
  }

  lemma NothingAbove(acc: nat, v: nat)
    ensures PutAbove(acc, 0, v) == acc
  {
    ShiftedIs(0, v);
  }

  lemma {:induction false} ByteBitsLength(bytes: seq<nat>)
    ensures |ByteBits(bytes)| == 8 * |bytes|
  {
    if bytes != [] {
      ByteBitsLength(bytes[1..]);
    }
  }

  /** Moving a byte into the accumulator leaves the pending bits as they are. */
  lemma ByteIsMoved(acc: nat, v: nat, z: nat, unread: seq<nat>)
    requires acc < Pow2(v) && z < 256
    ensures PutAbove(acc, z, v) < Pow2(v + 8)
    ensures PendingAt(PutAbove(acc, z, v), v + 8, unread) == PendingAt(acc, v, [z] + unread)
  {
    hide BitsOf, Pow2, Shifted;
    ShiftedIs(z, v);
    JoinBound(acc, v, z);
    BitsJoin(acc, v, z, 8);
    assert ByteBits([z] + unread) == BitsOf(z, 8) + ByteBits(unread) by { assert ([z] + unread)[1..] == unread; }
  }

  /** Shifting the accumulator right takes bits off the front. */
  lemma BitsAreTaken(acc: nat, v: nat, n: nat, unread: seq<nat>)
    requires n <= v && (v == 0 || acc < Pow2(v))
    ensures v > n ==> High(acc, n) < Pow2(v - n)
    ensures PendingAt(acc, v, unread)[n..] == PendingAt(High(acc, n), v - n, unread)
    ensures Low(acc, n) == Value(PendingAt(acc, v, unread)[..n])
  {
    if v > 0 {
      HighBound(acc, v, n);
    }
    BitsSplit(acc, v, n);
    ValueOfBits(acc, n);
    CutSum(BitsOf(acc, v), ByteBits(unread), n);
  }

  lemma CutSum(b: BitString, u: BitString, n: nat)
    requires n <= |b|
    ensures (b + u)[..n] == b[..n] && (b + u)[n..] == b[n..] + u
  {
  }

  lemma {:induction false} ValueJoins(b: BitString, n: nat)
    requires n <= |b|
    ensures Value(b) == Value(b[..n]) + Value(b[n..]) * Pow2(n)
  {
    if n > 0 {
      ValueJoins(b[1..], n - 1);
      assert b[1..][..n - 1] == b[..n][1..] && b[1..][n - 1..] == b[n..];
      DoubleFactor(Value(b[n..]), Pow2(n - 1));
    }
  }

  /** Two reads in a row read as one. */
  lemma ReadsJoin(b: BitString, m: nat, n: nat)
    requires m <= n <= |b|
    ensures b[m..][..n - m] == b[m..n] && b[m..][n - m..] == b[n..]
    ensures Value(b[..n]) == PutAbove(Value(b[..m]), Value(b[m..][..n - m]), m)
  {
    ShiftedIs(Value(b[m..n]), m);
    ValueJoins(b[..n], m);
    assert b[..n][..m] == b[..m] && b[..n][m..] == b[m..n] && b[m..][..n - m] == b[m..n];
  }

  const INVALID_BITS := -1

  class Vorb {
    // the pages that have not been started, and the one that has
    var pages: seq<Page>
    var segments: seq<nat>
    var body: seq<nat>
    var bodyPos: nat
    // the packet
    var nextSeg: int
    var lastSeg: bool
    var bytesInSeg: nat
    // the accumulator
    var acc: nat
    var validBits: int

    ghost predicate InPage()
      reads this`pages, this`segments, this`body, this`bodyPos, this`nextSeg, this`lastSeg, this`bytesInSeg
    {
      -1 <= nextSeg < |segments| && bodyPos + bytesInSeg <= |body|
    }

    ghost function Here(): Cursor
      requires InPage()
      reads this`pages, this`segments, this`body, this`bodyPos, this`nextSeg, this`lastSeg, this`bytesInSeg
    {
      Cursor(if nextSeg == -1 then [] else segments[nextSeg..], body[bodyPos..], bytesInSeg, lastSeg, pages)
    }

    ghost predicate Paged()
      reads this`pages, this`segments, this`body, this`bodyPos, this`nextSeg, this`lastSeg, this`bytesInSeg
    {
      InPage() && CursorOk(Here())
    }

    ghost function Unread(): seq<nat>
      requires Paged()
      reads this`pages, this`segments, this`body, this`bodyPos, this`nextSeg, this`lastSeg, this`bytesInSeg
    {
      UnreadAt(Here())
    }

    /** Whether the packet has an end. */
    ghost predicate HasEnd()
      requires InPage()
      reads this`pages, this`segments, this`body, this`bodyPos, this`nextSeg, this`lastSeg, this`bytesInSeg
    {
      EndsAt(Here())
    }

    /** Bits can be read, whatever the pages. */
    ghost predicate Open()
      reads this
    {
      && Paged()
      && INVALID_BITS <= validBits <= 32
      && (validBits > 0 ==> acc < Pow2(validBits))
    }

    /** Bits can be read and refilled: if a read has made the accumulator invalid, no byte is left, and none will be. */
    ghost predicate Refillable()
      reads this
    {
      Open() && (validBits < 0 ==> Unread() == [] && HasEnd())
    }

    /** The bits of the packet that have not been taken: those in the accumulator, then those of the unread bytes. */
    ghost function Pending(): BitString
      requires Paged()
      reads this
    {
      PendingAt(acc, validBits, Unread())
    }

    /** A reader of the pages, about to start the first. */
    constructor (pages: seq<Page>)
      requires AllOk(pages)
      ensures Paged() && bytesInSeg == 0 && nextSeg == -1 && this.pages == pages
    {
      this.pages, segments, body, bodyPos := pages, [], [], 0;
      nextSeg, lastSeg, bytesInSeg, acc, validBits := -1, true, 0, 0, 0;
    }

    /** Starts the packet after one that has been read to its end; fails exactly if that needs a page and there is
        none, or one that continues a packet. */
    method StartPacket() returns (ok: bool)
      requires Paged() && bytesInSeg == 0
      modifies this
      ensures Paged() && bytesInSeg == 0
      ensures ok <==> old(nextSeg) != -1 || (old(pages) != [] && !old(pages)[0].continued)
      ensures ok ==> Refillable() && validBits == 0
      ensures ok ==> Here() == (if old(nextSeg) != -1 then old(Here()) else EnterPage(old(Here()))).(last := false)
    {
      hide Rest, Ends, Pow2;
      while nextSeg == -1
        invariant Paged() && bytesInSeg == 0
        invariant Here() == old(Here()) || (old(pages) != [] && Here() == EnterPage(old(Here())) && nextSeg == 0)
        invariant old(nextSeg) == -1 && nextSeg != -1 ==> old(pages) != [] && !old(pages)[0].continued
        invariant old(nextSeg) != -1 <==> Here() == old(Here()) && nextSeg != -1
        decreases |pages|
      {
        if pages == [] {
          return false;
        }
        var continues := pages[0].continued;
        PageOkAhead(Here());
        StartPage();
        if continues {
          return false;
        }
      }
      lastSeg := false;
      validBits := 0;
      bytesInSeg := 0;
      return true;
    }

    method StartPage()
      requires InPage() && pages != [] && pages[0].segments != []
      modifies this`pages, this`segments, this`body, this`bodyPos, this`nextSeg, this`bytesInSeg
      ensures InPage() && Here() == EnterPage(old(Here())) && nextSeg == 0
    {
      segments, body, bodyPos := pages[0].segments, pages[0].body, 0;
      nextSeg, bytesInSeg, pages := 0, 0, pages[1..];
    }

    method StartSegment() returns (len: nat)
      requires InPage() && nextSeg >= 0 && !lastSeg && bodyPos + segments[nextSeg] <= |body|
      modifies this`nextSeg, this`lastSeg, this`bytesInSeg
      ensures InPage() && Here() == EnterSegment(old(Here())) && len == old(segments[nextSeg])
    {
      len := segments[nextSeg];
      nextSeg := nextSeg + 1;
      if len < 255 {
        lastSeg := true;
      }
      if nextSeg >= |segments| {
        nextSeg := -1;
      }
      bytesInSeg := len;
    }

    /** Starts the next segment of the packet; 0 means that there is none. */
    method NextSegment() returns (len: nat)
      requires Paged() && bytesInSeg == 0
      modifies this`pages, this`segments, this`body, this`bodyPos, this`nextSeg, this`lastSeg, this`bytesInSeg
      ensures Paged() && (len, Here()) == NextSegmentAt(old(Here())) && len == bytesInSeg
      ensures len == 0 <==> old(Unread()) == []
      ensures old(HasEnd()) ==> HasEnd()
      ensures len > 0 || old(HasEnd()) ==> Unread() == old(Unread())
    {
      hide Rest, Ends, UnreadAt, EndsAt;
      ghost var start := Here();
      SegmentIsNext(start);
      if lastSeg {
        return 0;
      }
      if nextSeg == -1 {
        if pages == [] {
          lastSeg := true;
          return 0;
        }
        PageOkAhead(start);
        var continues := pages[0].continued;
        StartPage();
        if !continues {
          return 0;
        }
      }
      SegmentFits(Here());
      len := StartSegment();
    }

    method GetByte() returns (b: nat)
      requires InPage() && bytesInSeg > 0
      modifies this`bodyPos, this`bytesInSeg
      ensures InPage() && Here() == TakeByte(old(Here())) && b == old(body[bodyPos])
    {
      bytesInSeg := bytesInSeg - 1;
      b := body[bodyPos];
      bodyPos := bodyPos + 1;
    }

    /** The next byte of the packet, or the end of the packet. */
    method Get8PacketRaw() returns (b: int)
      requires Paged()
      modifies this`pages, this`segments, this`body, this`bodyPos, this`nextSeg, this`lastSeg, this`bytesInSeg
      ensures Paged() && (b, Here()) == ReadAt(old(Here()))
      ensures old(Unread()) == [] <==> b == EOP
      ensures b != EOP ==> 0 <= b < 256 && old(Unread()) == [b] + Unread() && (HasEnd() <==> old(HasEnd()))
      ensures b == EOP && old(HasEnd()) ==> HasEnd() && Unread() == []
      ensures b == EOP && !old(HasEnd()) ==> Unread() != []
    {
      hide Rest, Ends, UnreadAt, EndsAt, NextSegmentAt;
      ReadIs(Here());
      if bytesInSeg == 0 {
        if lastSeg {
          NoSegmentAfterLast(Here());
          return EOP;
        }
        var len := NextSegment();
        if len == 0 {
          return EOP;
        }
      }
      ByteIsTaken(Here());
      b := GetByte();
    }

    /** Puts a byte above the bits in the accumulator. */
    method Append(z: nat, ghost unread: seq<nat>)
      requires 0 <= validBits && acc < Pow2(validBits) && z < 256
      modifies this`acc, this`validBits
      ensures validBits == old(validBits) + 8 && acc < Pow2(validBits)
      ensures PendingAt(acc, validBits, unread) == PendingAt(old(acc), old(validBits), [z] + unread)
    {
      ByteIsMoved(acc, validBits, z, unread);
      acc := PutAbove(acc, z, validBits);
      validBits := validBits + 8;
    }

    /** Takes bits from the bottom of the accumulator. */
    method Take(n: nat, ghost unread: seq<nat>) returns (z: nat)
      requires n <= validBits && (validBits > 0 ==> acc < Pow2(validBits))
      modifies this`acc, this`validBits
      ensures validBits == old(validBits) - n && (validBits > 0 ==> acc < Pow2(validBits))
      ensures z == Value(PendingAt(old(acc), old(validBits), unread)[..n])
      ensures PendingAt(acc, validBits, unread) == PendingAt(old(acc), old(validBits), unread)[n..]
    {
      BitsAreTaken(acc, validBits, n, unread);
      z := Low(acc, n);
      acc := High(acc, n);
      validBits := validBits - n;
    }

    /** Moves the next byte of the packet into the accumulator. */
    method AppendByte() returns (z: int)
      requires Open() && 0 <= validBits <= 24 && acc < Pow2(validBits)
      modifies this
      ensures Open() && (z == EOP <==> old(Unread()) == [])
      ensures z == EOP ==> acc == old(acc) && validBits == old(validBits)
      ensures z == EOP ==> if old(HasEnd()) then HasEnd() && Unread() == [] else Unread() != []
      ensures z != EOP ==> Pending() == old(Pending()) && (HasEnd() <==> old(HasEnd()))
      ensures z != EOP ==> |Unread()| == |old(Unread())| - 1 && validBits == old(validBits) + 8 && acc < Pow2(validBits)
    {
      hide Pow2, UnreadAt, EndsAt, ReadAt;
      z := Get8PacketRaw();
      if z != EOP {
        Append(z, Unread());
      }
    }

    /** Fills the accumulator as far as the packet and the width allow, whatever the pages. The pending bits stay as
        they are exactly if there are more than 24 of them or the packet has an end; otherwise bits of the next packet
        come to stand behind them. An accumulator that a read past the end has made invalid stays so exactly if no byte
        is left; otherwise the source shifts by a negative number of bits, which C leaves undefined. */
    method PrepHuffman() returns (ghost defined: bool)
      requires Open()
      modifies this
      ensures Paged() && (defined <==> old(validBits) >= 0 || old(Unread()) == [])
      ensures defined ==> Open() && (old(Refillable()) ==> Refillable())
      ensures defined && old(validBits) < 0 ==> validBits == old(validBits)
      ensures old(validBits) >= 0 ==> validBits == Filled(old(validBits), |old(Unread())|) && acc < Pow2(validBits)
      ensures defined ==> PendingAt(acc, validBits, Own(old(Pending()), Unread())) == old(Pending()) <= Pending()
      ensures defined ==> (Pending() == old(Pending()) <==> |old(Pending())| > 24 || old(HasEnd()))
      ensures defined ==> (|old(Pending())| > 24 && HasEnd() ==> old(HasEnd())) && (old(HasEnd()) ==> HasEnd())
    {
      hide PendingAt, UnreadAt, EndsAt, Pow2, CursorOk;
      defined := true;
      PendingSplits(acc, validBits, Unread());
      if validBits <= 24 {
        if validBits == 0 {
          ClearedPending(acc, Unread());
          acc := 0;
        }
        if validBits >= 0 {
          FillUp();
        } else {
          defined := RefillInvalid();
          if defined {
            PendingSplits(acc, validBits, Unread());
          }
        }
      }
    }

    /** The loop of `prep_huffman`. */
    method FillUp()
      requires Open() && 0 <= validBits <= 24 && acc < Pow2(validBits)
      modifies this
      ensures Open() && 0 <= validBits == Filled(old(validBits), |old(Unread())|) && acc < Pow2(validBits)
      ensures PendingAt(acc, validBits, Own(old(Pending()), Unread())) == old(Pending()) <= Pending()
      ensures Pending() == old(Pending()) <==> |old(Pending())| > 24 || old(HasEnd())
      ensures (|old(Pending())| > 24 && HasEnd() ==> old(HasEnd())) && (old(HasEnd()) ==> HasEnd())
    {
      hide Pow2, PendingAt, UnreadAt, CursorOk, EndsAt;
      ghost var filled := Filled(validBits, |Unread()|);
      while validBits <= 24
        invariant Open() && Pending() == old(Pending()) && 0 <= validBits && acc < Pow2(validBits)
        invariant Filled(validBits, |Unread()|) == filled && (HasEnd() <==> old(HasEnd()))
        decreases |Unread()|
      {
        PendingSplits(acc, validBits, Unread());
        if lastSeg && bytesInSeg == 0 {
          NothingUnread();
          return;
        }
        var z := AppendByte();
        if z == EOP {
          PendingSplits(acc, validBits, Unread());
          return;
        }
      }
      PendingSplits(acc, validBits, Unread());
    }

    /** The first turn of that loop when the accumulator is invalid. */
    method RefillInvalid() returns (ghost defined: bool)
      requires Open() && validBits < 0
      modifies this
      ensures Paged() && acc == old(acc) && (defined <==> old(Unread()) == [])
      ensures defined ==> Open() && validBits == old(validBits)
      ensures defined ==> (Unread() == [] <==> old(HasEnd())) && (old(HasEnd()) ==> HasEnd())
    {
      hide Pow2, UnreadAt, CursorOk, EndsAt;
      if lastSeg && bytesInSeg == 0 {
        NothingUnread();
        return true;
      }
      var z := Get8PacketRaw();
      defined := z == EOP;
    }

    lemma NothingUnread()
      requires Paged() && lastSeg && bytesInSeg == 0
      ensures Unread() == [] && HasEnd()
    {
      PacketEnds(Here());
    }

    /** Fills the accumulator up to `n` bits, if the packet has them. */
    method FillTo(n: nat) returns (ok: bool)
      requires Open() && 0 <= validBits < n <= 24
      modifies this
      ensures Open()
      ensures ok ==> n <= validBits && acc < Pow2(validBits)
      ensures ok ==> Pending() == old(Pending()) && (HasEnd() <==> old(HasEnd()))
      ensures !ok ==> validBits < 0 && |old(Pending())| < n && (Refillable() <==> old(HasEnd()))
    {
      hide Pow2, UnreadAt, CursorOk, EndsAt;
      if validBits == 0 {
        acc := 0;
      }
      while validBits < n
        invariant Open() && Pending() == old(Pending()) && 0 <= validBits && acc < Pow2(validBits)
        invariant HasEnd() <==> old(HasEnd())
        decreases |Unread()|
      {
        var byte := AppendByte();
        if byte == EOP {
          validBits := INVALID_BITS;
          return false;
        }
      }
      return true;
    }

    /** Takes `n` bits that fit the accumulator. */
    method GetFew(n: nat) returns (z: nat)
      requires Open() && validBits >= 0 && (n <= 24 || n <= validBits)
      modifies this
      ensures Open()
      ensures n <= |old(Pending())| ==> validBits >= 0 && (HasEnd() <==> old(HasEnd()))
      ensures n <= |old(Pending())| ==> z == Value(old(Pending())[..n]) && Pending() == old(Pending())[n..]
      ensures n > |old(Pending())| ==> validBits < 0 && z == 0 && (Refillable() <==> old(HasEnd()))
    {
      hide Pow2, UnreadAt, CursorOk, EndsAt;
      if validBits < n {
        var ok := FillTo(n);
        if !ok {
          return 0;
        }
      }
      z := Take(n, Unread());
    }

    /** Reads the next `n` bits of the packet, lowest first, whatever the pages. A read past the end of the packet makes
        the reader invalid and gives 0, or the first 24 bits when more were asked for and they were there; it can be
        refilled then exactly if the packet has an end. */
    method GetBits(n: nat) returns (z: nat)
      requires Open() && (n < 32 || (n == 32 && validBits < 32))
      modifies this
      ensures Open()
      ensures old(validBits) < 0 ==> validBits < 0 && z == 0 && (Refillable() <==> old(Refillable()))
      ensures old(validBits) >= 0 && n <= |old(Pending())| ==> validBits >= 0 && (HasEnd() <==> old(HasEnd()))
      ensures old(validBits) >= 0 && n <= |old(Pending())| ==>
        z == Value(old(Pending())[..n]) && Pending() == old(Pending())[n..]
      ensures old(validBits) >= 0 && n > |old(Pending())| ==>
        && validBits < 0 && (Refillable() <==> old(HasEnd()))
        && z == if n > 24 && |old(Pending())| >= 24 then Value(old(Pending())[..24]) else 0
      decreases n, 1
    {
      hide UnreadAt, EndsAt, CursorOk, Pow2;
      if validBits < 0 {
        return 0;
      }
      if validBits < n && n > 24 {
        z := GetWide(n, 24);
      } else {
        z := GetFew(n);
      }
    }

    /** Takes `m` bits, and then the other bits above them. */
    method GetWide(n: nat, m: nat) returns (z: nat)
      requires Open() && validBits >= 0 && 0 < m < n && m <= 24 && n - m <= 24
      modifies this
      ensures Open()
      ensures n <= |old(Pending())| ==> validBits >= 0 && (HasEnd() <==> old(HasEnd()))
      ensures n <= |old(Pending())| ==> z == Value(old(Pending())[..n]) && Pending() == old(Pending())[n..]
      ensures n > |old(Pending())| ==>
        && validBits < 0 && (Refillable() <==> old(HasEnd()))
        && z == if |old(Pending())| >= m then Value(old(Pending())[..m]) else 0
      decreases n, 0
    {
      hide UnreadAt, EndsAt, CursorOk, Pow2;
      ghost var pending := Pending();
      z := GetBits(m);
      var y := GetBits(n - m);
      if n <= |pending| {
        ReadsJoin(pending, m, n);
      } else {
        NothingAbove(z, m);
      }
      z := PutAbove(z, y, m);
    }
  }

  lemma PageOkAhead(p: Cursor)
    requires CursorOk(p) && p.inSeg == 0 && p.lens == [] && p.pages != []
    ensures p.pages[0].segments != [] && CursorOk(EnterPage(p))
  {
    PagesTail(p.pages);
  }

  lemma SegmentFits(p: Cursor)
    requires CursorOk(p) && p.lens != []
    ensures p.inSeg + p.lens[0] <= |p.payload|
  {
  }

  lemma NoSegmentAfterLast(p: Cursor)
    requires p.last && p.inSeg == 0
    ensures ReadAt(p) == (EOP, p)
  {
  }
}
