/**
  `sup.c`: framing a presentation graphics (PGS) stream into packets and
  decoding the four segment kinds the converter uses, the composition
  (PCS), palette (PDS), window (WDS) and object (ODS) segments.

  Each decoder is specified by a function over the payload bytes and the
  record it overwrites, and implemented by a method of a class that holds
  the record's fields and its reused table, as the source fills a
  caller-owned struct in place.
 */
module Sup {
  import opened Bytes
  import opened Arith

  /** "PG", the first two bytes of every packet. */
  const PACKET_MARKER: u16 := 0x5047
  /** The capacity of the segment buffer, and the largest length a packet can announce. */
  const MAX_SEGMENT_LEN: nat := 0xffff
  /** Marker, PTS, DTS, type and length. */
  const PACKET_HEADER_LEN: nat := 13

  const SEGMENT_PDS: byte := 0x14
  const SEGMENT_ODS: byte := 0x15
  const SEGMENT_PCS: byte := 0x16
  const SEGMENT_WDS: byte := 0x17
  const SEGMENT_END: byte := 0x80

  const STATE_NORMAL: byte := 0x00
  const STATE_ACQU_POINT: byte := 0x40
  const STATE_EPOCH_START: byte := 0x80
  const STATE_EPOCH_CONTINUE: byte := 0xc0
  /** `SUP_PCS_STATE_UNKNOWN` is -1, stored in a `uint8_t`. */
  const STATE_UNKNOWN: byte := 0xff
  /** `SUP_FPS_UNKNOWN` is -1, stored in a `uint8_t`. */
  const FPS_UNKNOWN: byte := 0xff

  const ODS_FIRST: bv8 := 0x80
  const ODS_LAST: bv8 := 0x40

  /** Entries allocated for the objects, colors and windows tables. */
  const TABLE_SIZE: nat := 0xff

  /** PTS ticks per millisecond: the 90 kHz clock. */
  const PTS_FREQ: nat := 90

  /** `sup_pts_to_ms`: whole milliseconds of a 90 kHz timestamp, rounded down. */
  function PtsToMs(pts: u32): (ms: u32)
    ensures ms * PTS_FREQ <= pts < ms * PTS_FREQ + PTS_FREQ
  {
    pts / 90
  }

  // ---------------------------------------------------------------------
  // Packets
  // ---------------------------------------------------------------------

  datatype PacketHeader = PacketHeader(marker: u16, pts: u32, dts: u32, segmentType: byte, segmentLen: u16)

  /** The header `init_sup_packet` leaves before each read. */
  const INIT_HEADER: PacketHeader := PacketHeader(PACKET_MARKER, 0, 0, 0, 0)

  datatype ReadStatus =
    | Ok
    | NoMarker       // fewer than two bytes left: the end of the stream
    | BadMarker      // the two bytes read are not "PG"
    | ShortHeader    // the stream ends inside the PTS, DTS, type or length
    | ShortPayload   // the stream ends before `segment_len` payload bytes

  /**
    What one `read_sup_packet` at offset `pos` does: its verdict, the header
    fields it has stored, the bytes it has copied to the start of the
    segment buffer, and the offset of the next unread byte. A failed `fread`
    consumes what is left of the stream; a field it could only partly read
    keeps its reset value here.
   */
  datatype ReadOutcome = ReadOutcome(status: ReadStatus, header: PacketHeader, received: seq<byte>, next: nat)

  function ReadPacket(input: seq<byte>, pos: nat): (r: ReadOutcome)
    requires pos <= |input|
    ensures pos < r.next <= |input| || r.next == pos == |input|
    ensures r.status == Ok <==>
      pos + PACKET_HEADER_LEN <= |input| && Be16(input, pos) == PACKET_MARKER
      && pos + PACKET_HEADER_LEN + Be16(input, pos + 11) <= |input|
    ensures r.status == Ok ==>
      r.next == pos + PACKET_HEADER_LEN + r.header.segmentLen && r.received == input[pos + PACKET_HEADER_LEN..r.next]
    ensures r.status == BadMarker <==> pos + 2 <= |input| && Be16(input, pos) != PACKET_MARKER
    ensures r.status == BadMarker ==> r.next == pos + 2
    ensures |r.received| <= r.header.segmentLen
  {
    var avail := |input| - pos;
    if avail < 2 then ReadOutcome(NoMarker, INIT_HEADER, [], |input|)
    else
      var marker := Be16(input, pos);
      if marker != PACKET_MARKER then ReadOutcome(BadMarker, INIT_HEADER.(marker := marker), [], pos + 2)
      else if avail < 6 then ReadOutcome(ShortHeader, INIT_HEADER, [], |input|)
      else
        var pts := Be32(input, pos + 2);
        if avail < 10 then ReadOutcome(ShortHeader, INIT_HEADER.(pts := pts), [], |input|)
        else
          var dts := Be32(input, pos + 6);
          if avail < 11 then ReadOutcome(ShortHeader, INIT_HEADER.(pts := pts, dts := dts), [], |input|)
          else
            var segmentType := input[pos + 10];
            if avail < 13 then
              ReadOutcome(ShortHeader, INIT_HEADER.(pts := pts, dts := dts, segmentType := segmentType), [], |input|)
            else
              var len := Be16(input, pos + 11);
              var header := PacketHeader(marker, pts, dts, segmentType, len);
              if avail < 13 + len then ReadOutcome(ShortPayload, header, input[pos + 13..], |input|)
              else ReadOutcome(Ok, header, input[pos + 13..pos + 13 + len], pos + 13 + len)
  }

  /** The bytes of one packet as a muxer lays it out. */
  function EncodePacket(pts: u32, dts: u32, segmentType: byte, payload: seq<byte>): (r: seq<byte>)
    requires |payload| <= MAX_SEGMENT_LEN
    ensures |r| == PACKET_HEADER_LEN + |payload|
  {
    EncodeBe16(PACKET_MARKER) + EncodeBe32(pts) + EncodeBe32(dts) + [segmentType] + EncodeBe16(|payload|) + payload
  }

  /** Where the fields of an encoded packet lie, stated byte by byte. */
  lemma EncodePacketBytes(pts: u32, dts: u32, segmentType: byte, payload: seq<byte>)
    requires |payload| <= MAX_SEGMENT_LEN
    ensures var e := EncodePacket(pts, dts, segmentType, payload);
      e[0..2] == EncodeBe16(PACKET_MARKER) && e[2..6] == EncodeBe32(pts) && e[6..10] == EncodeBe32(dts)
      && e[10] == segmentType && e[11..13] == EncodeBe16(|payload|) && e[13..] == payload
  {
  }

  /**
    A packet laid out anywhere in a stream is read back whole: its header,
    exactly its payload, and the reader stops right after it.
   */
  lemma ReadEncoded(prefix: seq<byte>, pts: u32, dts: u32, segmentType: byte, payload: seq<byte>, rest: seq<byte>)
    requires |payload| <= MAX_SEGMENT_LEN
    ensures var input := prefix + EncodePacket(pts, dts, segmentType, payload) + rest;
      ReadPacket(input, |prefix|)
        == ReadOutcome(Ok, PacketHeader(PACKET_MARKER, pts, dts, segmentType, |payload|), payload,
                       |prefix| + PACKET_HEADER_LEN + |payload|)
  {
    var e := EncodePacket(pts, dts, segmentType, payload);
    var input := prefix + e + rest;
    var p := |prefix|;
    EncodePacketBytes(pts, dts, segmentType, payload);
    assert input[p..p + |e|] == e;
    FieldsAt(input, p, e);
    assert input[p + 13..p + 13 + |payload|] == payload by {
      assert input[p + 13..p + 13 + |payload|] == e[13..];
    }
  }

  /** The header fields read at `p` are those of the encoded bytes found there. */
  lemma FieldsAt(input: seq<byte>, p: nat, e: seq<byte>)
    requires |e| >= PACKET_HEADER_LEN && p + |e| <= |input| && input[p..p + |e|] == e
    ensures Be16(input, p) == Be16(e, 0) && Be32(input, p + 2) == Be32(e, 2)
    ensures Be32(input, p + 6) == Be32(e, 6) && input[p + 10] == e[10] && Be16(input, p + 11) == Be16(e, 11)
  {
    assert forall d :: 0 <= d < 13 ==> input[p + d] == e[d];
  }

  /** Copying the next chunk right after the bytes already received. */
  lemma ReceiveStep(before: seq<byte>, after: seq<byte>, buf: seq<byte>, r: nat, got: seq<byte>, chunk: seq<byte>)
    requires |before| == |after| == |buf| && r + |chunk| <= |after|
    requires before[..r] == got && before[r..] == buf[r..]
    requires forall k :: 0 <= k < |after| ==> after[k] == if r <= k < r + |chunk| then chunk[k - r] else before[k]
    ensures after[..r + |chunk|] == got + chunk
    ensures after[r + |chunk|..] == buf[r + |chunk|..]
  {
    assert after[..r] == before[..r];
    assert after[r..r + |chunk|] == chunk;
    assert after[..r + |chunk|] == after[..r] + after[r..r + |chunk|];
    assert before[r + |chunk|..] == before[r..][|chunk|..];
  }

  /**
    `struct sup_packet`: the header fields and the segment buffer, which is
    allocated once and overwritten by every read.
   */
  class Packet {
    var marker: u16
    var pts: u32
    var dts: u32
    var segmentType: byte
    var segmentLen: u16
    const segment: array<byte>

    /** The header fields as a value. */
    function Header(): PacketHeader
      reads this
    {
      PacketHeader(marker, pts, dts, segmentType, segmentLen)
    }

    /** The `segment_len` payload bytes of the last packet read. */
    function Payload(): seq<byte>
      reads this, segment
      requires segmentLen <= segment.Length
    {
      segment[..segmentLen]
    }

    /** A packet as `init_sup_packet` sets up a zeroed struct: the buffer is allocated zero-filled. */
    constructor ()
      ensures Header() == INIT_HEADER
      ensures segment.Length == MAX_SEGMENT_LEN && fresh(segment)
      ensures forall k :: 0 <= k < segment.Length ==> segment[k] == 0
    {
      marker, pts, dts, segmentType, segmentLen := PACKET_MARKER, 0, 0, 0, 0;
      segment := new byte[MAX_SEGMENT_LEN](_ => 0);
    }

    /** `init_sup_packet` on an allocated packet: the header is reset, the buffer is kept. */
    method Init()
      modifies this
      ensures Header() == INIT_HEADER
    {
      marker := PACKET_MARKER;
      pts := 0;
      dts := 0;
      segmentType := 0;
      segmentLen := 0;
    }

    /**
      `read_sup_packet` over the stream `input` from offset `pos`: `next` is
      the offset after the bytes consumed, and the header and buffer are as
      `ReadPacket` says.
     */
    method Read(input: seq<byte>, pos: nat) returns (status: ReadStatus, next: nat)
      requires pos <= |input| && segment.Length == MAX_SEGMENT_LEN
      modifies this, segment
      ensures var r := ReadPacket(input, pos);
        status == r.status && next == r.next && Header() == r.header
        && segment[..|r.received|] == r.received && segment[|r.received|..] == old(segment[|r.received|..])
    {
      Init();
      if |input| - pos < 2 {
        return NoMarker, |input|;
      }
      marker := Be16(input, pos);
      if marker != PACKET_MARKER {
        return BadMarker, pos + 2;
      }
      if |input| - pos < 6 {
        return ShortHeader, |input|;
      }
      pts := Be32(input, pos + 2);
      if |input| - pos < 10 {
        return ShortHeader, |input|;
      }
      dts := Be32(input, pos + 6);
      if |input| - pos < 11 {
        return ShortHeader, |input|;
      }
      segmentType := input[pos + 10];
      if |input| - pos < 13 {
        return ShortHeader, |input|;
      }
      segmentLen := Be16(input, pos + 11);

      var complete, end := ReceiveSegment(input, pos + PACKET_HEADER_LEN);
      return if complete then Ok else ShortPayload, end;
    }

    /**
      The `received` loop of `read_sup_packet`: `fread` is called until
      `segment_len` bytes have arrived, and fails once the stream has nothing
      left. The bytes that did arrive are at the start of the buffer.
     */
    method ReceiveSegment(input: seq<byte>, start: nat) returns (complete: bool, next: nat)
      requires start <= |input| && segmentLen <= segment.Length
      modifies segment
      ensures complete <==> start + segmentLen <= |input|
      ensures next == if complete then start + segmentLen else |input|
      ensures segment[..next - start] == input[start..next]
      ensures segment[next - start..] == old(segment[next - start..])
    {
      var cur := start;
      var received := 0;
      while received < segmentLen
        invariant received <= segmentLen && cur == start + received <= |input|
        invariant segment[..received] == input[start..cur]
        invariant segment[received..] == old(segment[received..])
      {
        var n := FreadSegment(input, start, cur, old(segment[..]));
        if n == 0 {
          return false, |input|;
        }
        received := received + n;
        cur := cur + n;
      }
      return true, cur;
    }

    /**
      One `fread(segment + received, 1, segment_len - received, fd)`: it
      delivers the bytes still missing, or what is left of the stream if that
      is less, right after those already received.
     */
    method FreadSegment(input: seq<byte>, start: nat, cur: nat, ghost buf: seq<byte>) returns (n: nat)
      requires start <= cur <= |input| && cur - start < segmentLen <= segment.Length == |buf|
      requires segment[..cur - start] == input[start..cur] && segment[cur - start..] == buf[cur - start..]
      modifies segment
      ensures n == if start + segmentLen - cur <= |input| - cur then start + segmentLen - cur else |input| - cur
      ensures segment[..cur - start + n] == input[start..cur + n]
      ensures segment[cur - start + n..] == buf[cur - start + n..]
    {
      ghost var before := segment[..];
      var received := cur - start;
      n := if segmentLen - received <= |input| - cur then segmentLen - received else |input| - cur;
      forall k | 0 <= k < n {
        segment[received + k] := input[cur + k];
      }
      ReceiveStep(before, segment[..], buf, received, input[start..cur], input[cur..cur + n]);
      SliceConcat(input, start, cur, cur + n);
    }
  }

  // ---------------------------------------------------------------------
  // Segment records
  // ---------------------------------------------------------------------

  /** A decoder's verdict (0 or -1 in the source) and the record as it leaves it either way. */
  datatype Parsed<T> = Parsed(ok: bool, rec: T)

  /** `struct sup_object`: one object placed in the composition. */
  datatype SupObject = SupObject(objId: u16, winId: byte, objFlag: byte, posX: u16, posY: u16)

  /** `struct sup_segment_pcs`; `objects` is the whole 255-entry table, valid or stale. */
  datatype PcsRec = PcsRec(ptsMsec: u32, videoWidth: u16, videoHeight: u16, frameRate: byte,
                           compId: u16, compState: byte, paletteFlag: byte, paletteId: byte,
                           numOfObjects: byte, objects: seq<SupObject>)

  /** `struct sup_color`: a palette entry with the gray level derived from it. */
  datatype Color = Color(idx: byte, y: byte, cr: byte, cb: byte, a: byte, gray: byte)

  /** `struct sup_segment_pds`; `colors` is the whole 255-entry table. */
  datatype PdsRec = PdsRec(paletteId: u16, numOfColors: byte, colors: seq<Color>)

  /** `struct sup_window`. */
  datatype Window = Window(winId: byte, x: u16, y: u16, width: u16, height: u16)

  /** `struct sup_segment_wds`; `windows` is the whole 255-entry table. */
  datatype WdsRec = WdsRec(numOfWindows: byte, windows: seq<Window>)

  /**
    `struct sup_segment_ods`. The source keeps `raw_data` as a pointer into
    the packet's segment buffer; here it is the offset of the object data in
    that buffer (0 where the source has NULL).
   */
  datatype OdsRec = OdsRec(objId: u16, objVersion: byte, objFlag: byte, objDataLen: nat,
                           objWidth: u16, objHeight: u16, rawOffset: nat, rawDataLen: nat)

  const EMPTY_OBJECT: SupObject := SupObject(0, 0, 0, 0, 0)
  const EMPTY_COLOR: Color := Color(0, 0, 0, 0, 0, 0)
  const EMPTY_WINDOW: Window := Window(0, 0, 0, 0, 0)

  /** `init_sup_segment_pcs`: the header fields are reset; `pts_msec` and the objects table are kept. */
  function InitPcs(r: PcsRec): PcsRec
  {
    r.(videoWidth := 0, videoHeight := 0, frameRate := FPS_UNKNOWN, compId := 0, compState := STATE_UNKNOWN,
       paletteFlag := 0, paletteId := 0, numOfObjects := 0)
  }

  /** `init_sup_segment_pds`: the colors table is kept. */
  function InitPds(r: PdsRec): PdsRec
  {
    r.(paletteId := 0, numOfColors := 0)
  }

  /** `init_sup_segment_wds`: the windows table is kept. */
  function InitWds(r: WdsRec): WdsRec
  {
    r.(numOfWindows := 0)
  }

  /** `init_sup_segment_ods`: every field is reset. */
  const INIT_ODS: OdsRec := OdsRec(0, 0, 0, 0, 0, 0, 0, 0)

  // ---------------------------------------------------------------------
  // PCS
  // ---------------------------------------------------------------------

  /** The 8 bytes of one composition object at `off`: id, window, flags, x, y. */
  function ObjectAt(seg: seq<byte>, off: nat): SupObject
    requires off + 8 <= |seg|
  {
    SupObject(Be16(seg, off), seg[off + 2], seg[off + 3], Be16(seg, off + 4), Be16(seg, off + 6))
  }

  /** The objects table after the loop of `parse_sup_segment_pcs` has filled its first `n` entries. */
  function Objects(seg: seq<byte>, n: nat, table: seq<SupObject>): (r: seq<SupObject>)
    requires 11 + 8 * n <= |seg| && n <= |table|
    ensures |r| == |table|
    ensures forall k :: 0 <= k < |table| ==> r[k] == if k < n then ObjectAt(seg, 11 + 8 * k) else table[k]
  {
    if n == 0 then table else Objects(seg, n - 1, table)[n - 1 := ObjectAt(seg, 11 + 8 * (n - 1))]
  }

  /**
    `parse_sup_segment_pcs` on the payload `seg` of a packet with timestamp
    `pts`. Fields are stored as they are read, so a segment rejected for its
    length keeps the header fields already stored.
   */
  function ParsePcs(seg: seq<byte>, pts: u32, r: PcsRec): (p: Parsed<PcsRec>)
    requires |r.objects| == TABLE_SIZE
    ensures |p.rec.objects| == TABLE_SIZE
    ensures p.ok <==> 11 <= |seg| && |seg| == 11 + 8 * (seg[10] as int)
  {
    var init := InitPcs(r);
    if |seg| < 11 then Parsed(false, init)
    else
      var header := init.(ptsMsec := PtsToMs(pts), videoWidth := Be16(seg, 0), videoHeight := Be16(seg, 2),
                          frameRate := seg[4], compId := Be16(seg, 5), compState := seg[7],
                          paletteFlag := seg[8], paletteId := seg[9], numOfObjects := seg[10]);
      if |seg| != (seg[10] as int) * 8 + 11 then Parsed(false, header)
      else Parsed(true, header.(objects := Objects(seg, seg[10], init.objects)))
  }

  /** What a composition segment carries on the wire, objects included. */
  datatype Composition = Composition(videoWidth: u16, videoHeight: u16, frameRate: byte, compId: u16,
                                     compState: byte, paletteFlag: byte, paletteId: byte, objects: seq<SupObject>)

  function EncodeObject(o: SupObject): (r: seq<byte>)
    ensures |r| == 8
  {
    EncodeBe16(o.objId) + [o.winId, o.objFlag] + EncodeBe16(o.posX) + EncodeBe16(o.posY)
  }

  function EncodeObjects(objs: seq<SupObject>): (r: seq<byte>)
    ensures |r| == 8 * |objs|
  {
    if objs == [] then [] else EncodeObjects(objs[..|objs| - 1]) + EncodeObject(objs[|objs| - 1])
  }

  /** The 11 bytes before the objects: dimensions, frame rate, composition number and state, palette, count. */
  function PcsHeaderBytes(c: Composition): (r: seq<byte>)
    requires |c.objects| < 0x100
    ensures |r| == 11
  {
    EncodeBe16(c.videoWidth) + EncodeBe16(c.videoHeight) + [c.frameRate] + EncodeBe16(c.compId)
      + [c.compState, c.paletteFlag, c.paletteId, |c.objects|]
  }

  /** The payload of a composition segment. */
  function EncodePcs(c: Composition): (r: seq<byte>)
    requires |c.objects| < 0x100
    ensures |r| == 11 + 8 * |c.objects|
  {
    PcsHeaderBytes(c) + EncodeObjects(c.objects)
  }

  /** Reading an object only looks at its own 8 bytes. */
  lemma ObjectAtAppend(s: seq<byte>, t: seq<byte>, off: nat)
    requires off + 8 <= |s|
    ensures ObjectAt(s + t, off) == ObjectAt(s, off)
  {
    assert forall i :: off <= i < off + 8 ==> (s + t)[i] == s[i];
  }

  /** An encoded object reads back as itself. */
  lemma ObjectAtEncoded(p: seq<byte>, o: SupObject)
    ensures ObjectAt(p + EncodeObject(o), |p|) == o
  {
    var e := EncodeObject(o);
    var s := p + e;
    assert forall d :: 0 <= d < 8 ==> s[|p| + d] == e[d];
    assert Be16(s, |p|) == Be16(EncodeBe16(o.objId), 0);
    assert Be16(s, |p| + 4) == Be16(EncodeBe16(o.posX), 0);
    assert Be16(s, |p| + 6) == Be16(EncodeBe16(o.posY), 0);
  }

  /** Object `k` of an encoded list, after any header `h`, reads back as itself. */
  lemma {:induction false} ObjectsEncoded(h: seq<byte>, objs: seq<SupObject>, k: nat)
    requires k < |objs|
    ensures |h + EncodeObjects(objs)| == |h| + 8 * |objs|
    ensures ObjectAt(h + EncodeObjects(objs), |h| + 8 * k) == objs[k]
    decreases |objs|
  {
    var init, last := objs[..|objs| - 1], objs[|objs| - 1];
    var p := h + EncodeObjects(init);
    assert h + EncodeObjects(objs) == p + EncodeObject(last);
    if k < |init| {
      ObjectAtAppend(p, EncodeObject(last), |h| + 8 * k);
      ObjectsEncoded(h, init, k);
      assert init[k] == objs[k];
    } else {
      ObjectAtEncoded(p, last);
    }
  }

  /**
    An encoded composition parses back: every header field, the object
    count, the objects in order in the first entries of the table, the
    stale entries after them untouched, and the timestamp in milliseconds.
   */
  lemma ParseEncodedPcs(c: Composition, pts: u32, r: PcsRec)
    requires |c.objects| <= TABLE_SIZE && |r.objects| == TABLE_SIZE
    ensures var n := |c.objects|;
      ParsePcs(EncodePcs(c), pts, r)
        == Parsed(true, PcsRec(PtsToMs(pts), c.videoWidth, c.videoHeight, c.frameRate, c.compId, c.compState,
                               c.paletteFlag, c.paletteId, n, c.objects + r.objects[n..]))
  {
    var n := |c.objects|;
    var h := PcsHeaderBytes(c);
    var s := EncodePcs(c);
    assert forall d :: 0 <= d < 11 ==> s[d] == h[d];
    assert Be16(s, 0) == Be16(EncodeBe16(c.videoWidth), 0);
    assert Be16(s, 2) == Be16(EncodeBe16(c.videoHeight), 0);
    assert Be16(s, 5) == Be16(EncodeBe16(c.compId), 0);
    assert s[10] == n;
    forall k | 0 <= k < n
      ensures ObjectAt(s, 11 + 8 * k) == c.objects[k]
    {
      ObjectsEncoded(h, c.objects, k);
    }
    assert Objects(s, n, r.objects) == c.objects + r.objects[n..];
  }

  // ---------------------------------------------------------------------
  // PDS
  // ---------------------------------------------------------------------

  /**
    The gray level of a palette entry: luminance scaled by opacity. The
    source divides by 255.0 in floating point and truncates; for bytes that
    is the integer quotient.
   */
  function Gray(y: byte, a: byte): (g: byte)
    ensures g * 255 <= (y as int) * (a as int) < g * 255 + 255
  {
    MulLe(y, 255, a);
    ((y as int) * (a as int)) / 255
  }

  /** The gray level never exceeds the luminance or the opacity; opaque white is white and black is black. */
  lemma GrayBounds(y: byte, a: byte)
    ensures Gray(y, a) <= y && Gray(y, a) <= a
    ensures Gray(y, 255) == y && Gray(255, a) == a
    ensures Gray(0, a) == 0 && Gray(y, 0) == 0
  {
    MulLe(a, 255, y);
    MulLe(y, 255, a);
    DivUnique((y as int) * 255, 255, y, 0);
    DivUnique(255 * (a as int), 255, a, 0);
  }

  /** The 5 bytes of one palette entry at `off`, in the order index, Y, Cr, Cb, alpha. */
  function ColorAt(seg: seq<byte>, off: nat): Color
    requires off + 5 <= |seg|
  {
    Color(seg[off], seg[off + 1], seg[off + 2], seg[off + 3], seg[off + 4], Gray(seg[off + 1], seg[off + 4]))
  }

  /** The colors table after the loop of `parse_sup_segment_pds` has filled its first `n` entries. */
  function Colors(seg: seq<byte>, n: nat, table: seq<Color>): (r: seq<Color>)
    requires 2 + 5 * n <= |seg| && n <= |table|
    ensures |r| == |table|
    ensures forall k :: 0 <= k < |table| ==> r[k] == if k < n then ColorAt(seg, 2 + 5 * k) else table[k]
  {
    if n == 0 then table else Colors(seg, n - 1, table)[n - 1 := ColorAt(seg, 2 + 5 * (n - 1))]
  }

  /**
    `parse_sup_segment_pds`. The entry count is the number of whole 5-byte
    entries, stored in a `uint8_t`, so it is taken modulo 256; bytes after
    the last whole entry are not read.
   */
  function ParsePds(seg: seq<byte>, r: PdsRec): (p: Parsed<PdsRec>)
    requires |r.colors| == TABLE_SIZE
    ensures |p.rec.colors| == TABLE_SIZE
    ensures p.ok <==> |seg| >= 2
  {
    var init := InitPds(r);
    if |seg| < 2 then Parsed(false, init)
    else
      var n := ((|seg| - 2) / 5) % 0x100;
      Parsed(true, PdsRec(Be16(seg, 0), n, Colors(seg, n, init.colors)))
  }

  /** A palette entry as it is sent. */
  datatype PaletteEntry = PaletteEntry(idx: byte, y: byte, cr: byte, cb: byte, a: byte)

  /** The record an entry becomes. */
  function ColorOf(e: PaletteEntry): Color
  {
    Color(e.idx, e.y, e.cr, e.cb, e.a, Gray(e.y, e.a))
  }

  function EncodeEntries(es: seq<PaletteEntry>): (r: seq<byte>)
    ensures |r| == 5 * |es|
  {
    if es == [] then []
    else
      var e := es[|es| - 1];
      EncodeEntries(es[..|es| - 1]) + [e.idx, e.y, e.cr, e.cb, e.a]
  }

  /** The payload of a palette segment. */
  function EncodePds(paletteId: u16, es: seq<PaletteEntry>): (r: seq<byte>)
    ensures |r| == 2 + 5 * |es|
  {
    EncodeBe16(paletteId) + EncodeEntries(es)
  }

  lemma ColorAtAppend(s: seq<byte>, t: seq<byte>, off: nat)
    requires off + 5 <= |s|
    ensures ColorAt(s + t, off) == ColorAt(s, off)
  {
    assert forall i :: off <= i < off + 5 ==> (s + t)[i] == s[i];
  }

  /** Entry `k` of an encoded list, after any header `h`, reads back as the color it denotes. */
  lemma {:induction false} EntriesEncoded(h: seq<byte>, es: seq<PaletteEntry>, k: nat)
    requires k < |es|
    ensures |h + EncodeEntries(es)| == |h| + 5 * |es|
    ensures ColorAt(h + EncodeEntries(es), |h| + 5 * k) == ColorOf(es[k])
    decreases |es|
  {
    var init, last := es[..|es| - 1], es[|es| - 1];
    var p := h + EncodeEntries(init);
    var tail := [last.idx, last.y, last.cr, last.cb, last.a];
    assert h + EncodeEntries(es) == p + tail;
    if k < |init| {
      ColorAtAppend(p, tail, |h| + 5 * k);
      EntriesEncoded(h, init, k);
      assert init[k] == es[k];
    } else {
      assert forall d :: 0 <= d < 5 ==> (p + tail)[|p| + d] == tail[d];
    }
  }

  /**
    An encoded palette parses back: the palette id, and its entries in
    arrival order, as many as the count modulo 256, with the stale entries
    after them untouched. From 256 entries on, the count wraps around.
   */
  lemma ParseEncodedPds(paletteId: u16, es: seq<PaletteEntry>, r: PdsRec)
    requires |r.colors| == TABLE_SIZE
    ensures var p := ParsePds(EncodePds(paletteId, es), r);
      var n := |es| % 0x100;
      p.ok && p.rec.paletteId == paletteId && p.rec.numOfColors == n
      && (forall k :: 0 <= k < n ==> p.rec.colors[k] == ColorOf(es[k]))
      && p.rec.colors[n..] == r.colors[n..]
  {
    var s := EncodePds(paletteId, es);
    var h := EncodeBe16(paletteId);
    assert Be16(s, 0) == Be16(h, 0);
    assert (|s| - 2) / 5 == |es|;
    var n := |es| % 0x100;
    forall k | 0 <= k < n
      ensures ColorAt(s, 2 + 5 * k) == ColorOf(es[k])
    {
      EntriesEncoded(h, es, k);
    }
  }

  /** The colors read from a segment do not depend on bytes after the entries read. */
  lemma {:induction false} ColorsAppend(s: seq<byte>, t: seq<byte>, n: nat, table: seq<Color>)
    requires 2 + 5 * n <= |s| && n <= |table|
    ensures Colors(s + t, n, table) == Colors(s, n, table)
  {
    if n > 0 {
      ColorsAppend(s, t, n - 1, table);
      ColorAtAppend(s, t, 2 + 5 * (n - 1));
    }
  }

  /** Bytes after the last whole entry do not change what is parsed. */
  lemma PdsIgnoresTrailing(seg: seq<byte>, extra: seq<byte>, r: PdsRec)
    requires |r.colors| == TABLE_SIZE
    requires |seg| >= 2 && (|seg| - 2) % 5 + |extra| < 5
    ensures ParsePds(seg + extra, r) == ParsePds(seg, r)
  {
    assert (|seg + extra| - 2) / 5 == (|seg| - 2) / 5;
    assert Be16(seg + extra, 0) == Be16(seg, 0);
    ColorsAppend(seg, extra, ((|seg| - 2) / 5) % 0x100, r.colors);
  }

  // ---------------------------------------------------------------------
  // WDS
  // ---------------------------------------------------------------------

  /** The 9 bytes of one window at `off`: id, then x, y, width and height in network order. */
  function WindowAt(seg: seq<byte>, off: nat): Window
    requires off + 9 <= |seg|
  {
    Window(seg[off], Be16(seg, off + 1), Be16(seg, off + 3), Be16(seg, off + 5), Be16(seg, off + 7))
  }

  /** The windows table after the loop of `parse_sup_segment_wds` has filled its first `n` entries. */
  function Windows(seg: seq<byte>, n: nat, table: seq<Window>): (r: seq<Window>)
    requires 1 + 9 * n <= |seg| && n <= |table|
    ensures |r| == |table|
    ensures forall k :: 0 <= k < |table| ==> r[k] == if k < n then WindowAt(seg, 1 + 9 * k) else table[k]
  {
    if n == 0 then table else Windows(seg, n - 1, table)[n - 1 := WindowAt(seg, 1 + 9 * (n - 1))]
  }

  /**
    `parse_sup_segment_wds`: a count byte, then exactly that many 9-byte
    windows. A length mismatch fails with the count already stored.
   */
  function ParseWds(seg: seq<byte>, r: WdsRec): (p: Parsed<WdsRec>)
    requires |r.windows| == TABLE_SIZE
    ensures |p.rec.windows| == TABLE_SIZE
    ensures p.ok <==> 1 <= |seg| && |seg| == 1 + 9 * (seg[0] as int)
  {
    var init := InitWds(r);
    if |seg| < 1 then Parsed(false, init)
    else
      var n := seg[0];
      if |seg| != 1 + 9 * (n as int) then Parsed(false, init.(numOfWindows := n))
      else Parsed(true, WdsRec(n, Windows(seg, n, init.windows)))
  }

  function EncodeWindow(w: Window): (r: seq<byte>)
    ensures |r| == 9
  {
    [w.winId] + EncodeBe16(w.x) + EncodeBe16(w.y) + EncodeBe16(w.width) + EncodeBe16(w.height)
  }

  function EncodeWindows(ws: seq<Window>): (r: seq<byte>)
    ensures |r| == 9 * |ws|
  {
    if ws == [] then [] else EncodeWindows(ws[..|ws| - 1]) + EncodeWindow(ws[|ws| - 1])
  }

  /** The payload of a window segment. */
  function EncodeWds(ws: seq<Window>): (r: seq<byte>)
    requires |ws| < 0x100
    ensures |r| == 1 + 9 * |ws|
  {
    [|ws|] + EncodeWindows(ws)
  }

  lemma WindowAtAppend(s: seq<byte>, t: seq<byte>, off: nat)
    requires off + 9 <= |s|
    ensures WindowAt(s + t, off) == WindowAt(s, off)
  {
    assert forall i :: off <= i < off + 9 ==> (s + t)[i] == s[i];
  }

  /** An encoded window reads back as itself. */
  lemma WindowAtEncoded(p: seq<byte>, w: Window)
    ensures WindowAt(p + EncodeWindow(w), |p|) == w
  {
    var e := EncodeWindow(w);
    var s := p + e;
    assert forall d :: 0 <= d < 9 ==> s[|p| + d] == e[d];
    assert Be16(s, |p| + 1) == Be16(EncodeBe16(w.x), 0);
    assert Be16(s, |p| + 3) == Be16(EncodeBe16(w.y), 0);
    assert Be16(s, |p| + 5) == Be16(EncodeBe16(w.width), 0);
    assert Be16(s, |p| + 7) == Be16(EncodeBe16(w.height), 0);
  }

  /** Window `k` of an encoded list, after any header `h`, reads back as itself. */
  lemma {:induction false} WindowsEncoded(h: seq<byte>, ws: seq<Window>, k: nat)
    requires k < |ws|
    ensures |h + EncodeWindows(ws)| == |h| + 9 * |ws|
    ensures WindowAt(h + EncodeWindows(ws), |h| + 9 * k) == ws[k]
    decreases |ws|
  {
    var init, last := ws[..|ws| - 1], ws[|ws| - 1];
    var p := h + EncodeWindows(init);
    assert h + EncodeWindows(ws) == p + EncodeWindow(last);
    if k < |init| {
      WindowAtAppend(p, EncodeWindow(last), |h| + 9 * k);
      WindowsEncoded(h, init, k);
      assert init[k] == ws[k];
    } else {
      WindowAtEncoded(p, last);
    }
  }

  /** An encoded window list parses back: the count, and the windows in order ahead of the stale entries. */
  lemma ParseEncodedWds(ws: seq<Window>, r: WdsRec)
    requires |ws| <= TABLE_SIZE && |r.windows| == TABLE_SIZE
    ensures var n := |ws|;
      ParseWds(EncodeWds(ws), r) == Parsed(true, WdsRec(n, ws + r.windows[n..]))
  {
    var n := |ws|;
    var s := EncodeWds(ws);
    assert s[0] == n;
    forall k | 0 <= k < n
      ensures WindowAt(s, 1 + 9 * k) == ws[k]
    {
      WindowsEncoded([n], ws, k);
    }
    assert Windows(s, n, r.windows) == ws + r.windows[n..];
  }

  // ---------------------------------------------------------------------
  // ODS
  // ---------------------------------------------------------------------

  /** Whether an object fragment is the first of its object (and so carries the object header). */
  predicate IsFirstFragment(flag: byte)
  {
    HasFlag(flag, ODS_FIRST)
  }

  /**
    `parse_sup_segment_ods`. Every field is reset first; the id, version and
    flag are read from the first 4 bytes; a first fragment then carries the
    24-bit object data length, the width and the height. Whatever follows
    is the fragment's data. A fragment too short for its header fails with
    the fields read so far.
   */
  function ParseOds(seg: seq<byte>): (p: Parsed<OdsRec>)
    ensures p.ok <==> 4 <= |seg| && |seg| >= (if IsFirstFragment(seg[3]) then 11 else 5)
    ensures p.ok ==> p.rec.rawOffset == (if IsFirstFragment(p.rec.objFlag) then 11 else 4)
    ensures p.ok ==> p.rec.rawOffset + p.rec.rawDataLen == |seg|
    ensures p.rec.objDataLen < U24_LIMIT
  {
    if |seg| < 4 then Parsed(false, INIT_ODS)
    else
      var head := INIT_ODS.(objId := Be16(seg, 0), objVersion := seg[2], objFlag := seg[3]);
      if IsFirstFragment(seg[3]) then
        if |seg| < 11 then Parsed(false, head)
        else Parsed(true, head.(objDataLen := Be24(seg, 4), objWidth := Be16(seg, 7), objHeight := Be16(seg, 9),
                                rawOffset := 11, rawDataLen := |seg| - 11))
      else
        if |seg| < 5 then Parsed(false, head)
        else Parsed(true, head.(rawOffset := 4, rawDataLen := |seg| - 4))
  }

  /**
    One object fragment as it is sent. `dataLen`, `width` and `height` are
    only sent in a first fragment.
   */
  datatype Fragment = Fragment(objId: u16, version: byte, flag: byte, dataLen: nat, width: u16, height: u16,
                               data: seq<byte>)

  /** A fragment the segment layout can carry: a 24-bit length, and some data after a continuation header. */
  predicate Encodable(f: Fragment)
  {
    f.dataLen < U24_LIMIT && (IsFirstFragment(f.flag) || |f.data| >= 1)
  }

  /** The payload of an object segment. */
  function EncodeOds(f: Fragment): (r: seq<byte>)
    requires Encodable(f)
    ensures |r| == (if IsFirstFragment(f.flag) then 11 else 4) + |f.data|
  {
    EncodeBe16(f.objId) + [f.version, f.flag]
      + (if IsFirstFragment(f.flag) then EncodeBe24(f.dataLen) + EncodeBe16(f.width) + EncodeBe16(f.height) else [])
      + f.data
  }

  /**
    An encoded fragment parses back: its id, version and flag; for a first
    fragment its length and size, for a continuation the reset values; and
    the data span that the record points at is exactly the fragment's data.
   */
  lemma ParseEncodedOds(f: Fragment)
    requires Encodable(f)
    ensures var s := EncodeOds(f);
      var p := ParseOds(s);
      p.ok && p.rec.objId == f.objId && p.rec.objVersion == f.version && p.rec.objFlag == f.flag
      && (if IsFirstFragment(f.flag) then
            p.rec.objDataLen == f.dataLen && p.rec.objWidth == f.width && p.rec.objHeight == f.height
          else
            p.rec.objDataLen == 0 && p.rec.objWidth == 0 && p.rec.objHeight == 0)
      && p.rec.rawDataLen == |f.data|
      && s[p.rec.rawOffset..] == f.data
  {
    var s := EncodeOds(f);
    var id := EncodeBe16(f.objId);
    assert Be16(s, 0) == Be16(id, 0);
    assert s[2] == f.version && s[3] == f.flag;
    if IsFirstFragment(f.flag) {
      var h := id + [f.version, f.flag] + EncodeBe24(f.dataLen) + EncodeBe16(f.width) + EncodeBe16(f.height);
      assert s == h + f.data;
      assert Be24(s, 4) == Be24(EncodeBe24(f.dataLen), 0);
      assert Be16(s, 7) == Be16(EncodeBe16(f.width), 0);
      assert Be16(s, 9) == Be16(EncodeBe16(f.height), 0);
      assert s[11..] == f.data;
    } else {
      assert s == id + [f.version, f.flag] + f.data;
      assert s[4..] == f.data;
    }
  }

  // ---------------------------------------------------------------------
  // The segment records as the program keeps them: structs filled in place
  // ---------------------------------------------------------------------

  /** `struct sup_segment_pcs`, with its calloc'ed 255-entry objects table. */
  class Pcs {
    var ptsMsec: u32
    var videoWidth: u16
    var videoHeight: u16
    var frameRate: byte
    var compId: u16
    var compState: byte
    var paletteFlag: byte
    var paletteId: byte
    var numOfObjects: byte
    const objects: array<SupObject>

    predicate Valid()
      reads this
    {
      objects.Length == TABLE_SIZE
    }

    function Rec(): PcsRec
      reads this, objects
    {
      PcsRec(ptsMsec, videoWidth, videoHeight, frameRate, compId, compState, paletteFlag, paletteId,
             numOfObjects, objects[..])
    }

    /** A calloc'ed struct after `init_sup_segment_pcs`: zero, except for the two "unknown" markers. */
    constructor ()
      ensures Valid() && fresh(objects)
      ensures Rec() == InitPcs(PcsRec(0, 0, 0, 0, 0, 0, 0, 0, 0, seq(TABLE_SIZE, _ => EMPTY_OBJECT)))
    {
      ptsMsec, videoWidth, videoHeight, compId, paletteFlag, paletteId, numOfObjects := 0, 0, 0, 0, 0, 0, 0;
      frameRate, compState := FPS_UNKNOWN, STATE_UNKNOWN;
      objects := new SupObject[TABLE_SIZE](_ => EMPTY_OBJECT);
    }

    /** `init_sup_segment_pcs` on an allocated struct. */
    method Init()
      modifies this
      ensures Rec() == InitPcs(old(Rec()))
    {
      videoWidth := 0;
      videoHeight := 0;
      frameRate := FPS_UNKNOWN;
      compId := 0;
      compState := STATE_UNKNOWN;
      paletteFlag := 0;
      paletteId := 0;
      numOfObjects := 0;
    }

    /** `parse_sup_segment_pcs`: ends in the record `ParsePcs` describes. */
    method Parse(packet: Packet) returns (ok: bool)
      requires Valid() && packet.segmentLen <= packet.segment.Length
      modifies this, objects
      ensures Valid() && Parsed(ok, Rec()) == ParsePcs(packet.Payload(), packet.pts, old(Rec()))
    {
      Init();
      var seg := packet.Payload();
      if |seg| < 11 {
        return false;
      }
      ptsMsec := PtsToMs(packet.pts);
      videoWidth := Be16(seg, 0);
      videoHeight := Be16(seg, 2);
      frameRate := seg[4];
      compId := Be16(seg, 5);
      compState := seg[7];
      paletteFlag := seg[8];
      paletteId := seg[9];
      numOfObjects := seg[10];
      if |seg| != 11 + 8 * (numOfObjects as int) {
        return false;
      }
      ReadObjects(seg);
      return true;
    }

    /** The loop over the objects: entry `i` from offset `11 + 8 * i`, later entries untouched. */
    method ReadObjects(seg: seq<byte>)
      requires Valid() && |seg| == 11 + 8 * (numOfObjects as int)
      modifies objects
      ensures objects[..] == Objects(seg, numOfObjects, old(objects[..]))
    {
      var i, offset := 0, 11;
      while i < numOfObjects as int
        invariant i <= numOfObjects as int && offset == 11 + 8 * i
        invariant forall k :: 0 <= k < TABLE_SIZE ==> objects[k] == if k < i then ObjectAt(seg, 11 + 8 * k) else old(objects[k])
      {
        var objId := Be16(seg, offset);
        var winId, objFlag := seg[offset + 2], seg[offset + 3];
        var posX, posY := Be16(seg, offset + 4), Be16(seg, offset + 6);
        objects[i] := SupObject(objId, winId, objFlag, posX, posY);
        i, offset := i + 1, offset + 8;
      }
    }
  }

  /** `struct sup_segment_pds`, with its calloc'ed 255-entry colors table. */
  class Pds {
    var paletteId: u16
    var numOfColors: byte
    const colors: array<Color>

    predicate Valid()
      reads this
    {
      colors.Length == TABLE_SIZE
    }

    function Rec(): PdsRec
      reads this, colors
    {
      PdsRec(paletteId, numOfColors, colors[..])
    }

    constructor ()
      ensures Valid() && fresh(colors)
      ensures Rec() == PdsRec(0, 0, seq(TABLE_SIZE, _ => EMPTY_COLOR))
    {
      paletteId, numOfColors := 0, 0;
      colors := new Color[TABLE_SIZE](_ => EMPTY_COLOR);
    }

    /** `init_sup_segment_pds` on an allocated struct. */
    method Init()
      modifies this
      ensures Rec() == InitPds(old(Rec()))
    {
      paletteId := 0;
      numOfColors := 0;
    }

    /** `parse_sup_segment_pds`: ends in the record `ParsePds` describes. */
    method Parse(packet: Packet) returns (ok: bool)
      requires Valid() && packet.segmentLen <= packet.segment.Length
      modifies this, colors
      ensures Valid() && Parsed(ok, Rec()) == ParsePds(packet.Payload(), old(Rec()))
    {
      Init();
      var seg := packet.Payload();
      if |seg| < 2 {
        return false;
      }
      paletteId := Be16(seg, 0);
      numOfColors := ((|seg| - 2) / 5) % 0x100;
      ReadColors(seg);
      return true;
    }

    /** The loop over the entries: entry `i` from offset `2 + 5 * i`, later entries untouched. */
    method ReadColors(seg: seq<byte>)
      requires Valid() && 2 + 5 * (numOfColors as int) <= |seg|
      modifies colors
      ensures colors[..] == Colors(seg, numOfColors, old(colors[..]))
    {
      var i, offset := 0, 2;
      while i < numOfColors as int
        invariant i <= numOfColors as int && offset == 2 + 5 * i
        invariant forall k :: 0 <= k < TABLE_SIZE ==> colors[k] == if k < i then ColorAt(seg, 2 + 5 * k) else old(colors[k])
      {
        var idx, y, cr, cb, a := seg[offset], seg[offset + 1], seg[offset + 2], seg[offset + 3], seg[offset + 4];
        colors[i] := Color(idx, y, cr, cb, a, Gray(y, a));
        i, offset := i + 1, offset + 5;
      }
    }
  }

  /** `struct sup_segment_wds`, with its calloc'ed 255-entry windows table. */
  class Wds {
    var numOfWindows: byte
    const windows: array<Window>

    predicate Valid()
      reads this
    {
      windows.Length == TABLE_SIZE
    }

    function Rec(): WdsRec
      reads this, windows
    {
      WdsRec(numOfWindows, windows[..])
    }

    constructor ()
      ensures Valid() && fresh(windows)
      ensures Rec() == WdsRec(0, seq(TABLE_SIZE, _ => EMPTY_WINDOW))
    {
      numOfWindows := 0;
      windows := new Window[TABLE_SIZE](_ => EMPTY_WINDOW);
    }

    /** `init_sup_segment_wds` on an allocated struct. */
    method Init()
      modifies this
      ensures Rec() == InitWds(old(Rec()))
    {
      numOfWindows := 0;
    }

    /** `parse_sup_segment_wds`: ends in the record `ParseWds` describes. */
    method Parse(packet: Packet) returns (ok: bool)
      requires Valid() && packet.segmentLen <= packet.segment.Length
      modifies this, windows
      ensures Valid() && Parsed(ok, Rec()) == ParseWds(packet.Payload(), old(Rec()))
    {
      Init();
      var seg := packet.Payload();
      if |seg| < 1 {
        return false;
      }
      numOfWindows := seg[0];
      if |seg| != 1 + 9 * (numOfWindows as int) {
        return false;
      }
      ReadWindows(seg);
      return true;
    }

    /** The loop over the windows: entry `i` from offset `1 + 9 * i`, later entries untouched. */
    method ReadWindows(seg: seq<byte>)
      requires Valid() && |seg| == 1 + 9 * (numOfWindows as int)
      modifies windows
      ensures windows[..] == Windows(seg, numOfWindows, old(windows[..]))
    {
      var i, offset := 0, 1;
      while i < numOfWindows as int
        invariant i <= numOfWindows as int && offset == 1 + 9 * i
        invariant forall k :: 0 <= k < TABLE_SIZE ==> windows[k] == if k < i then WindowAt(seg, 1 + 9 * k) else old(windows[k])
      {
        var winId := seg[offset];
        var x, y := Be16(seg, offset + 1), Be16(seg, offset + 3);
        var width, height := Be16(seg, offset + 5), Be16(seg, offset + 7);
        windows[i] := Window(winId, x, y, width, height);
        i, offset := i + 1, offset + 9;
      }
    }
  }

  /** `struct sup_segment_ods`; `rawOffset` locates `raw_data` in the packet's buffer. */
  class Ods {
    var objId: u16
    var objVersion: byte
    var objFlag: byte
    var objDataLen: nat
    var objWidth: u16
    var objHeight: u16
    var rawOffset: nat
    var rawDataLen: nat

    function Rec(): OdsRec
      reads this
    {
      OdsRec(objId, objVersion, objFlag, objDataLen, objWidth, objHeight, rawOffset, rawDataLen)
    }

    constructor ()
      ensures Rec() == INIT_ODS
    {
      objId, objVersion, objFlag, objDataLen, objWidth, objHeight, rawOffset, rawDataLen := 0, 0, 0, 0, 0, 0, 0, 0;
    }

    /** `init_sup_segment_ods`. */
    method Init()
      modifies this
      ensures Rec() == INIT_ODS
    {
      objId := 0;
      objVersion := 0;
      objFlag := 0;
      objDataLen := 0;
      objWidth := 0;
      objHeight := 0;
      rawOffset := 0;
      rawDataLen := 0;
    }

    /** `parse_sup_segment_ods`: ends in the record `ParseOds` describes. */
    method Parse(packet: Packet) returns (ok: bool)
      requires packet.segmentLen <= packet.segment.Length
      modifies this
      ensures Parsed(ok, Rec()) == ParseOds(packet.Payload())
    {
      Init();
      var seg := packet.Payload();
      if |seg| < 4 {
        return false;
      }
      objId := Be16(seg, 0);
      objVersion := seg[2];
      objFlag := seg[3];
      var offset := 4;
      if IsFirstFragment(objFlag) {
        if |seg| < 11 {
          return false;
        }
        objDataLen := Be24(seg, 4);
        objWidth := Be16(seg, 7);
        objHeight := Be16(seg, 9);
        offset := 11;
      } else if |seg| < 5 {
        return false;
      }
      rawOffset := offset;
      rawDataLen := |seg| - offset;
      return true;
    }
  }
}

