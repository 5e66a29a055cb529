/**
  `render_sup_image`: the object's position is found through the
  composition and its window, the window rectangle of the canvas is
  cleared, and the object's run-length code is expanded into the canvas
  through a write cursor.

  Where the source has undefined behaviour (writing a run past the end of
  the canvas, indexing the 255-entry palette with 255, clearing a window
  that does not fit the canvas), the model stops with the distinguished
  outcome `Undefined`. It stops the same way when a code needs operand
  bytes past the end of the gathered code. The source then reads whatever
  the code buffer holds there, which is undefined only at or past the
  buffer's capacity; the model does not keep that stale tail.
 */
module Render {
  import opened Wrappers
  import opened Bytes
  import opened Arith
  import opened Sup
  import opened Pgm

  // ---------------------------------------------------------------------
  // The run-length code
  // ---------------------------------------------------------------------

  /**
    One unit of the code. A non-zero byte is one pixel of that palette
    entry; `00` escapes the forms below, told apart by the top two bits of
    the second byte.
   */
  datatype Code =
    | NewLine                       // 00 00
    | ShortZeros(n: nat)            // 00 0x: x zeros, 1 <= x < 64
    | LongZeros(n: nat)             // 00 4x yy: (x << 8) + yy zeros
    | ShortRun(n: nat, color: byte) // 00 8x cc: x pixels of entry cc
    | LongRun(n: nat, color: byte)  // 00 Cx yy cc: (x << 8) + yy pixels of entry cc
    | Pixel(color: byte)            // cc: one pixel of entry cc, cc != 0

  /** The codes that have an encoding: each count fits its field. */
  predicate WellFormed(c: Code)
  {
    match c
    case NewLine => true
    case ShortZeros(n) => 1 <= n < 0x40
    case LongZeros(n) => n < 0x4000
    case ShortRun(n, _) => n < 0x40
    case LongRun(n, _) => n < 0x4000
    case Pixel(color) => color != 0
  }

  function EncodeCode(c: Code): (r: seq<byte>)
    requires WellFormed(c)
    ensures 1 <= |r| <= 4
  {
    match c
    case NewLine => [0, 0]
    case ShortZeros(n) => [0, n]
    case LongZeros(n) => [0, 0x40 + n / 0x100, n % 0x100]
    case ShortRun(n, color) => [0, 0x80 + n, color]
    case LongRun(n, color) => [0, 0xC0 + n / 0x100, n % 0x100, color]
    case Pixel(color) => [color]
  }

  /** A code and the offset of the byte after it. */
  datatype Token = Token(code: Code, next: nat)

  /**
    The bytes one iteration of the decode loop reads from offset `i`.
    `None` when the form needs operand bytes past the end of the code.
   */
  function ParseCode(src: seq<byte>, i: nat): (r: Option<Token>)
    requires i < |src|
    ensures r.Some? ==> WellFormed(r.value.code) && i < r.value.next <= |src|
    ensures r.Some? ==> src[i..r.value.next] == EncodeCode(r.value.code)
    ensures r.None? ==> src[i] == 0 && |src| < i + 4
  {
    var b := src[i];
    if b != 0 then Some(Token(Pixel(b), i + 1))
    else if i + 1 == |src| then None
    else
      var x := src[i + 1];
      TopBits(x);
      if x == 0 then Some(Token(NewLine, i + 2))
      else if (x as bv8) & 0xC0 == 0x40 then
        if i + 2 == |src| then None
        else (LongCount(x - 0x40, src[i + 2]);
              Some(Token(LongZeros((x as int - 0x40) * 0x100 + src[i + 2]), i + 3)))
      else if (x as bv8) & 0xC0 == 0x80 then
        if i + 2 == |src| then None
        else Some(Token(ShortRun(x - 0x80, src[i + 2]), i + 3))
      else if (x as bv8) & 0xC0 != 0 then
        if i + 3 >= |src| then None
        else (LongCount(x - 0xC0, src[i + 2]);
              Some(Token(LongRun((x as int - 0xC0) * 0x100 + src[i + 2], src[i + 3]), i + 4)))
      else Some(Token(ShortZeros(x), i + 2))
  }

  /** A 14-bit count split into its high 6 bits and low byte. */
  lemma LongCount(hi: nat, lo: byte)
    requires hi < 0x40
    ensures (hi * 0x100 + lo) / 0x100 == hi && (hi * 0x100 + lo) % 0x100 == lo
    ensures hi * 0x100 + lo < 0x4000
  {
    DivUnique(hi * 0x100 + lo, 0x100, hi, lo);
  }

  /** Every encoded code, whatever precedes and follows it, parses back as itself. */
  lemma ParseCodeEncoded(pre: seq<byte>, c: Code, rest: seq<byte>)
    requires WellFormed(c)
    ensures ParseCode(pre + EncodeCode(c) + rest, |pre|) == Some(Token(c, |pre| + |EncodeCode(c)|))
  {
    var e := EncodeCode(c);
    var s := pre + e + rest;
    assert forall d :: 0 <= d < |e| ==> s[|pre| + d] == e[d];
    match c
    case LongZeros(n) => ParseLongEncoded(s, |pre|, c, 0x40, n, e);
    case LongRun(n, _) => ParseLongEncoded(s, |pre|, c, 0xC0, n, e);
    case ShortRun(n, _) => TopBits(0x80 + n);
    case ShortZeros(n) => TopBits(n);
    case _ =>
  }

  /** The two forms with a 14-bit count, `00 4x yy` and `00 Cx yy cc`. */
  lemma ParseLongEncoded(s: seq<byte>, i: nat, c: Code, tag: nat, n: nat, e: seq<byte>)
    requires c.LongZeros? || c.LongRun?
    requires WellFormed(c) && e == EncodeCode(c) && n == c.n && tag == if c.LongZeros? then 0x40 else 0xC0
    requires i + |e| <= |s| && forall d :: 0 <= d < |e| ==> s[i + d] == e[d]
    ensures ParseCode(s, i) == Some(Token(c, i + |e|))
  {
    assert e[0] == 0 && e[1] == tag + n / 0x100 && e[2] == n % 0x100;
    assert s[i] == 0 && s[i + 1] == tag + n / 0x100 && s[i + 2] == n % 0x100;
    TopBits(tag + n / 0x100);
    LongCount(n / 0x100, n % 0x100);
    assert (n / 0x100) * 0x100 + n % 0x100 == n;
    if c.LongRun? {
      assert e[3] == c.color;
      assert s[i + 3] == c.color;
    }
  }

  function EncodeCodes(codes: seq<Code>): (r: seq<byte>)
    requires forall k :: 0 <= k < |codes| ==> WellFormed(codes[k])
  {
    if codes == [] then [] else EncodeCode(codes[0]) + EncodeCodes(codes[1..])
  }

  // ---------------------------------------------------------------------
  // What a code does to the canvas
  // ---------------------------------------------------------------------

  /**
    The decoder's state: `pos` is `dest_idx`, `row` is `obj_pos_y`, and
    `dest` the canvas.
   */
  datatype State = State(pos: nat, row: nat, dest: seq<byte>)

  /** What the decoder holds fixed: `video_width`, `obj_pos_x` and the palette. */
  datatype Layout = Layout(width: nat, objX: nat, colors: seq<Color>)

  /** The cursor has not moved before the start of its row: `dest_idx >= obj_pos_y * video_width + obj_pos_x`. */
  predicate Anchored(st: State, l: Layout)
  {
    st.pos >= st.row * l.width + l.objX
  }

  /** `n` writes of `v` through the cursor; a run past the canvas is `None`. */
  function Write(st: State, n: nat, v: byte): (r: Option<State>)
    ensures r.Some? <==> st.pos + n <= |st.dest|
  {
    if st.pos + n > |st.dest| then None
    else Some(State(st.pos + n, st.row, Fill(st.dest, st.pos, n, v)))
  }

  /** `n` pixels of palette entry `color`, read by position in the table; entry 255 is past the table. */
  function Paint(st: State, n: nat, color: byte, l: Layout): (r: Option<State>)
  {
    if color as int >= |l.colors| then None else Write(st, n, l.colors[color].gray)
  }

  /**
    The effect of one code. A new line moves the cursor to the object's
    column on the next row, wherever the cursor was.
   */
  function Apply(c: Code, st: State, l: Layout): (r: Option<State>)
    ensures r.Some? ==> |r.value.dest| == |st.dest| && r.value.row >= st.row
  {
    match c
    case NewLine => Some(State((st.row + 1) * l.width + l.objX, st.row + 1, st.dest))
    case ShortZeros(n) => Write(st, n, 0)
    case LongZeros(n) => Write(st, n, 0)
    case ShortRun(n, color) => Paint(st, n, color, l)
    case LongRun(n, color) => Paint(st, n, color, l)
    case Pixel(color) => Paint(st, 1, color, l)
  }

  /** The canvas at the end of decoding, or `Undefined`; `NotFound` is the renderer's lookup failure. */
  datatype Outcome = Drawn(dest: seq<byte>) | NotFound | Undefined

  /** Reference semantics: the codes applied in order until the cursor leaves the canvas. */
  function Execute(codes: seq<Code>, st: State, l: Layout): (r: Outcome)
    ensures !r.NotFound?
    ensures r.Drawn? ==> |r.dest| == |st.dest|
  {
    if codes == [] || st.pos >= |st.dest| then Drawn(st.dest)
    else match Apply(codes[0], st, l)
      case None => Undefined
      case Some(next) => Execute(codes[1..], next, l)
  }

  /** One iteration of the decode loop: the code at `i`, then its effect. */
  datatype Step = Step(next: nat, st: State)

  function DecodeStep(src: seq<byte>, i: nat, st: State, l: Layout): (r: Option<Step>)
    requires i < |src|
    ensures r.Some? ==> i < r.value.next <= |src| && |r.value.st.dest| == |st.dest|
  {
    match ParseCode(src, i)
    case None => None
    case Some(t) =>
      match Apply(t.code, st, l)
      case None => None
      case Some(next) => Some(Step(t.next, next))
  }

  /**
    The decode loop from source offset `i`: it runs while there are code
    bytes and the cursor is inside the canvas. Each iteration consumes at
    least one byte, so it terminates.
   */
  function Decode(src: seq<byte>, i: nat, st: State, l: Layout): (r: Outcome)
    requires i <= |src|
    ensures !r.NotFound?
    ensures r.Drawn? ==> |r.dest| == |st.dest|
    decreases |src| - i
  {
    if i == |src| || st.pos >= |st.dest| then Drawn(st.dest)
    else match DecodeStep(src, i, st, l)
      case None => Undefined
      case Some(s) => Decode(src, s.next, s.st, l)
  }

  /** Decoding an encoded code list is executing it. */
  lemma {:induction false} DecodeEncoded(pre: seq<byte>, codes: seq<Code>, st: State, l: Layout)
    requires forall k :: 0 <= k < |codes| ==> WellFormed(codes[k])
    ensures Decode(pre + EncodeCodes(codes), |pre|, st, l) == Execute(codes, st, l)
    decreases |codes|
  {
    var src := pre + EncodeCodes(codes);
    if codes != [] {
      var e := EncodeCode(codes[0]);
      var rest := EncodeCodes(codes[1..]);
      assert src == pre + e + rest;
      ParseCodeEncoded(pre, codes[0], rest);
      if st.pos < |st.dest| {
        match Apply(codes[0], st, l)
        case None =>
        case Some(next) =>
          assert src == (pre + e) + rest;
          DecodeEncoded(pre + e, codes[1..], next, l);
      }
    }
  }

  /** The `00 00` rule: the cursor goes to the object's column on the next row. */
  lemma NewLineRule(src: seq<byte>, i: nat, st: State, l: Layout)
    requires i + 2 <= |src| && src[i] == 0 && src[i + 1] == 0 && st.pos < |st.dest|
    ensures Decode(src, i, st, l)
      == Decode(src, i + 2, State((st.row + 1) * l.width + l.objX, st.row + 1, st.dest), l)
  {
  }

  /** A code only writes at or after the cursor, and keeps the cursor anchored. */
  lemma ApplyFrame(c: Code, st: State, l: Layout)
    requires Anchored(st, l)
    ensures var r := Apply(c, st, l);
      r.Some? ==> (Anchored(r.value, l)
                   && forall k :: 0 <= k < |st.dest| && k < st.pos ==> r.value.dest[k] == st.dest[k])
  {
    if c.NewLine? {
      MulLe(st.row, st.row + 1, l.width);
    }
  }

  /**
    Decoding never writes before the start of the cursor's row: the
    object's first pixel is a lower bound on every index written.
   */
  lemma {:induction false} DecodeKeepsBefore(src: seq<byte>, i: nat, st: State, l: Layout, k: nat)
    requires i <= |src| && Anchored(st, l)
    requires k < |st.dest| && k < st.row * l.width + l.objX
    ensures var r := Decode(src, i, st, l);
      r.Drawn? ==> r.dest[k] == st.dest[k]
    decreases |src| - i
  {
    if i < |src| && st.pos < |st.dest| {
      match ParseCode(src, i)
      case None =>
      case Some(t) =>
        ApplyFrame(t.code, st, l);
        match Apply(t.code, st, l)
        case None =>
        case Some(next) =>
          MulLe(st.row, next.row, l.width);
          DecodeKeepsBefore(src, t.next, next, l, k);
    }
  }

  /** Every pixel the decoder writes is 0 or the gray level of some palette entry. */
  lemma {:induction false} DecodeValues(src: seq<byte>, i: nat, st: State, l: Layout, k: nat)
    requires i <= |src| && k < |st.dest|
    ensures var r := Decode(src, i, st, l);
      r.Drawn? ==> (r.dest[k] == st.dest[k] || r.dest[k] == 0
                    || exists j :: 0 <= j < |l.colors| && r.dest[k] == l.colors[j].gray)
    decreases |src| - i
  {
    if i < |src| && st.pos < |st.dest| {
      match DecodeStep(src, i, st, l)
      case None =>
      case Some(s) =>
        DecodeValues(src, s.next, s.st, l, k);
    }
  }

  // ---------------------------------------------------------------------
  // Finding the object and its window
  // ---------------------------------------------------------------------

  /** The index of the first of the first `num` ids equal to `id`, searching from `from`. */
  function FirstIndex(ids: seq<nat>, num: nat, id: nat, from: nat): (r: Option<nat>)
    requires num <= |ids| && from <= num
    ensures r.Some? ==> from <= r.value < num && ids[r.value] == id
    ensures r.Some? ==> forall k :: from <= k < r.value ==> ids[k] != id
    ensures r.None? ==> forall k :: from <= k < num ==> ids[k] != id
    decreases num - from
  {
    if from == num then None
    else if ids[from] == id then Some(from)
    else FirstIndex(ids, num, id, from + 1)
  }

  /** The first index with the id is the one before which no index has it. */
  lemma FirstIndexIs(ids: seq<nat>, num: nat, id: nat, j: nat)
    requires num <= |ids| && j < num && ids[j] == id
    requires forall k :: 0 <= k < j ==> ids[k] != id
    ensures FirstIndex(ids, num, id, 0) == Some(j)
  {
  }

  /** The ids of the composition objects, in table order. */
  function ObjectIds(objects: seq<SupObject>): seq<nat>
  {
    seq(|objects|, k requires 0 <= k < |objects| => objects[k].objId as nat)
  }

  /** The ids of the windows, in table order. */
  function WindowIds(windows: seq<Window>): seq<nat>
  {
    seq(|windows|, k requires 0 <= k < |windows| => windows[k].winId as nat)
  }

  /** The object position and window rectangle the lookup leaves, 0 where nothing matched. */
  datatype Geometry = Geometry(objX: nat, objY: nat, winX: nat, winY: nat, winWidth: nat, winHeight: nat)

  const NO_GEOMETRY := Geometry(0, 0, 0, 0, 0, 0)

  /**
    The lookup of `render_sup_image`: the first composition object with the
    fragment's id gives the position; the first window with that object's
    window id gives the rectangle.
   */
  function Placement(pcs: PcsRec, wds: WdsRec, objId: nat): Geometry
    requires |pcs.objects| == TABLE_SIZE && |wds.windows| == TABLE_SIZE
  {
    match FirstIndex(ObjectIds(pcs.objects), pcs.numOfObjects, objId, 0)
    case None => NO_GEOMETRY
    case Some(i) =>
      var o := pcs.objects[i];
      match FirstIndex(WindowIds(wds.windows), wds.numOfWindows, o.winId as nat, 0)
      case None => NO_GEOMETRY.(objX := o.posX, objY := o.posY)
      case Some(j) =>
        var w := wds.windows[j];
        Geometry(o.posX, o.posY, w.x, w.y, w.width, w.height)
  }

  /** The check after the lookup: a non-empty window that does not start right of or below the object. */
  predicate Placed(g: Geometry)
  {
    g.winWidth != 0 && g.winHeight != 0 && g.objX >= g.winX && g.objY >= g.winY
  }

  /** Without a matching object, or without a window for it, the object is not placed. */
  lemma UnmatchedNotPlaced(pcs: PcsRec, wds: WdsRec, objId: nat)
    requires |pcs.objects| == TABLE_SIZE && |wds.windows| == TABLE_SIZE
    requires FirstIndex(ObjectIds(pcs.objects), pcs.numOfObjects, objId, 0).None?
      || FirstIndex(WindowIds(wds.windows), wds.numOfWindows,
                     pcs.objects[FirstIndex(ObjectIds(pcs.objects), pcs.numOfObjects, objId, 0).value].winId as nat, 0).None?
    ensures !Placed(Placement(pcs, wds, objId))
  {
  }

  // ---------------------------------------------------------------------
  // The whole renderer
  // ---------------------------------------------------------------------

  /** The layout the decoder runs with for a given lookup. */
  function LayoutOf(pcs: PcsRec, pds: PdsRec, g: Geometry): Layout
  {
    Layout(pcs.videoWidth, g.objX, pds.colors)
  }

  /** The cursor at the object's first pixel: `obj_pos_y * video_width + obj_pos_x`. */
  function Start(pcs: PcsRec, g: Geometry, dest: seq<byte>): State
  {
    State(g.objY * pcs.videoWidth + g.objX, g.objY, dest)
  }

  /** `render_sup_image` on canvas `dest` and code `src`. */
  function RenderImage(dest: seq<byte>, src: seq<byte>, pcs: PcsRec, wds: WdsRec, pds: PdsRec, ods: OdsRec): (r: Outcome)
    requires |pcs.objects| == TABLE_SIZE && |wds.windows| == TABLE_SIZE
    ensures r.NotFound? <==> !Placed(Placement(pcs, wds, ods.objId))
    ensures r.Drawn? ==> |r.dest| == |dest|
  {
    var g := Placement(pcs, wds, ods.objId);
    if !Placed(g) then NotFound
    else if !RegionFits(|dest|, pcs.videoWidth, g.winWidth, g.winHeight, g.winX, g.winY) then Undefined
    else
      var cleared := ClearedRegion(dest, pcs.videoWidth, g.winWidth, g.winHeight, g.winX, g.winY);
      Decode(src, 0, Start(pcs, g, cleared), LayoutOf(pcs, pds, g))
  }

  /**
    Before the object's first pixel, a rendered canvas is the old canvas
    with the window rectangle set to 0: the decoder writes nothing there.
   */
  lemma RenderBeforeObject(dest: seq<byte>, src: seq<byte>, pcs: PcsRec, wds: WdsRec, pds: PdsRec, ods: OdsRec, k: nat)
    requires |pcs.objects| == TABLE_SIZE && |wds.windows| == TABLE_SIZE
    requires var g := Placement(pcs, wds, ods.objId); k < |dest| && k < g.objY * pcs.videoWidth + g.objX
    ensures var r := RenderImage(dest, src, pcs, wds, pds, ods);
      var g := Placement(pcs, wds, ods.objId);
      r.Drawn? ==>
        r.dest[k] == if InRegion(k, pcs.videoWidth, g.winWidth, g.winHeight, g.winX, g.winY) then 0 else dest[k]
  {
    var g := Placement(pcs, wds, ods.objId);
    if Placed(g) && RegionFits(|dest|, pcs.videoWidth, g.winWidth, g.winHeight, g.winX, g.winY) {
      var cleared := ClearedRegion(dest, pcs.videoWidth, g.winWidth, g.winHeight, g.winX, g.winY);
      ClearedRegionAt(dest, pcs.videoWidth, g.winWidth, g.winHeight, g.winX, g.winY, k);
      DecodeKeepsBefore(src, 0, Start(pcs, g, cleared), LayoutOf(pcs, pds, g), k);
    }
  }

  // ---------------------------------------------------------------------
  // The renderer as the program runs it
  // ---------------------------------------------------------------------

  /** What `render_sup_image` reports: 0, -1, or that the source's behaviour is undefined. */
  datatype Status = Rendered | Failed | Fault

  function StatusOf(r: Outcome): Status
  {
    match r
    case Drawn(_) => Rendered
    case NotFound => Failed
    case Undefined => Fault
  }

  /** The lookup loops, with their `break`s. */
  method FindPlacement(pcs: Pcs, wds: Wds, objId: u16) returns (g: Geometry)
    requires pcs.Valid() && wds.Valid()
    ensures g == Placement(pcs.Rec(), wds.Rec(), objId)
  {
    g := NO_GEOMETRY;
    var i := 0;
    while i < pcs.numOfObjects as int
      invariant i <= pcs.numOfObjects as int
      invariant forall k :: 0 <= k < i ==> pcs.objects[k].objId != objId
    {
      var o := pcs.objects[i];
      if o.objId == objId {
        g := g.(objX := o.posX, objY := o.posY);
        var j := 0;
        while j < wds.numOfWindows as int
          invariant j <= wds.numOfWindows as int
          invariant forall k :: 0 <= k < j ==> wds.windows[k].winId != o.winId
        {
          var w := wds.windows[j];
          if w.winId == o.winId {
            g := g.(winX := w.x, winY := w.y, winWidth := w.width, winHeight := w.height);
            var ids := WindowIds(wds.windows[..]);
            assert forall k :: 0 <= k < j ==> ids[k] != o.winId as nat;
            FirstIndexIs(ids, wds.numOfWindows as nat, o.winId as nat, j);
            break;
          }
          j := j + 1;
        }
        var ids := ObjectIds(pcs.objects[..]);
        assert forall k :: 0 <= k < i ==> ids[k] != objId as nat;
        FirstIndexIs(ids, pcs.numOfObjects as nat, objId as nat, i);
        return;
      }
      i := i + 1;
    }
  }

  /** `for (i = 0; i < n; i++) dest[dest_idx++] = v;` */
  method WriteRun(dest: array<byte>, start: nat, n: nat, v: byte)
    requires start + n <= dest.Length
    modifies dest
    ensures dest[..] == Fill(old(dest[..]), start, n, v)
  {
    for i := 0 to n
      invariant dest[..] == Fill(old(dest[..]), start, i, v)
    {
      FillStep(old(dest[..]), start, i, v);
      dest[start + i] := v;
    }
  }

  /**
    The bytes of one iteration of the decode loop, read from `srcIdx` as
    the source reads them; `false` where it would read past the code.
   */
  method ReadCode(src: seq<byte>, srcIdx: nat) returns (ok: bool, code: Code, next: nat)
    requires srcIdx < |src|
    ensures var t := ParseCode(src, srcIdx);
      (ok <==> t.Some?) && (ok ==> t.value == Token(code, next))
  {
    var i := srcIdx;
    var b := src[i];
    i := i + 1;
    if b != 0 {
      return true, Pixel(b), i;
    }
    if i == |src| {
      return false, NewLine, 0;
    }
    b := src[i];
    i := i + 1;
    if b == 0 {
      return true, NewLine, i;
    }
    TopBits(b);
    if (b as bv8) & 0xC0 == 0x40 {
      if i == |src| {
        return false, NewLine, 0;
      }
      var n := (b as int - 0x40) * 0x100 + src[i];
      return true, LongZeros(n), i + 1;
    } else if (b as bv8) & 0xC0 == 0x80 {
      if i == |src| {
        return false, NewLine, 0;
      }
      return true, ShortRun(b - 0x80, src[i]), i + 1;
    } else if (b as bv8) & 0xC0 != 0 {
      if i + 1 >= |src| {
        return false, NewLine, 0;
      }
      var n := (b as int - 0xC0) * 0x100 + src[i];
      return true, LongRun(n, src[i + 1]), i + 2;
    } else {
      return true, ShortZeros(b), i;
    }
  }

  /**
    The writes of one code through the cursor at `destIdx` on row `row`,
    as `Apply` says; `false`, writing nothing, where the source would
    index past the palette or write past the canvas.
   */
  method ApplyCode(dest: array<byte>, code: Code, destIdx: nat, row: nat, width: nat, objX: nat, colors: array<Color>)
    returns (ok: bool, destNext: nat, rowNext: nat)
    modifies dest
    ensures var r := Apply(code, State(destIdx, row, old(dest[..])), Layout(width, objX, colors[..]));
      (ok <==> r.Some?) && (ok ==> r.value == State(destNext, rowNext, dest[..]))
  {
    var n: nat, v: byte := 0, 0;
    match code {
      case NewLine =>
        return true, (row + 1) * width + objX, row + 1;
      case ShortZeros(count) =>
        n := count;
      case LongZeros(count) =>
        n := count;
      case ShortRun(count, color) =>
        if color as int >= colors.Length {
          return false, 0, 0;
        }
        n, v := count, colors[color].gray;
      case LongRun(count, color) =>
        if color as int >= colors.Length {
          return false, 0, 0;
        }
        n, v := count, colors[color].gray;
      case Pixel(color) =>
        if color as int >= colors.Length {
          return false, 0, 0;
        }
        n, v := 1, colors[color].gray;
    }
    if destIdx + n > dest.Length {
      return false, 0, 0;
    }
    WriteRun(dest, destIdx, n, v);
    return true, destIdx + n, row;
  }

  /** The decode loop of `render_sup_image`, run from the object's first pixel. */
  method DecodeInto(dest: array<byte>, src: seq<byte>, width: nat, objX: nat, objY: nat, colors: array<Color>)
    returns (defined: bool)
    modifies dest
    ensures var r := Decode(src, 0, State(objY * width + objX, objY, old(dest[..])), Layout(width, objX, colors[..]));
      (defined <==> r.Drawn?) && (defined ==> dest[..] == r.dest)
  {
    ghost var l := Layout(width, objX, colors[..]);
    var srcIdx: nat, destIdx: nat, row: nat := 0, objY * width + objX, objY;
    while srcIdx < |src| && destIdx < dest.Length
      invariant srcIdx <= |src|
      invariant Decode(src, srcIdx, State(destIdx, row, dest[..]), l)
        == Decode(src, 0, State(objY * width + objX, objY, old(dest[..])), l)
      decreases |src| - srcIdx
    {
      var read, code, next := ReadCode(src, srcIdx);
      if !read {
        return false;
      }
      var applied, pos, line := ApplyCode(dest, code, destIdx, row, width, objX, colors);
      if !applied {
        return false;
      }
      srcIdx, destIdx, row := next, pos, line;
    }
    return true;
  }

  /**
    `render_sup_image`: `Fault` where the source's behaviour is undefined;
    the canvas is left as it was when the object is not placed.
   */
  method RenderSupImage(dest: array<byte>, src: seq<byte>, pcs: Pcs, wds: Wds, pds: Pds, ods: Ods)
    returns (status: Status)
    requires pcs.Valid() && wds.Valid() && pds.Valid()
    modifies dest
    ensures var r := RenderImage(old(dest[..]), src, pcs.Rec(), wds.Rec(), pds.Rec(), ods.Rec());
      status == StatusOf(r) && (r.Drawn? ==> dest[..] == r.dest) && (r.NotFound? ==> dest[..] == old(dest[..]))
  {
    var g := FindPlacement(pcs, wds, ods.objId);
    if !Placed(g) {
      return Failed;
    }
    var width := pcs.videoWidth;
    if !RegionFits(dest.Length, width, g.winWidth, g.winHeight, g.winX, g.winY) {
      return Fault;
    }
    ClearRegion(dest, width, pcs.videoHeight, g.winWidth, g.winHeight, g.winX, g.winY);
    var defined := DecodeInto(dest, src, width, g.objX, g.objY, pds.colors);
    return if defined then Rendered else Fault;
  }
}
