/**
  The packet loop of `main` in `sup2pgm.c`, without its file I/O: one
  canvas, one buffer accumulating the code of object fragments, the start
  and end times of the next subtitle, and the four segment records, updated
  packet by packet.

  The canvas pointer is NULL until the first composition that starts an
  epoch with new dimensions; here that is `hasCanvas == false` with an
  empty canvas. The encoded-image pointer is NULL exactly while its
  capacity is 0. What `pgm_write` and the SRT lines would write for a saved
  subtitle is recorded as a `Subtitle` value.
 */
module Sup2Pgm {
  import opened Wrappers
  import opened Bytes
  import opened Sup
  import opened Pgm
  import opened Render

  /** A subtitle image as it is saved at the end of a display set, with its start and end times. */
  datatype Subtitle = Subtitle(start: u32, end: u32, width: nat, height: nat, pixels: seq<byte>)

  /**
    The variables of the loop. `halted` records that the source reached
    undefined behaviour, or that a code ran past the gathered code bytes;
    nothing changes after that.
   */
  datatype Machine = Machine(
    hasCanvas: bool, canvas: seq<byte>, canvasWidth: nat, canvasHeight: nat,
    encoded: seq<byte>, capacity: nat,
    srtStart: u32, srtEnd: u32,
    pcs: PcsRec, pds: PdsRec, wds: WdsRec, ods: OdsRec,
    saved: seq<Subtitle>, halted: bool)

  /** What holds between packets. */
  predicate Inv(m: Machine)
  {
    |m.canvas| == m.canvasWidth * m.canvasHeight
    && (!m.hasCanvas ==> m.canvasWidth == 0 && m.canvasHeight == 0)
    && |m.encoded| <= m.capacity && (m.capacity == 0 || MAX_SEGMENT_LEN <= m.capacity)
    && |m.pcs.objects| == TABLE_SIZE && |m.pds.colors| == TABLE_SIZE && |m.wds.windows| == TABLE_SIZE
    && m.srtEnd == 0
  }

  /** The variables right after the records are allocated and initialised, before the first packet. */
  function Initial(): (m: Machine)
    ensures Inv(m)
  {
    Machine(false, [], 0, 0, [], 0, 0, 0,
            InitPcs(PcsRec(0, 0, 0, 0, 0, 0, 0, 0, 0, seq(TABLE_SIZE, _ => EMPTY_OBJECT))),
            PdsRec(0, 0, seq(TABLE_SIZE, _ => EMPTY_COLOR)),
            WdsRec(0, seq(TABLE_SIZE, _ => EMPTY_WINDOW)),
            INIT_ODS, [], false)
  }

  function Zeros(n: nat): (r: seq<byte>)
    ensures |r| == n && forall k :: 0 <= k < n ==> r[k] == 0
  {
    seq(n, _ => 0)
  }

  /**
    An epoch starts: a canvas of the composition's size (reallocated when
    the size changed) is cleared, and the subtitle starts now.
   */
  function StartEpoch(m: Machine): (r: Machine)
    requires Inv(m)
    ensures Inv(r)
  {
    var w, h := m.pcs.videoWidth, m.pcs.videoHeight;
    var sized :=
      if m.canvasWidth != w || m.canvasHeight != h then
        m.(hasCanvas := true, canvasWidth := w, canvasHeight := h, canvas := Zeros(w * h))
      else m.(canvas := Zeros(|m.canvas|));
    sized.(srtStart := m.pcs.ptsMsec, srtEnd := 0)
  }

  /** A composition segment: parsed into the record; an epoch start or acquisition point starts an epoch. */
  function OnPcs(m: Machine, payload: seq<byte>, pts: u32): (r: Machine)
    requires Inv(m)
    ensures Inv(r) && r.saved == m.saved && r.halted == m.halted
  {
    var p := ParsePcs(payload, pts, m.pcs);
    var parsed := m.(pcs := p.rec);
    if p.ok && (p.rec.compState == STATE_EPOCH_START || p.rec.compState == STATE_ACQU_POINT) then StartEpoch(parsed)
    else parsed
  }

  /** The renderer on the current canvas and code; `Undefined` halts. */
  function RenderNow(m: Machine): (r: Machine)
    requires Inv(m)
    ensures Inv(r) && r == m.(canvas := r.canvas, halted := r.halted) && (m.halted ==> r.halted)
  {
    match RenderImage(m.canvas, m.encoded, m.pcs, m.wds, m.pds, m.ods)
    case Drawn(d) => m.(canvas := d)
    case NotFound => m
    case Undefined => m.(halted := true)
  }

  /**
    An object segment: parsed into the record; its data is appended to the
    code buffer, which a first fragment empties first and which grows when
    it is too small; a last fragment is rendered.
   */
  function OnOds(m: Machine, payload: seq<byte>): (r: Machine)
    requires Inv(m)
    ensures Inv(r) && r == m.(ods := r.ods, encoded := r.encoded, capacity := r.capacity,
                              canvas := r.canvas, halted := r.halted)
  {
    var p := ParseOds(payload);
    var a := AppendOds(m, payload);
    if p.ok && HasFlag(p.rec.objFlag, ODS_LAST) then RenderNow(a) else a
  }

  /** The object segment up to the rendering of a last fragment. */
  function AppendOds(m: Machine, payload: seq<byte>): (r: Machine)
    requires Inv(m)
    ensures Inv(r) && r == m.(ods := r.ods, encoded := r.encoded, capacity := r.capacity)
  {
    var p := ParseOds(payload);
    var parsed := m.(ods := p.rec);
    if !p.ok then parsed else AppendRaw(parsed, payload[p.rec.rawOffset..])
  }

  /** A fragment's data appended to the code, which restarts at a first fragment; the buffer grows to fit. */
  function AppendRaw(m: Machine, raw: seq<byte>): (r: Machine)
    requires Inv(m)
    ensures Inv(r) && r == m.(encoded := r.encoded, capacity := r.capacity)
  {
    var capacity := if m.capacity == 0 then MAX_SEGMENT_LEN else m.capacity;
    var kept := if IsFirstFragment(m.ods.objFlag) then [] else m.encoded;
    var grown := if |kept| + |raw| > capacity then |kept| + |raw| else capacity;
    m.(encoded := kept + raw, capacity := grown)
  }

  /**
    The windows the composition's objects use cleared, for every object and
    then every window whose id matches (a window is cleared once per object
    that uses it). `None` when a window does not fit the canvas.
   */
  function ClearObjects(canvas: seq<byte>, width: nat, objects: seq<SupObject>, numObjects: nat,
                        windows: seq<Window>, numWindows: nat): (r: Option<seq<byte>>)
    requires numObjects <= |objects| && numWindows <= |windows|
    ensures r.Some? ==> |r.value| == |canvas|
  {
    if numObjects == 0 then Some(canvas)
    else match ClearObjects(canvas, width, objects, numObjects - 1, windows, numWindows)
      case None => None
      case Some(c) => ClearWindowsOf(c, width, objects[numObjects - 1].winId, windows, numWindows)
  }

  /** The inner loop: every one of the first `numWindows` windows with id `winId` cleared. */
  function ClearWindowsOf(canvas: seq<byte>, width: nat, winId: byte, windows: seq<Window>, numWindows: nat)
    : (r: Option<seq<byte>>)
    requires numWindows <= |windows|
    ensures r.Some? ==> |r.value| == |canvas|
  {
    if numWindows == 0 then Some(canvas)
    else match ClearWindowsOf(canvas, width, winId, windows, numWindows - 1)
      case None => None
      case Some(c) =>
        var w := windows[numWindows - 1];
        if w.winId != winId then Some(c)
        else if !RegionFits(|c|, width, w.width, w.height, w.x, w.y) then None
        else Some(ClearedRegion(c, width, w.width, w.height, w.x, w.y))
  }

  /** Pixel `k` lies in a window that one of the first `numWindows` windows with id `winId` describes. */
  ghost predicate InWindowOf(k: nat, width: nat, winId: byte, windows: seq<Window>, numWindows: nat)
    requires numWindows <= |windows|
  {
    exists j :: 0 <= j < numWindows && windows[j].winId == winId
      && InRegion(k, width, windows[j].width, windows[j].height, windows[j].x, windows[j].y)
  }

  /** Pixel `k` lies in a window that one of the first `numObjects` objects uses. */
  ghost predicate InObjectWindow(k: nat, width: nat, objects: seq<SupObject>, numObjects: nat,
                                 windows: seq<Window>, numWindows: nat)
    requires numObjects <= |objects| && numWindows <= |windows|
  {
    exists i :: 0 <= i < numObjects && InWindowOf(k, width, objects[i].winId, windows, numWindows)
  }

  lemma {:induction false} ClearWindowsOfAt(canvas: seq<byte>, width: nat, winId: byte, windows: seq<Window>,
                                           numWindows: nat, k: nat)
    requires numWindows <= |windows| && k < |canvas|
    ensures var r := ClearWindowsOf(canvas, width, winId, windows, numWindows);
      r.Some? ==> r.value[k] == if InWindowOf(k, width, winId, windows, numWindows) then 0 else canvas[k]
  {
    if numWindows > 0 {
      ClearWindowsOfAt(canvas, width, winId, windows, numWindows - 1, k);
      var r := ClearWindowsOf(canvas, width, winId, windows, numWindows - 1);
      var w := windows[numWindows - 1];
      if r.Some? && w.winId == winId && RegionFits(|r.value|, width, w.width, w.height, w.x, w.y) {
        ClearedRegionAt(r.value, width, w.width, w.height, w.x, w.y, k);
      }
    }
  }

  /**
    Clearing at the end of a display set sets to 0 exactly the pixels in a
    window some composition object uses, and keeps every other pixel.
   */
  lemma {:induction false} ClearObjectsAt(canvas: seq<byte>, width: nat, objects: seq<SupObject>, numObjects: nat,
                                         windows: seq<Window>, numWindows: nat, k: nat)
    requires numObjects <= |objects| && numWindows <= |windows| && k < |canvas|
    ensures var r := ClearObjects(canvas, width, objects, numObjects, windows, numWindows);
      r.Some? ==> (r.value[k] ==
                   if InObjectWindow(k, width, objects, numObjects, windows, numWindows) then 0 else canvas[k])
  {
    if numObjects > 0 {
      ClearObjectsAt(canvas, width, objects, numObjects - 1, windows, numWindows, k);
      var r := ClearObjects(canvas, width, objects, numObjects - 1, windows, numWindows);
      if r.Some? {
        ClearWindowsOfAt(r.value, width, objects[numObjects - 1].winId, windows, numWindows, k);
      }
    }
  }

  /** The subtitle `pgm_write` and the SRT lines record for the current canvas. */
  function Snapshot(m: Machine): Subtitle
  {
    Subtitle(m.srtStart, m.srtEnd, m.canvasWidth, m.canvasHeight, m.canvas)
  }

  /**
    The end of a display set whose composition is a normal one with no
    object data: the canvas is saved if there is one, the windows are
    cleared and the next subtitle starts now.
   */
  function CloseDisplaySet(m: Machine): (r: Machine)
    requires Inv(m)
    ensures Inv(r)
  {
    var saved := if m.hasCanvas then m.saved + [Snapshot(m)] else m.saved;
    match ClearObjects(m.canvas, m.canvasWidth, m.pcs.objects, m.pcs.numOfObjects, m.wds.windows, m.wds.numOfWindows)
    case None => m.(saved := saved, halted := true)
    case Some(c) => m.(saved := saved, canvas := c, srtStart := m.pcs.ptsMsec, srtEnd := 0)
  }

  /** An end segment: possibly close the display set, then reset all four records. */
  function OnEnd(m: Machine): (r: Machine)
    requires Inv(m)
    ensures Inv(r) && (r.saved == m.saved || r.saved == m.saved + [Snapshot(m)])
  {
    var closed := if m.pcs.compState == STATE_NORMAL && m.ods.objDataLen == 0 then CloseDisplaySet(m) else m;
    closed.(pcs := InitPcs(closed.pcs), pds := InitPds(closed.pds), wds := InitWds(closed.wds), ods := INIT_ODS)
  }

  /** The branch on the segment type of a packet read whole. */
  function Dispatch(m: Machine, header: PacketHeader, payload: seq<byte>): (r: Machine)
    requires Inv(m)
    ensures Inv(r)
  {
    var t := header.segmentType;
    if t == SEGMENT_PCS then OnPcs(m, payload, header.pts)
    else if t == SEGMENT_PDS then m.(pds := ParsePds(payload, m.pds).rec)
    else if t == SEGMENT_WDS then m.(wds := ParseWds(payload, m.wds).rec)
    else if t == SEGMENT_ODS then OnOds(m, payload)
    else if t == SEGMENT_END then OnEnd(m)
    else m
  }

  /** One iteration of the loop at stream offset `pos`: a packet that fails to read is skipped. */
  function StepAt(m: Machine, input: seq<byte>, pos: nat): (r: Machine)
    requires Inv(m) && pos <= |input|
    ensures Inv(r)
  {
    var p := ReadPacket(input, pos);
    if m.halted || p.status != Ok then m else Dispatch(m, p.header, p.received)
  }

  /** The loop from offset `pos` to the end of the stream, or until undefined behaviour. */
  function Run(m: Machine, input: seq<byte>, pos: nat): (r: Machine)
    requires Inv(m) && pos <= |input|
    ensures Inv(r)
    decreases |input| - pos
  {
    if pos == |input| || m.halted then m
    else Run(StepAt(m, input, pos), input, ReadPacket(input, pos).next)
  }

  // ---------------------------------------------------------------------
  // Properties of the loop
  // ---------------------------------------------------------------------

  /**
    A composition that starts an epoch leaves a cleared canvas of its own
    size and starts the subtitle at its time; any other composition leaves
    the canvas and the times alone.
   */
  lemma PcsEpoch(m: Machine, payload: seq<byte>, pts: u32)
    requires Inv(m)
    ensures var r := OnPcs(m, payload, pts);
      var p := ParsePcs(payload, pts, m.pcs);
      if p.ok && (p.rec.compState == STATE_EPOCH_START || p.rec.compState == STATE_ACQU_POINT) then
        r.hasCanvas == (m.hasCanvas || p.rec.videoWidth != m.canvasWidth || p.rec.videoHeight != m.canvasHeight)
        && r.canvasWidth == p.rec.videoWidth && r.canvasHeight == p.rec.videoHeight
        && r.canvas == Zeros(p.rec.videoWidth * p.rec.videoHeight)
        && r.srtStart == p.rec.ptsMsec && r.srtEnd == 0
      else
        r == m.(pcs := p.rec)
  {
  }

  /**
    A parsed object fragment appends its data to the code buffer, after
    emptying it when the fragment is a first one; the buffer never holds
    more than its capacity, which is never below one maximal segment.
   */
  lemma OdsAppends(m: Machine, payload: seq<byte>)
    requires Inv(m)
    ensures var r := OnOds(m, payload);
      var p := ParseOds(payload);
      p.ok ==> (r.encoded == (if IsFirstFragment(p.rec.objFlag) then [] else m.encoded) + payload[p.rec.rawOffset..]
                && MAX_SEGMENT_LEN <= r.capacity && |r.encoded| <= r.capacity)
  {
  }

  /** Fragments that can all be sent as object segments. */
  predicate AllEncodable(fs: seq<Fragment>)
  {
    forall k :: 0 <= k < |fs| ==> Encodable(fs[k])
  }

  lemma AllEncodableCons(f: Fragment, a: seq<Fragment>)
    requires Encodable(f) && AllEncodable(a)
    ensures AllEncodable([f] + a)
  {
    assert forall k :: 0 <= k < |[f] + a| ==> ([f] + a)[k] == if k == 0 then f else a[k - 1];
  }

  lemma AllEncodableSnoc(a: seq<Fragment>, f: Fragment)
    requires AllEncodable(a) && Encodable(f)
    ensures AllEncodable(a + [f])
  {
    assert forall k :: 0 <= k < |a + [f]| ==> (a + [f])[k] == if k < |a| then a[k] else f;
  }

  lemma AllEncodablePrefix(a: seq<Fragment>, n: nat)
    requires AllEncodable(a) && n <= |a|
    ensures AllEncodable(a[..n])
  {
    assert forall k :: 0 <= k < n ==> a[..n][k] == a[k];
  }

  /** The machine after the fragments, one packet each. */
  function Feed(m: Machine, fragments: seq<Fragment>): (r: Machine)
    requires Inv(m) && AllEncodable(fragments)
    ensures Inv(r)
    decreases |fragments|
  {
    if fragments == [] then m
    else OnOds(Feed(m, fragments[..|fragments| - 1]), EncodeOds(fragments[|fragments| - 1]))
  }

  /** The data of a sequence of fragments, in order. */
  function Data(fragments: seq<Fragment>): seq<byte>
  {
    if fragments == [] then [] else Data(fragments[..|fragments| - 1]) + fragments[|fragments| - 1].data
  }

  /** A fragment that is neither the first nor the last of its object. */
  predicate Middle(f: Fragment)
  {
    !IsFirstFragment(f.flag) && !HasFlag(f.flag, ODS_LAST)
  }

  /**
    An encoded fragment that is not a last one changes only the object
    record and the code buffer: its data replaces the buffer when it is a
    first fragment and extends it otherwise.
   */
  lemma OdsNotLast(m: Machine, f: Fragment)
    requires Inv(m) && Encodable(f) && !HasFlag(f.flag, ODS_LAST)
    ensures var r := OnOds(m, EncodeOds(f));
      SameButCode(r, m) && r.encoded == (if IsFirstFragment(f.flag) then [] else m.encoded) + f.data
  {
    ParseEncodedOds(f);
  }

  /** An encoded last fragment appends its data, then renders with its object id. */
  lemma OdsLast(m: Machine, f: Fragment)
    requires Inv(m) && Encodable(f) && HasFlag(f.flag, ODS_LAST)
    ensures var a := AppendOds(m, EncodeOds(f));
      OnOds(m, EncodeOds(f)) == RenderNow(a)
      && SameButCode(a, m)
      && a.encoded == (if IsFirstFragment(f.flag) then [] else m.encoded) + f.data
      && a.ods.objId == f.objId
  {
    ParseEncodedOds(f);
  }

  /** The renderer reads of the object record its id only. */
  lemma RenderNowAgrees(a: Machine, b: Machine)
    requires Inv(a) && Inv(b)
    requires SameButCode(a, b)
    requires a.encoded == b.encoded && a.ods.objId == b.ods.objId
    ensures RenderNow(a).canvas == RenderNow(b).canvas && RenderNow(a).halted == RenderNow(b).halted
  {
  }

  /** Only the object record, the code buffer and its capacity differ between `r` and `m`. */
  predicate SameButCode(r: Machine, m: Machine)
  {
    r == m.(ods := r.ods, encoded := r.encoded, capacity := r.capacity)
  }

  /** One more fragment that is neither first nor last appends its data to the buffer. */
  lemma FeedMiddle(m: Machine, fs: seq<Fragment>, f: Fragment)
    requires Inv(m) && AllEncodable(fs)
    requires Encodable(f) && Middle(f)
    requires SameButCode(Feed(m, fs), m) && Feed(m, fs).encoded == Data(fs)
    ensures AllEncodable(fs + [f])
    ensures SameButCode(Feed(m, fs + [f]), m) && Feed(m, fs + [f]).encoded == Data(fs + [f])
  {
    var gs := fs + [f];
    AllEncodableSnoc(fs, f);
    assert gs[..|gs| - 1] == fs && gs[|gs| - 1] == f;
    OdsNotLast(Feed(m, fs), f);
  }

  /** After a first fragment that is not also a last one, middle fragments only append their data. */
  lemma {:induction false} FeedMiddles(m: Machine, first: Fragment, middles: seq<Fragment>)
    requires Inv(m) && Encodable(first) && IsFirstFragment(first.flag) && !HasFlag(first.flag, ODS_LAST)
    requires AllEncodable(middles) && forall k :: 0 <= k < |middles| ==> Middle(middles[k])
    ensures AllEncodable([first] + middles)
      && SameButCode(Feed(m, [first] + middles), m) && Feed(m, [first] + middles).encoded == Data([first] + middles)
    decreases |middles|
  {
    AllEncodableCons(first, middles);
    if middles == [] {
      assert ([first] + middles)[..0] == [];
      OdsNotLast(m, first);
    } else {
      var init, f := middles[..|middles| - 1], middles[|middles| - 1];
      AllEncodablePrefix(middles, |middles| - 1);
      FeedMiddles(m, first, init);
      assert [first] + middles == ([first] + init) + [f];
      FeedMiddle(m, [first] + init, f);
    }
  }

  /**
    An object sent as a first fragment, middle fragments and a last
    fragment leaves the same code buffer, and renders the same canvas, as
    the object sent in one fragment that is both first and last.
   */
  lemma FragmentsConcatenate(m: Machine, first: Fragment, middles: seq<Fragment>, last: Fragment, whole: Fragment)
    requires Inv(m)
    requires Encodable(first) && IsFirstFragment(first.flag) && !HasFlag(first.flag, ODS_LAST)
    requires AllEncodable(middles) && forall k :: 0 <= k < |middles| ==> Middle(middles[k])
    requires Encodable(last) && !IsFirstFragment(last.flag) && HasFlag(last.flag, ODS_LAST)
    requires Encodable(whole) && IsFirstFragment(whole.flag) && HasFlag(whole.flag, ODS_LAST)
    requires whole.objId == last.objId && whole.data == Data([first] + middles + [last])
    ensures AllEncodable([first] + middles + [last])
    ensures var pieces := Feed(m, [first] + middles + [last]);
      var one := Feed(m, [whole]);
      pieces.encoded == one.encoded && pieces.canvas == one.canvas && pieces.halted == one.halted
  {
    var fs := [first] + middles + [last];
    FeedMiddles(m, first, middles);
    AllEncodableSnoc([first] + middles, last);
    assert fs[..|fs| - 1] == [first] + middles && fs[|fs| - 1] == last;
    assert [whole][..0] == [];
    var before := Feed(m, [first] + middles);
    OdsLast(before, last);
    OdsLast(m, whole);
    RenderNowAgrees(AppendOds(before, EncodeOds(last)), AppendOds(m, EncodeOds(whole)));
  }

  /** An end segment always resets the four records, whatever else it does. */
  lemma EndResets(m: Machine)
    requires Inv(m)
    ensures var r := OnEnd(m);
      r.pcs == InitPcs(r.pcs) && r.pds == InitPds(r.pds) && r.wds == InitWds(r.wds) && r.ods == INIT_ODS
      && r.pcs.objects == m.pcs.objects && r.pds.colors == m.pds.colors && r.wds.windows == m.wds.windows
  {
  }

  /**
    An end segment of a normal composition without object data saves the
    canvas (when there is one), clears the windows the composition's
    objects use and nothing else, and starts the next subtitle at the
    composition's time.
   */
  lemma EndClosesDisplaySet(m: Machine, k: nat)
    requires Inv(m) && m.pcs.compState == STATE_NORMAL && m.ods.objDataLen == 0 && k < |m.canvas|
    ensures var r := OnEnd(m);
      r.saved == (if m.hasCanvas then m.saved + [Snapshot(m)] else m.saved)
      && (!r.halted ==>
            r.srtStart == m.pcs.ptsMsec
            && r.canvas[k] == if InObjectWindow(k, m.canvasWidth, m.pcs.objects, m.pcs.numOfObjects,
                                                m.wds.windows, m.wds.numOfWindows) then 0 else m.canvas[k])
  {
    ClearObjectsAt(m.canvas, m.canvasWidth, m.pcs.objects, m.pcs.numOfObjects, m.wds.windows, m.wds.numOfWindows, k);
  }

  /** Once halted, the machine stays as it is to the end of the stream. */
  lemma {:induction false} RunHalted(m: Machine, input: seq<byte>, pos: nat)
    requires Inv(m) && pos <= |input| && m.halted
    ensures Run(m, input, pos) == m
  {
  }

  /** One iteration saves at most one subtitle: the canvas as it was before the packet. */
  lemma StepSaved(m: Machine, input: seq<byte>, pos: nat)
    requires Inv(m) && pos <= |input|
    ensures var r := StepAt(m, input, pos);
      r.saved == m.saved || r.saved == m.saved + [Snapshot(m)]
  {
  }

  /** Every saved subtitle ends at time 0: the end time is only ever set to 0. */
  lemma {:induction false} RunSavesEndZero(m: Machine, input: seq<byte>, pos: nat)
    requires Inv(m) && pos <= |input|
    requires forall k :: 0 <= k < |m.saved| ==> m.saved[k].end == 0
    ensures var r := Run(m, input, pos);
      forall k :: 0 <= k < |r.saved| ==> r.saved[k].end == 0
    decreases |input| - pos
  {
    if pos < |input| && !m.halted {
      var next := StepAt(m, input, pos);
      StepSaved(m, input, pos);
      assert Snapshot(m).end == 0;
      assert forall k :: 0 <= k < |next.saved| ==> next.saved[k].end == 0;
      RunSavesEndZero(next, input, ReadPacket(input, pos).next);
      assert Run(m, input, pos) == Run(next, input, ReadPacket(input, pos).next);
    }
  }

  /** The loop only ever adds subtitles: those saved before are kept, in order. */
  lemma {:induction false} RunKeepsSaved(m: Machine, input: seq<byte>, pos: nat)
    requires Inv(m) && pos <= |input|
    ensures var r := Run(m, input, pos);
      |m.saved| <= |r.saved| && r.saved[..|m.saved|] == m.saved
    decreases |input| - pos
  {
    if pos < |input| && !m.halted {
      var next := StepAt(m, input, pos);
      StepSaved(m, input, pos);
      RunKeepsSaved(next, input, ReadPacket(input, pos).next);
      var r := Run(next, input, ReadPacket(input, pos).next);
      assert r.saved[..|m.saved|] == r.saved[..|next.saved|][..|m.saved|];
    }
  }

  /** `ClearObjects` stays `None` once a window did not fit. */
  lemma {:induction false} ClearObjectsStaysNone(canvas: seq<byte>, width: nat, objects: seq<SupObject>, i: nat, n: nat,
                                                 windows: seq<Window>, numWindows: nat)
    requires i <= n <= |objects| && numWindows <= |windows|
    requires ClearObjects(canvas, width, objects, i, windows, numWindows).None?
    ensures ClearObjects(canvas, width, objects, n, windows, numWindows).None?
    decreases n - i
  {
    if i < n {
      ClearObjectsStaysNone(canvas, width, objects, i, n - 1, windows, numWindows);
    }
  }

  /** `ClearWindowsOf` stays `None` once a window did not fit. */
  lemma {:induction false} ClearWindowsOfStaysNone(canvas: seq<byte>, width: nat, winId: byte, windows: seq<Window>,
                                                   j: nat, n: nat)
    requires j <= n <= |windows|
    requires ClearWindowsOf(canvas, width, winId, windows, j).None?
    ensures ClearWindowsOf(canvas, width, winId, windows, n).None?
    decreases n - j
  {
    if j < n {
      ClearWindowsOfStaysNone(canvas, width, winId, windows, j, n - 1);
    }
  }

  // ---------------------------------------------------------------------
  // The loop as the program runs it: buffers updated in place
  // ---------------------------------------------------------------------

  /**
    The concrete state agrees with the model: equal, except that after
    undefined behaviour the canvas holds whatever the source's stray writes
    left in it.
   */
  predicate Matches(actual: Machine, spec: Machine)
  {
    actual.(canvas := spec.canvas) == spec && (!spec.halted ==> actual.canvas == spec.canvas)
  }

  /** The local variables of `main` and the structs it allocates. */
  class Converter {
    var hasCanvas: bool
    var canvas: array<byte>
    var canvasWidth: nat
    var canvasHeight: nat
    var encodedImg: array<byte>
    var encodedLen: nat
    var srtStartTime: u32
    var srtEndTime: u32
    var saved: seq<Subtitle>
    var halted: bool
    const packet: Packet
    const pcs: Pcs
    const pds: Pds
    const wds: Wds
    const ods: Ods

    /** The state as a `Machine`; the buffer's length is its capacity. */
    function Model(): (m: Machine)
      reads this, canvas, encodedImg, pcs, pcs.objects, pds, pds.colors, wds, wds.windows, ods
      requires encodedLen <= encodedImg.Length
      ensures Valid() ==> Inv(m)
    {
      Machine(hasCanvas, canvas[..], canvasWidth, canvasHeight, encodedImg[..encodedLen], encodedImg.Length,
              srtStartTime, srtEndTime, pcs.Rec(), pds.Rec(), wds.Rec(), ods.Rec(), saved, halted)
    }

    /** The arrays are distinct and sized as `Inv` requires of the model. */
    predicate Valid()
      reads this, packet, pcs, pds, wds
    {
      pcs.Valid() && pds.Valid() && wds.Valid() && packet.segment.Length == MAX_SEGMENT_LEN
      && canvas != encodedImg && canvas != packet.segment && encodedImg != packet.segment
      && canvas.Length == canvasWidth * canvasHeight && (!hasCanvas ==> canvasWidth == 0 && canvasHeight == 0)
      && encodedLen <= encodedImg.Length && (encodedImg.Length == 0 || MAX_SEGMENT_LEN <= encodedImg.Length)
      && srtEndTime == 0
    }

    /** The state before the first packet: no canvas, no code buffer, freshly initialised records. */
    constructor ()
      ensures Valid() && Model() == Initial()
    {
      hasCanvas, canvasWidth, canvasHeight := false, 0, 0;
      canvas := new byte[0];
      encodedImg := new byte[0];
      encodedLen := 0;
      srtStartTime, srtEndTime := 0, 0;
      saved, halted := [], false;
      packet := new Packet();
      pcs := new Pcs();
      pds := new Pds();
      wds := new Wds();
      ods := new Ods();
    }

    /** The loop of `main` over the whole stream, until its end or until undefined behaviour. */
    method Convert(input: seq<byte>)
      requires Valid() && !halted
      modifies this, canvas, encodedImg, packet, packet.segment, pcs, pcs.objects, pds, pds.colors, wds, wds.windows, ods
      ensures Valid() && Matches(Model(), Run(old(Model()), input, 0))
    {
      ghost var m0 := Model();
      var pos := 0;
      while pos < |input| && !halted
        invariant Valid() && pos <= |input|
        invariant !halted ==> Run(Model(), input, pos) == Run(m0, input, 0)
        invariant halted ==> Matches(Model(), Run(m0, input, 0))
        invariant fresh(canvas) || canvas == old(canvas)
        invariant fresh(encodedImg) || encodedImg == old(encodedImg)
        decreases |input| - pos
      {
        ghost var before, at := Model(), pos;
        pos := Step(input, pos);
        if halted {
          RunHalted(StepAt(before, input, at), input, pos);
        }
      }
    }

    /** One iteration: read a packet and, when it arrived whole, act on its segment type. */
    method Step(input: seq<byte>, pos: nat) returns (next: nat)
      requires Valid() && !halted && pos <= |input|
      modifies this, canvas, encodedImg, packet, packet.segment, pcs, pcs.objects, pds, pds.colors, wds, wds.windows, ods
      ensures Valid() && next == ReadPacket(input, pos).next
      ensures Matches(Model(), StepAt(old(Model()), input, pos))
      ensures fresh(canvas) || canvas == old(canvas)
      ensures fresh(encodedImg) || encodedImg == old(encodedImg)
    {
      ghost var m, r := Model(), ReadPacket(input, pos);
      var status;
      status, next := packet.Read(input, pos);
      assert Model() == m;
      if status != Ok {
        return;
      }
      assert packet.Payload() == r.received && packet.Header() == r.header;
      Act();
      assert StepAt(m, input, pos) == Dispatch(m, r.header, r.received);
    }

    /** The branch on the segment type of the packet just read; other types are ignored. */
    method Act()
      requires Valid() && !halted
      modifies this, canvas, encodedImg, pcs, pcs.objects, pds, pds.colors, wds, wds.windows, ods
      ensures Valid() && Matches(Model(), Dispatch(old(Model()), packet.Header(), old(packet.Payload())))
      ensures fresh(canvas) || canvas == old(canvas)
      ensures fresh(encodedImg) || encodedImg == old(encodedImg)
    {
      if packet.segmentType == SEGMENT_PCS || packet.segmentType == SEGMENT_END {
        ActOnDisplaySet();
      } else {
        ActOnDefinition();
      }
    }

    /** A composition segment, which may start an epoch, or an end segment, which closes the display set. */
    method ActOnDisplaySet()
      requires packet.segmentType == SEGMENT_PCS || packet.segmentType == SEGMENT_END
      requires Valid() && !halted
      modifies this, canvas, encodedImg, pcs, pcs.objects, pds, pds.colors, wds, wds.windows, ods
      ensures Valid() && Matches(Model(), Dispatch(old(Model()), packet.Header(), old(packet.Payload())))
      ensures fresh(canvas) || canvas == old(canvas)
      ensures fresh(encodedImg) || encodedImg == old(encodedImg)
    {
      ghost var m, payload := Model(), packet.Payload();
      ghost var d := Dispatch(m, packet.Header(), payload);
      if packet.segmentType == SEGMENT_PCS {
        HandlePcs();
        assert Model() == OnPcs(m, payload, packet.pts) == d;
      } else {
        HandleEnd();
        assert Matches(Model(), OnEnd(m));
        assert OnEnd(m) == d;
      }
    }

    /** A palette, window or object segment, or one of an unknown type, which is skipped. */
    method ActOnDefinition()
      requires packet.segmentType != SEGMENT_PCS && packet.segmentType != SEGMENT_END
      requires Valid() && !halted
      modifies this, canvas, encodedImg, pcs, pcs.objects, pds, pds.colors, wds, wds.windows, ods
      ensures Valid() && Matches(Model(), Dispatch(old(Model()), packet.Header(), old(packet.Payload())))
      ensures fresh(canvas) || canvas == old(canvas)
      ensures fresh(encodedImg) || encodedImg == old(encodedImg)
    {
      ghost var m, payload := Model(), packet.Payload();
      ghost var d := Dispatch(m, packet.Header(), payload);
      var t := packet.segmentType;
      if t == SEGMENT_PDS || t == SEGMENT_WDS {
        HandleTable();
        assert Model() == d;
      } else if t == SEGMENT_ODS {
        HandleOds();
        assert Matches(Model(), OnOds(m, payload));
        assert OnOds(m, payload) == d;
      } else {
        assert Model() == m == d;
      }
    }

    /** A palette or window definition segment: parsed into its record. */
    method HandleTable()
      requires Valid() && (packet.segmentType == SEGMENT_PDS || packet.segmentType == SEGMENT_WDS)
      modifies pds, pds.colors, wds, wds.windows
      ensures Valid() && Model() == Dispatch(old(Model()), packet.Header(), old(packet.Payload()))
    {
      ghost var m, payload := Model(), packet.Payload();
      if packet.segmentType == SEGMENT_PDS {
        var ok := pds.Parse(packet);
        assert pds.Rec() == ParsePds(payload, m.pds).rec;
      } else {
        var ok := wds.Parse(packet);
        assert wds.Rec() == ParseWds(payload, m.wds).rec;
      }
    }

    /** A composition segment; a bad one is skipped. */
    method HandlePcs()
      requires Valid()
      modifies this`hasCanvas, this`canvas, this`canvasWidth, this`canvasHeight, this`srtStartTime, this`srtEndTime
      modifies canvas, pcs, pcs.objects
      ensures Valid() && Model() == OnPcs(old(Model()), old(packet.Payload()), packet.pts)
      ensures fresh(canvas) || canvas == old(canvas)
    {
      ghost var m, payload := Model(), packet.Payload();
      var ok := pcs.Parse(packet);
      ghost var parsed := m.(pcs := pcs.Rec());
      assert ParsePcs(payload, packet.pts, m.pcs) == Parsed(ok, pcs.Rec());
      assert Model() == parsed;
      if ok && (pcs.compState == STATE_EPOCH_START || pcs.compState == STATE_ACQU_POINT) {
        BeginEpoch();
        assert Model() == StartEpoch(parsed) == OnPcs(m, payload, packet.pts);
      } else {
        assert Model() == OnPcs(m, payload, packet.pts);
      }
    }

    /** A new composition: the canvas reallocated when its size changes, then cleared; the times reset. */
    method BeginEpoch()
      requires Valid()
      modifies this`hasCanvas, this`canvas, this`canvasWidth, this`canvasHeight, this`srtStartTime, this`srtEndTime, canvas
      ensures Valid() && Model() == StartEpoch(old(Model()))
      ensures fresh(canvas) || canvas == old(canvas)
    {
      ghost var m := Model();
      ghost var e := StartEpoch(m);
      ResetCanvas(pcs.videoWidth as nat, pcs.videoHeight as nat);
      srtStartTime, srtEndTime := pcs.ptsMsec, 0;
      RecordsUnchanged(this);
      assert Model() == m.(hasCanvas := e.hasCanvas, canvas := e.canvas, canvasWidth := e.canvasWidth,
                           canvasHeight := e.canvasHeight, srtStart := e.srtStart, srtEnd := 0);
    }

    /** A blank canvas of `w` by `h` pixels, newly allocated unless it already has that size. */
    method ResetCanvas(w: nat, h: nat)
      requires Valid()
      modifies this`hasCanvas, this`canvas, this`canvasWidth, this`canvasHeight, canvas
      ensures Valid() && canvasWidth == w && canvasHeight == h && canvas[..] == Zeros(w * h)
      ensures hasCanvas == (old(hasCanvas) || old(canvasWidth) != w || old(canvasHeight) != h)
      ensures fresh(canvas) || canvas == old(canvas)
    {
      Resize(w, h);
      ClearCanvas();
    }

    /** A canvas of `w` by `h` pixels, newly allocated unless it already has that size. */
    method Resize(w: nat, h: nat)
      requires Valid()
      modifies this`hasCanvas, this`canvas, this`canvasWidth, this`canvasHeight
      ensures Valid() && canvasWidth == w && canvasHeight == h
      ensures if old(canvasWidth) != w || old(canvasHeight) != h then hasCanvas && fresh(canvas)
              else hasCanvas == old(hasCanvas) && canvas == old(canvas)
    {
      if canvasWidth != w || canvasHeight != h {
        canvasWidth, canvasHeight := w, h;
        canvas := new byte[w * h];
        hasCanvas := true;
      }
    }

    /** `pgm_clear` on the whole canvas. */
    method ClearCanvas()
      requires canvas.Length == canvasWidth * canvasHeight
      modifies canvas
      ensures canvas[..] == Zeros(canvasWidth * canvasHeight)
    {
      Clear(canvas, canvasWidth, canvasHeight);
    }

    /** Across a change that leaves the records alone, the model's records stay as they were. */
    twostate lemma RecordsUnchanged(c: Converter)
      requires old(c.encodedLen <= c.encodedImg.Length) && c.encodedLen <= c.encodedImg.Length
      requires unchanged(c.pcs, c.pcs.objects, c.pds, c.pds.colors, c.wds, c.wds.windows, c.ods)
      ensures c.Model() == Machine(c.hasCanvas, c.canvas[..], c.canvasWidth, c.canvasHeight,
                                   c.encodedImg[..c.encodedLen], c.encodedImg.Length, c.srtStartTime, c.srtEndTime,
                                   old(c.Model()).pcs, old(c.Model()).pds, old(c.Model()).wds, old(c.Model()).ods,
                                   c.saved, c.halted)
    {
    }

    /** An object segment; a bad one is skipped, a last fragment is rendered. */
    method HandleOds()
      requires Valid() && !halted
      modifies this`encodedImg, this`encodedLen, this`halted, canvas, encodedImg, ods
      ensures Valid() && Matches(Model(), OnOds(old(Model()), old(packet.Payload())))
      ensures fresh(encodedImg) || encodedImg == old(encodedImg)
    {
      ghost var m, payload := Model(), packet.Payload();
      var ok := ods.Parse(packet);
      assert Model() == m.(ods := ParseOds(payload).rec);
      if ok {
        AppendObject(payload);
      }
    }

    /** A well-formed fragment appended to the code, and rendered when it is the last one. */
    method AppendObject(ghost payload: seq<byte>)
      requires Valid() && !halted && payload == packet.Payload()
      requires ods.rawOffset + ods.rawDataLen == packet.segmentLen as nat
      modifies this`encodedImg, this`encodedLen, this`halted, canvas, encodedImg
      ensures fresh(encodedImg) || encodedImg == old(encodedImg)
      ensures var a := AppendRaw(old(Model()), payload[ods.rawOffset..]);
        Valid() && Matches(Model(), if HasFlag(ods.objFlag, ODS_LAST) then RenderNow(a) else a)
    {
      ghost var m := Model();
      AppendFragment();
      RecordsUnchanged(this);
      assert Model() == AppendRaw(m, payload[ods.rawOffset..]);
      if HasFlag(ods.objFlag, ODS_LAST) {
        RenderCurrent();
      }
    }

    /** `render_sup_image` on the canvas and the code gathered so far. */
    method RenderCurrent()
      requires Valid() && !halted
      modifies this`halted, canvas
      ensures Valid() && Matches(Model(), RenderNow(old(Model())))
    {
      var status := RenderSupImage(canvas, encodedImg[..encodedLen], pcs, wds, pds, ods);
      if status == Fault {
        halted := true;
      }
    }

    /** The fragment's data appended to the code buffer, allocated or grown as needed. */
    method AppendFragment()
      requires Valid() && ods.rawOffset + ods.rawDataLen == packet.segmentLen as nat
      modifies this`encodedImg, this`encodedLen, encodedImg
      ensures Valid()
      ensures var capacity := if old(encodedImg.Length) == 0 then MAX_SEGMENT_LEN else old(encodedImg.Length);
        var kept := if IsFirstFragment(ods.objFlag) then [] else old(encodedImg[..encodedLen]);
        var raw := old(packet.Payload())[ods.rawOffset..];
        encodedImg[..encodedLen] == kept + raw
        && encodedImg.Length == (if |kept| + |raw| > capacity then |kept| + |raw| else capacity)
      ensures fresh(encodedImg) || encodedImg == old(encodedImg)
    {
      ReserveBuffer();
      CopyRaw();
    }

    /**
      The buffer allocated on first use, emptied for a first fragment, and
      grown to fit the fragment's data.
     */
    method ReserveBuffer()
      requires encodedLen <= encodedImg.Length && encodedImg != packet.segment
      requires encodedImg.Length == 0 || MAX_SEGMENT_LEN <= encodedImg.Length
      modifies this`encodedImg, this`encodedLen
      ensures var capacity := if old(encodedImg.Length) == 0 then MAX_SEGMENT_LEN else old(encodedImg.Length);
        var keptLen := if IsFirstFragment(ods.objFlag) then 0 else old(encodedLen);
        encodedLen == keptLen
        && encodedImg.Length == (if keptLen + ods.rawDataLen > capacity then keptLen + ods.rawDataLen else capacity)
        && encodedImg[..encodedLen] == old(encodedImg[..])[..encodedLen]
      ensures encodedImg != packet.segment && (fresh(encodedImg) || encodedImg == old(encodedImg))
    {
      if encodedImg.Length == 0 {
        encodedImg := new byte[MAX_SEGMENT_LEN];
      }
      if IsFirstFragment(ods.objFlag) {
        encodedLen := 0;
      }
      if encodedLen + ods.rawDataLen > encodedImg.Length {
        Grow(encodedLen + ods.rawDataLen);
      }
    }

    /** `memcpy` of the fragment's data from the packet buffer to the end of the code. */
    method CopyRaw()
      requires encodedImg != packet.segment && encodedLen + ods.rawDataLen <= encodedImg.Length
      requires ods.rawOffset + ods.rawDataLen <= packet.segmentLen as nat <= packet.segment.Length
      modifies encodedImg, this`encodedLen
      ensures encodedLen == old(encodedLen) + ods.rawDataLen
      ensures encodedImg[..encodedLen] == old(encodedImg[..encodedLen]) + packet.segment[ods.rawOffset..ods.rawOffset + ods.rawDataLen]
    {
      var start, offset, n := encodedLen, ods.rawOffset, ods.rawDataLen;
      forall k | 0 <= k < n {
        encodedImg[start + k] := packet.segment[offset + k];
      }
      encodedLen := start + n;
    }

    /** `realloc` of the code buffer to `capacity` bytes: the bytes it held are kept. */
    method Grow(capacity: nat)
      requires encodedImg.Length <= capacity
      modifies this`encodedImg
      ensures fresh(encodedImg) && encodedImg.Length == capacity
      ensures encodedImg[..old(encodedImg.Length)] == old(encodedImg[..])
    {
      var bigger := new byte[capacity];
      forall k | 0 <= k < encodedImg.Length {
        bigger[k] := encodedImg[k];
      }
      encodedImg := bigger;
    }

    /** An end segment: save and clear at the end of a normal display set, then reset the records. */
    method HandleEnd()
      requires Valid() && !halted
      modifies this`saved, this`halted, this`srtStartTime, this`srtEndTime, canvas, pcs, pds, wds, ods
      ensures Valid() && Matches(Model(), OnEnd(old(Model())))
    {
      ghost var m := Model();
      var closing := pcs.compState == STATE_NORMAL && ods.objDataLen == 0;
      if closing {
        CloseSet();
      }
      ghost var closed := if closing then CloseDisplaySet(m) else m;
      assert Matches(Model(), closed);
      ResetRecords();
      assert OnEnd(m) == closed.(pcs := InitPcs(closed.pcs), pds := InitPds(closed.pds), wds := InitWds(closed.wds),
                                 ods := INIT_ODS);
    }

    /** The four `init_sup_segment_*` calls. */
    method ResetRecords()
      requires encodedLen <= encodedImg.Length
      modifies pcs, pds, wds, ods
      ensures Model() == old(Model()).(pcs := InitPcs(old(pcs.Rec())), pds := InitPds(old(pds.Rec())),
                                       wds := InitWds(old(wds.Rec())), ods := INIT_ODS)
    {
      pcs.Init();
      pds.Init();
      wds.Init();
      ods.Init();
    }

    /** The canvas saved when there is one; the windows of the composition's objects cleared. */
    method CloseSet()
      requires Valid() && !halted
      modifies this`saved, this`halted, this`srtStartTime, this`srtEndTime, canvas
      ensures Valid() && Matches(Model(), CloseDisplaySet(old(Model())))
    {
      if hasCanvas {
        saved := saved + [Subtitle(srtStartTime, srtEndTime, canvasWidth, canvasHeight, canvas[..])];
      }
      var ok := ClearWindows();
      if ok {
        srtStartTime, srtEndTime := pcs.ptsMsec, 0;
      } else {
        halted := true;
      }
      RecordsUnchanged(this);
    }

    /**
      The two nested loops over the objects and the windows. A window that
      does not fit is an out-of-bounds write in the source; here the loops
      stop there and report it.
     */
    method ClearWindows() returns (ok: bool)
      requires Valid()
      modifies canvas
      ensures var r := ClearObjects(old(canvas[..]), canvasWidth, pcs.objects[..], pcs.numOfObjects as nat,
                                    wds.windows[..], wds.numOfWindows as nat);
        ok == r.Some? && (ok ==> canvas[..] == r.value)
    {
      var i := 0;
      while i < pcs.numOfObjects as nat
        invariant i <= pcs.numOfObjects as nat
        invariant ClearObjects(old(canvas[..]), canvasWidth, pcs.objects[..], i, wds.windows[..], wds.numOfWindows as nat)
                  == Some(canvas[..])
      {
        ok := ClearWindowsFor(pcs.objects[i].winId);
        if !ok {
          ClearObjectsStaysNone(old(canvas[..]), canvasWidth, pcs.objects[..], i + 1, pcs.numOfObjects as nat,
                                wds.windows[..], wds.numOfWindows as nat);
          return;
        }
        i := i + 1;
      }
      return true;
    }

    /** The inner loop: every window with id `winId` cleared. */
    method ClearWindowsFor(winId: byte) returns (ok: bool)
      requires Valid()
      modifies canvas
      ensures var r := ClearWindowsOf(old(canvas[..]), canvasWidth, winId, wds.windows[..], wds.numOfWindows as nat);
        ok == r.Some? && (ok ==> canvas[..] == r.value)
    {
      var j := 0;
      while j < wds.numOfWindows as nat
        invariant j <= wds.numOfWindows as nat
        invariant ClearWindowsOf(old(canvas[..]), canvasWidth, winId, wds.windows[..], j) == Some(canvas[..])
      {
        var w := wds.windows[j];
        if w.winId == winId {
          if !RegionFits(canvas.Length, canvasWidth, w.width as nat, w.height as nat, w.x as nat, w.y as nat) {
            ClearWindowsOfStaysNone(old(canvas[..]), canvasWidth, winId, wds.windows[..], j + 1,
                                    wds.numOfWindows as nat);
            return false;
          }
          ClearRegion(canvas, canvasWidth, canvasHeight, w.width as nat, w.height as nat, w.x as nat, w.y as nat);
        }
        j := j + 1;
      }
      return true;
    }
  }
}
