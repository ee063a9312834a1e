/**
 * The SDL window: its guarded public operations, the commands its managing
 * thread applies to the native window and renderer, and the event
 * collection that feeds the window's event channel. Each command is one
 * sequential method call here; the channels that carry them are not modelled.
 */
module SdlWindow {
  import opened Keymap
  import opened Surface
  import opened Events

  /** A call on the SDL renderer. */
  datatype RenderCall = SetDrawColor(color: RGBA) | DrawPoint(x: int, y: int) | Present

  /** The SDL window's own state, as the calls made on it leave it:
      its size, its title, and how many times it was shown and destroyed. */
  datatype NativeWindow = NativeWindow(width: int, height: int, title: string, shows: nat, destroyed: nat)

  /** The renderer calls that draw the points (x, 0) .. (x, y - 1) of the
      grid `g` whose minimum corner is (minX, minY). */
  function ColumnCalls(g: Grid, minX: int, minY: int, x: int, y: int): (c: seq<RenderCall>)
    decreases y
  {
    if y <= 0 then []
    else ColumnCalls(g, minX, minY, x, y - 1)
         + [SetDrawColor(Cell(g, x - minX, y - 1 - minY)), DrawPoint(x, y - 1)]
  }

  /** The renderer calls that draw columns 0 .. w - 1, each of height h,
      x in the outer loop and y in the inner one. */
  function DrawCalls(g: Grid, minX: int, minY: int, w: int, h: int): (d: seq<RenderCall>)
    decreases w
  {
    if w <= 0 then [] else DrawCalls(g, minX, minY, w - 1, h) + ColumnCalls(g, minX, minY, w - 1, h)
  }

  /** Where the draw-color call for point (x, y) sits in a flush of height h. */
  function PairIndex(x: int, y: int, h: int): (k: int)
  {
    2 * (x * h + y)
  }

  class Window {
    var closed: bool
    var lock: bool
    const width: int
    const height: int
    const buffer: SdlBuffer
    var native: NativeWindow
    ghost var trace: seq<RenderCall>
    var keychords: KeyChords
    var events: seq<Event>

    /** The window is closed exactly when its native window was destroyed,
        and the buffer keeps the creation-time bounds. */
    ghost predicate Valid()
      reads this
    {
      && (closed <==> native.destroyed > 0)
      && (width >= 0 && height >= 0 ==>
            buffer.minX == 0 && buffer.minY == 0 && buffer.pix.Length0 == width && buffer.pix.Length1 == height)
    }

    /** NewWindow: the managing thread creates the native window at the
        requested size and shows it; the returned error is always nil. */
    constructor (width: Int64, height: Int64)
      ensures Valid()
      ensures !closed && !lock && this.width == width && this.height == height
      ensures native == NativeWindow(width, height, "", 1, 0)
      ensures trace == [] && keychords == map[] && events == []
      ensures fresh(buffer) && fresh(buffer.pix)
      ensures buffer.Grid() == Empty(buffer.pix.Length0, buffer.pix.Length1)
    {
      this.width, this.height := width, height;
      buffer := new SdlBuffer(width, height);
      closed, lock := false, false;
      native := NativeWindow(width, height, "", 1, 0);
      trace := [];
      keychords := map[];
      events := [];
    }

    method SetTitle(title: string)
      requires Valid()
      modifies this`native
      ensures Valid()
      ensures native == if closed then old(native) else old(native).(title := title)
    {
      if closed {
        return;
      }
      native := native.(title := title);
    }

    /** The size command reaches the native window unless the window is
        closed or its size is locked. */
    method SetSize(width: int, height: int)
      requires Valid()
      modifies this`native
      ensures Valid()
      ensures native == if closed || lock then old(native)
                        else old(native).(width := width, height := height)
    {
      if closed {
        return;
      }
      if !lock {
        native := native.(width := width, height := height);
      }
    }

    /** The native window's size, or (0, 0) once the window is closed. */
    method Size() returns (width: int, height: int)
      ensures closed ==> width == 0 && height == 0
      ensures !closed ==> width == native.width && height == native.height
    {
      if closed {
        return 0, 0;
      }
      return native.width, native.height;
    }

    method LockSize(lock: bool)
      modifies this`lock
      ensures this.lock == lock
    {
      this.lock := lock;
    }

    /** Destroys the native window and marks the window closed. A second
        Close destroys it again and then panics closing the already closed
        event channel; `panicked` reports that. */
    method Close() returns (panicked: bool)
      requires Valid()
      modifies this`closed, this`native
      ensures Valid()
      ensures closed && panicked == old(closed)
      ensures native == old(native).(destroyed := old(native.destroyed) + 1)
    {
      native := native.(destroyed := native.destroyed + 1);
      if closed {
        return true;
      }
      closed := true;
      return false;
    }

    /** The show command has no closed guard. */
    method Show()
      requires Valid()
      modifies this`native
      ensures Valid()
      ensures native == old(native).(shows := old(native.shows) + 1)
    {
      native := native.(shows := native.shows + 1);
    }

    /** FlushImage and the flush command: unless the window is closed, draws
        every point of the creation-time width and height, presents, and
        clears the buffer. */
    method FlushImage()
      requires Valid()
      modifies this`trace, buffer.pix
      ensures Valid()
      ensures old(closed) ==> trace == old(trace) && buffer.Grid() == old(buffer.Grid())
      ensures !old(closed) ==>
        trace == old(trace) + DrawCalls(old(buffer.Grid()), buffer.minX, buffer.minY, width, height) + [Present]
      ensures !old(closed) ==>
        buffer.Grid() == ClearGrid(old(buffer.Grid()), buffer.minX, buffer.minY, buffer.pix.Length1)
      ensures !old(closed) && width >= 0 && height >= 0 ==> buffer.Grid() == Empty(width, height)
    {
      if closed {
        return;
      }
      ghost var g := buffer.Grid();
      Draw();
      trace := trace + [Present];
      buffer.Clear();
      if width >= 0 && height >= 0 {
        ClearFromOrigin(g, height);
      }
    }

    /** The flush command's nested loops: one draw-color and one draw-point
        call per point, x outer, y inner, reading the buffer. */
    method Draw()
      modifies this`trace
      ensures trace == old(trace) + DrawCalls(buffer.Grid(), buffer.minX, buffer.minY, width, height)
    {
      ghost var g := buffer.Grid();
      var x := 0;
      while x < width
        invariant 0 <= x && (0 <= width ==> x <= width) && (width < 0 ==> x == 0)
        invariant trace == old(trace) + DrawCalls(g, buffer.minX, buffer.minY, x, height)
      {
        ghost var before := trace;
        DrawColumn(x);
        assert trace == before + ColumnCalls(g, buffer.minX, buffer.minY, x, height);
        DrawCallsStep(g, buffer.minX, buffer.minY, x, height);
        x := x + 1;
      }
    }

    /** The inner loop of the flush command, for column x. */
    method DrawColumn(x: int)
      modifies this`trace
      ensures trace == old(trace) + ColumnCalls(buffer.Grid(), buffer.minX, buffer.minY, x, height)
    {
      ghost var g := buffer.Grid();
      var y := 0;
      while y < height
        invariant 0 <= y && (0 <= height ==> y <= height) && (height < 0 ==> y == 0)
        invariant trace == old(trace) + ColumnCalls(g, buffer.minX, buffer.minY, x, y)
      {
        var c := buffer.At(x, y);
        trace := trace + [SetDrawColor(c), DrawPoint(x, y)];
        y := y + 1;
      }
    }

    /** The event collection, over a finite run of polled events: each event
        is translated in turn and its portable events are delivered. */
    method CollectEvents(natives: seq<NativeEvent>, construct: KeyChords -> string)
      modifies this`keychords, this`events
      ensures keychords == TranslateAll(natives, old(keychords), construct).keychords
      ensures events == old(events) + TranslateAll(natives, old(keychords), construct).emitted
    {
      var i := 0;
      while i < |natives|
        invariant 0 <= i <= |natives|
        invariant keychords == TranslateAll(natives[..i], old(keychords), construct).keychords
        invariant events == old(events) + TranslateAll(natives[..i], old(keychords), construct).emitted
      {
        var step := Translate(natives[i], keychords, construct);
        keychords := step.keychords;
        events := events + step.emitted;
        assert natives[..i + 1] == natives[..i] + [natives[i]];
        TranslateAllAppend(natives[..i], natives[i], old(keychords), construct);
        i := i + 1;
      }
      assert natives[..i] == natives;
    }
  }

  //////////////////////////////////////////////////////////////////////
  // The flush trace
  //////////////////////////////////////////////////////////////////////

  /** One more column appends that column's calls. */
  lemma DrawCallsStep(g: Grid, minX: int, minY: int, x: int, h: int)
    requires x >= 0
    ensures DrawCalls(g, minX, minY, x + 1, h) == DrawCalls(g, minX, minY, x, h) + ColumnCalls(g, minX, minY, x, h)
  {
  }

  lemma {:induction false} ColumnCallsShape(g: Grid, minX: int, minY: int, x: int, h: int)
    requires h >= 0
    ensures |ColumnCalls(g, minX, minY, x, h)| == 2 * h
    ensures forall y :: 0 <= y < h ==>
      ColumnCalls(g, minX, minY, x, h)[2 * y] == SetDrawColor(Cell(g, x - minX, y - minY))
      && ColumnCalls(g, minX, minY, x, h)[2 * y + 1] == DrawPoint(x, y)
    decreases h
  {
    if h > 0 {
      ColumnCallsShape(g, minX, minY, x, h - 1);
    }
  }

  lemma {:induction false} DrawCallsLength(g: Grid, minX: int, minY: int, w: int, h: int)
    requires w >= 0 && h >= 0
    ensures |DrawCalls(g, minX, minY, w, h)| == 2 * (w * h)
    decreases w
  {
    if w > 0 {
      DrawCallsLength(g, minX, minY, w - 1, h);
      ColumnCallsShape(g, minX, minY, w - 1, h);
      assert (w - 1) * h + h == w * h;
    }
  }

  /** The pair for point (x, y) follows the calls of the columns before x. */
  lemma {:induction false} DrawCallsAt(g: Grid, minX: int, minY: int, w: int, h: int, x: int, y: int)
    requires 0 <= x < w && 0 <= y < h
    ensures |DrawCalls(g, minX, minY, x, h)| + 2 * y + 1 < |DrawCalls(g, minX, minY, w, h)|
    ensures DrawCalls(g, minX, minY, w, h)[|DrawCalls(g, minX, minY, x, h)| + 2 * y]
            == SetDrawColor(Cell(g, x - minX, y - minY))
    ensures DrawCalls(g, minX, minY, w, h)[|DrawCalls(g, minX, minY, x, h)| + 2 * y + 1]
            == DrawPoint(x, y)
    decreases w
  {
    if x < w - 1 {
      DrawCallsAt(g, minX, minY, w - 1, h, x, y);
      var p := |DrawCalls(g, minX, minY, x, h)| + 2 * y;
      IndexLeft(DrawCalls(g, minX, minY, w - 1, h), ColumnCalls(g, minX, minY, w - 1, h), p);
      IndexLeft(DrawCalls(g, minX, minY, w - 1, h), ColumnCalls(g, minX, minY, w - 1, h), p + 1);
    } else {
      LastColumnAt(g, minX, minY, x, h, y);
    }
  }

  /** The pairs of the last column follow the calls of all columns before it. */
  lemma LastColumnAt(g: Grid, minX: int, minY: int, x: int, h: int, y: int)
    requires 0 <= x && 0 <= y < h
    ensures |DrawCalls(g, minX, minY, x, h)| + 2 * y + 1 < |DrawCalls(g, minX, minY, x + 1, h)|
    ensures DrawCalls(g, minX, minY, x + 1, h)[|DrawCalls(g, minX, minY, x, h)| + 2 * y]
            == SetDrawColor(Cell(g, x - minX, y - minY))
    ensures DrawCalls(g, minX, minY, x + 1, h)[|DrawCalls(g, minX, minY, x, h)| + 2 * y + 1]
            == DrawPoint(x, y)
  {
    ColumnCallsShape(g, minX, minY, x, h);
    IndexRight(DrawCalls(g, minX, minY, x, h), ColumnCalls(g, minX, minY, x, h), 2 * y);
    IndexRight(DrawCalls(g, minX, minY, x, h), ColumnCalls(g, minX, minY, x, h), 2 * y + 1);
  }

  lemma IndexLeft<T>(a: seq<T>, b: seq<T>, i: int)
    requires 0 <= i < |a|
    ensures (a + b)[i] == a[i]
  {
  }

  lemma IndexRight<T>(a: seq<T>, b: seq<T>, i: int)
    requires 0 <= i < |b|
    ensures |a| + i < |a + b| && (a + b)[|a| + i] == b[i]
  {
  }

  lemma PairIndexValue(x: int, y: int, h: int)
    ensures PairIndex(x, y, h) == 2 * (x * h) + 2 * y
  {
  }

  /** The pair for point (x, y) sits at position 2 * (x * h + y). */
  lemma DrawCallsPair(g: Grid, minX: int, minY: int, w: int, h: int, x: int, y: int)
    requires 0 <= x < w && 0 <= y < h
    ensures PairIndex(x, y, h) + 1 < |DrawCalls(g, minX, minY, w, h)|
    ensures DrawCalls(g, minX, minY, w, h)[PairIndex(x, y, h)] == SetDrawColor(Cell(g, x - minX, y - minY))
    ensures DrawCalls(g, minX, minY, w, h)[PairIndex(x, y, h) + 1] == DrawPoint(x, y)
  {
    DrawCallsAt(g, minX, minY, w, h, x, y);
    DrawCallsLength(g, minX, minY, x, h);
    PairIndexValue(x, y, h);
    assert PairIndex(x, y, h) == |DrawCalls(g, minX, minY, x, h)| + 2 * y;
  }

  /** A flush of a w-by-h window issues exactly w * h (draw-color, draw-point)
      pairs, x in the outer loop and y in the inner: the pair for point
      (x, y) is at position 2 * (x * h + y). */
  lemma DrawCallsShape(g: Grid, minX: int, minY: int, w: int, h: int)
    requires w >= 0 && h >= 0
    ensures |DrawCalls(g, minX, minY, w, h)| == 2 * (w * h)
    ensures forall x, y :: 0 <= x < w && 0 <= y < h ==>
      PairIndex(x, y, h) + 1 < |DrawCalls(g, minX, minY, w, h)|
      && DrawCalls(g, minX, minY, w, h)[PairIndex(x, y, h)] == SetDrawColor(Cell(g, x - minX, y - minY))
      && DrawCalls(g, minX, minY, w, h)[PairIndex(x, y, h) + 1] == DrawPoint(x, y)
  {
    DrawCallsLength(g, minX, minY, w, h);
    forall x, y | 0 <= x < w && 0 <= y < h {
      DrawCallsPair(g, minX, minY, w, h, x, y);
    }
  }

  lemma {:induction false} DrawCallsEmpty(g: Grid, minX: int, minY: int, w: int, h: int)
    requires w <= 0 || h <= 0
    ensures DrawCalls(g, minX, minY, w, h) == []
    decreases if w <= 0 then 0 else w
  {
    if w > 0 {
      DrawCallsEmpty(g, minX, minY, w - 1, h);
      assert ColumnCalls(g, minX, minY, w - 1, h) == [];
    }
  }

  //////////////////////////////////////////////////////////////////////
  // Scenarios
  //////////////////////////////////////////////////////////////////////

  /** An 800x600 window asked to become 1024x768 reports the new size,
      unless its size was locked first. */
  method ResizeScenario(locked: bool) returns (width: int, height: int)
    ensures locked ==> width == 800 && height == 600
    ensures !locked ==> width == 1024 && height == 768
  {
    var w := new Window(800, 600);
    if locked {
      w.LockSize(true);
    }
    w.SetSize(1024, 768);
    width, height := w.Size();
  }

  /** After Close, title and size requests are dropped, Size reports (0, 0),
      a flush draws nothing, and Show still reaches the native window, which
      is shown a second time. */
  method CloseScenario(title: string)
    returns (width: int, height: int, native: NativeWindow, ghost calls: seq<RenderCall>)
    ensures width == 0 && height == 0
    ensures native.width == 640 && native.height == 480 && native.title == ""
    ensures native.shows == 2 && native.destroyed == 1
    ensures calls == []
  {
    var w := new Window(640, 480);
    var _ := w.Close();
    w.SetTitle(title);
    w.SetSize(1, 1);
    w.FlushImage();
    w.Show();
    width, height := w.Size();
    native := w.native;
    calls := w.trace;
  }
}
