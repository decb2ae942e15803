/** `render_text`: one work-item per pixel, run by the GPU in any interleaving. */
module RenderKernel {
  import opened Bytes
  import opened Overlay

  /** The four bytes of a pixel. */
  datatype Pixel = Pixel(r: byte, g: byte, b: byte, a: byte)

  function PixelOf(image: seq<byte>, p: nat): Pixel
    requires 4 * p + 4 <= |image|
  {
    Pixel(image[4 * p], image[4 * p + 1], image[4 * p + 2], image[4 * p + 3])
  }

  /** What the kernel makes of a pixel: R and B swapped where the overlay is 0, grey in all four channels elsewhere. */
  function Rendered(was: Pixel, grey: byte): Pixel
  {
    if grey > 0 then Pixel(grey, grey, grey, grey) else Pixel(was.b, was.g, was.r, was.a)
  }

  /** One work-item, run alone: it changes its own pixel and no other byte. */
  method RenderText(image: array<byte>, width: nat, height: nat, font: seq<byte>, x: nat, y: nat)
    requires |font| == height * width && image.Length == 4 * |font|
    modifies image
    ensures x < width && y < height ==>
      Px(width, y, x) < |font|
      && PixelOf(image[..], Px(width, y, x))
         == Rendered(old(PixelOf(image[..], Px(width, y, x))), font[Px(width, y, x)])
    ensures forall k :: 0 <= k < image.Length && !(x < width && y < height && k / 4 == Px(width, y, x)) ==>
      image[k] == old(image[k])
    // byte by byte: red and blue change places where the overlay is 0, else all four bytes become its value
    ensures x < width && y < height ==>
      && 0 <= 4 * (y * width + x) && 4 * (y * width + x) + 3 < image.Length && y * width + x < |font|
      && var grey, at := font[y * width + x], 4 * (y * width + x);
        && (grey > 0 ==> image[at] == image[at + 1] == image[at + 2] == image[at + 3] == grey)
        && (grey == 0 ==> image[at] == old(image[at + 2]) && image[at + 1] == old(image[at + 1]))
        && (grey == 0 ==> image[at + 2] == old(image[at]) && image[at + 3] == old(image[at + 3]))
    ensures forall k :: 0 <= k < image.Length && !(x < width && y < height && k / 4 == y * width + x) ==>
      image[k] == old(image[k])
  {
    if x >= width || y >= height {
      return;
    }
    PixelBound(width, height, y, x);
    var index := y * width + x;
    var tmp := image[index * 4];
    image[index * 4] := image[index * 4 + 2];
    image[index * 4 + 2] := tmp;
    var rgba := index * 4;
    var grey := font[index];
    if grey > 0 {
      image[rgba] := grey;
      image[rgba + 1] := grey;
      image[rgba + 2] := grey;
      image[rgba + 3] := grey;
    }
  }

  // ---- all work-items, interleaved at single memory accesses

  /** Where a work-item is: its next access, its private `tmp`, and the value it loaded last. */
  datatype Item = Item(pc: nat, tmp: byte, loaded: byte)

  const DONE: nat := 9

  datatype State = State(image: seq<byte>, items: seq<Item>)

  ghost predicate Fits(s: State, font: seq<byte>)
  {
    |s.items| == |font| && |s.image| == 4 * |font|
  }

  function Start(image: seq<byte>, n: nat): State { State(image, seq(n, _ => Item(0, 0, 0))) }

  /** Work-item p performs its next memory access: one byte read or one byte written. */
  function Step(s: State, font: seq<byte>, p: nat): (t: State)
    requires Fits(s, font) && p < |font|
    ensures Fits(t, font)
  {
    var it, base := s.items[p], 4 * p;
    var next := s.items[p := it.(pc := it.pc + 1)];
    if it.pc == 0 then s.(items := s.items[p := it.(pc := 1, tmp := s.image[base])])
    else if it.pc == 1 then s.(items := s.items[p := it.(pc := 2, loaded := s.image[base + 2])])
    else if it.pc == 2 then State(s.image[base := it.loaded], next)
    else if it.pc == 3 then State(s.image[base + 2 := it.tmp], next)
    else if it.pc == 4 then
      s.(items := s.items[p := it.(pc := if font[p] > 0 then 5 else DONE, loaded := font[p])])
    else if it.pc < DONE then State(s.image[base + (it.pc - 5) := it.loaded], next)
    else s
  }

  ghost predicate Valid(schedule: seq<nat>, n: nat) { forall i :: 0 <= i < |schedule| ==> schedule[i] < n }

  /** Any schedule: a sequence of work-item numbers, in any order, each as often as it likes. */
  ghost function Run(s: State, font: seq<byte>, schedule: seq<nat>): (t: State)
    requires Fits(s, font) && Valid(schedule, |font|)
    ensures Fits(t, font)
    decreases |schedule|
  {
    if schedule == [] then s else Run(Step(s, font, schedule[0]), font, schedule[1..])
  }

  /** The pixel a work-item has left behind when it is about to make access pc. */
  function Midway(pc: nat, was: Pixel, grey: byte): Pixel
  {
    if pc <= 2 then was
    else if pc == 3 then was.(r := was.b)
    else if pc <= 5 then Pixel(was.b, was.g, was.r, was.a)
    else if pc == 6 then Pixel(grey, was.g, was.r, was.a)
    else if pc == 7 then Pixel(grey, grey, was.r, was.a)
    else if pc == 8 then Pixel(grey, grey, grey, was.a)
    else Rendered(was, grey)
  }

  /** Every pixel is as far as its own work-item is, whatever the others do. */
  ghost predicate Inv(image: seq<byte>, font: seq<byte>, s: State)
    requires |image| == 4 * |font|
  {
    && Fits(s, font)
    && forall p :: 0 <= p < |font| ==> ItemInv(PixelOf(image, p), font[p], PixelOf(s.image, p), s.items[p])
  }

  ghost predicate ItemInv(was: Pixel, grey: byte, now: Pixel, it: Item)
  {
    && now == Midway(it.pc, was, grey)
    && (1 <= it.pc <= 3 ==> it.tmp == was.r)
    && (it.pc == 2 ==> it.loaded == was.b)
    && (5 <= it.pc < DONE ==> it.loaded == grey > 0)
    && it.pc <= DONE
  }

  lemma StepInv(image: seq<byte>, font: seq<byte>, s: State, p: nat)
    requires |image| == 4 * |font| && p < |font| && Inv(image, font, s)
    ensures Inv(image, font, Step(s, font, p))
  {
    var t := Step(s, font, p);
    forall q | 0 <= q < |font| ensures ItemInv(PixelOf(image, q), font[q], PixelOf(t.image, q), t.items[q]) {
      assert ItemInv(PixelOf(image, q), font[q], PixelOf(s.image, q), s.items[q]);
      if q != p {
        OtherPixel(s, font, p, q);
      }
    }
  }

  lemma OtherPixel(s: State, font: seq<byte>, p: nat, q: nat)
    requires Fits(s, font) && p < |font| && q < |font| && p != q
    ensures PixelOf(Step(s, font, p).image, q) == PixelOf(s.image, q) && Step(s, font, p).items[q] == s.items[q]
  {
  }

  lemma {:induction false} RunInv(image: seq<byte>, font: seq<byte>, s: State, schedule: seq<nat>)
    requires |image| == 4 * |font| && Inv(image, font, s)
    requires Valid(schedule, |font|)
    ensures Inv(image, font, Run(s, font, schedule))
    decreases |schedule|
  {
    if schedule != [] {
      StepInv(image, font, s, schedule[0]);
      RunInv(image, font, Step(s, font, schedule[0]), schedule[1..]);
    }
  }

  ghost predicate AllDone(s: State) { forall p :: 0 <= p < |s.items| ==> s.items[p].pc == DONE }

  lemma StartInv(image: seq<byte>, font: seq<byte>)
    requires |image| == 4 * |font|
    ensures Inv(image, font, Start(image, |font|))
  {
  }

  lemma DoneInv(image: seq<byte>, font: seq<byte>, s: State, p: nat)
    requires |image| == 4 * |font| && Inv(image, font, s) && p < |font| && s.items[p].pc == DONE
    ensures PixelOf(s.image, p) == Rendered(PixelOf(image, p), font[p])
  {
    assert ItemInv(PixelOf(image, p), font[p], PixelOf(s.image, p), s.items[p]);
  }

  /** Every complete interleaving of the work-items' accesses renders every pixel. */
  lemma AnyScheduleRenders(image: seq<byte>, font: seq<byte>, schedule: seq<nat>, p: nat)
    requires |image| == 4 * |font| && p < |font|
    requires Valid(schedule, |font|)
    requires AllDone(Run(Start(image, |font|), font, schedule))
    ensures PixelOf(Run(Start(image, |font|), font, schedule).image, p) == Rendered(PixelOf(image, p), font[p])
  {
    hide Run, Inv;
    StartInv(image, font);
    RunInv(image, font, Start(image, |font|), schedule);
    DoneInv(image, font, Run(Start(image, |font|), font, schedule), p);
  }

  /** So all complete interleavings give one and the same image. */
  lemma SchedulesAgree(image: seq<byte>, font: seq<byte>, one: seq<nat>, two: seq<nat>)
    requires |image| == 4 * |font|
    requires Valid(one, |font|)
    requires Valid(two, |font|)
    requires AllDone(Run(Start(image, |font|), font, one)) && AllDone(Run(Start(image, |font|), font, two))
    ensures Run(Start(image, |font|), font, one).image == Run(Start(image, |font|), font, two).image
  {
    hide Run, Rendered, AllDone, Valid, PixelOf;
    var a, b := Run(Start(image, |font|), font, one).image, Run(Start(image, |font|), font, two).image;
    forall p | 0 <= p < |font| ensures PixelOf(a, p) == PixelOf(b, p) {
      AnyScheduleRenders(image, font, one, p);
      AnyScheduleRenders(image, font, two, p);
    }
    PixelsDecide(a, b, |font|);
  }

  lemma PixelsDecide(a: seq<byte>, b: seq<byte>, n: nat)
    requires |a| == |b| == 4 * n && forall p :: 0 <= p < n ==> PixelOf(a, p) == PixelOf(b, p)
    ensures a == b
  {
    forall k | 0 <= k < |a| ensures a[k] == b[k] {
      assert PixelOf(a, k / 4) == PixelOf(b, k / 4);
      assert k == 4 * (k / 4) + k % 4;
    }
  }

  /** `process_font` as a whole: compose the overlay, then run the kernel in any interleaving. */
  lemma FrameRendered(slots: seq<Slot>, width: nat, height: nat, overlay: seq<byte>, image: seq<byte>,
                      schedule: seq<nat>, row: nat, col: nat)
    requires |overlay| == height * width && |image| == 4 * |overlay| && row < height && col < width
    requires (forall i :: 0 <= i < |slots| ==> slots[i].WellFormed()) && Shows(overlay, width, height, slots, |slots|)
    requires Valid(schedule, |overlay|)
    requires AllDone(Run(Start(image, |overlay|), overlay, schedule))
    ensures Px(width, row, col) < |overlay|
    ensures PixelOf(Run(Start(image, |overlay|), overlay, schedule).image, Px(width, row, col))
      == Rendered(PixelOf(image, Px(width, row, col)), TopValue(slots, |slots|, row, col))
  {
    hide Run, Rendered, AllDone;
    PixelBound(width, height, row, col);
    AnyScheduleRenders(image, overlay, schedule, Px(width, row, col));
  }

  /** How often a work-item is scheduled. */
  function Turns(schedule: seq<nat>, p: nat): nat
  {
    if schedule == [] then 0 else (if schedule[0] == p then 1 else 0) + Turns(schedule[1..], p)
  }

  /** Nine turns each are enough, in any order: no work-item waits for another. */
  lemma {:induction false} EnoughTurns(s: State, font: seq<byte>, schedule: seq<nat>, p: nat)
    requires Fits(s, font) && p < |font| && s.items[p].pc <= DONE
    requires Valid(schedule, |font|)
    requires Turns(schedule, p) >= DONE - s.items[p].pc
    ensures Run(s, font, schedule).items[p].pc == DONE
    decreases |schedule|
  {
    if schedule != [] {
      var t := Step(s, font, schedule[0]);
      if schedule[0] != p {
        OtherPixel(s, font, schedule[0], p);
      }
      EnoughTurns(t, font, schedule[1..], p);
    }
  }
}
