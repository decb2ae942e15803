/** The on-screen display: compositing glyph bitmaps into one overlay, and the per-pixel kernel that applies it. */
module Overlay {
  import opened Alignment
  import opened Bytes

  const INT_MAX: nat := 0x7FFF_FFFF

  /** One entry of `fontAttr_array_`. */
  datatype Slot = Slot(used: bool, bitmap: seq<byte>, width: nat, rows: nat, r: nat, c: nat)
  {
    /** The bitmap buffer is large enough and the far corner does not overflow an int. */
    predicate WellFormed()
    {
      |bitmap| >= rows * width && r + rows <= INT_MAX && c + width <= INT_MAX
    }

    predicate Covers(row: nat, col: nat)
    {
      r <= row < r + rows && c <= col < c + width
    }

    function Value(row: nat, col: nat): byte
      requires WellFormed() && Covers(row, col)
    {
      PixelBound(width, rows, row - r, col - c);
      bitmap[Px(width, row - r, col - c)]
    }
  }

  /** The index of pixel (row, col) in an image of the given width. */
  function Px(width: nat, row: nat, col: nat): nat { row * width + col }

  lemma PixelBound(width: nat, rows: nat, row: nat, col: nat)
    requires row < rows && col < width
    ensures Px(width, row, col) < rows * width
  {
    MulLess(row, rows, width);
  }

  lemma PixelInjective(width: nat, row: nat, col: nat, row2: nat, col2: nat)
    requires col < width && col2 < width && Px(width, row, col) == Px(width, row2, col2)
    ensures row == row2 && col == col2
  {
    ModUnique(Px(width, row, col), width, row, col);
    ModUnique(Px(width, row, col), width, row2, col2);
  }

  /** What a pixel shows after slots 0..n have been copied in order over a blank overlay. */
  function TopValue(slots: seq<Slot>, n: nat, row: nat, col: nat): byte
    requires n <= |slots| && forall i :: 0 <= i < n ==> slots[i].WellFormed()
  {
    if n == 0 then 0
    else if slots[n - 1].used && slots[n - 1].Covers(row, col) then slots[n - 1].Value(row, col)
    else TopValue(slots, n - 1, row, col)
  }

  /** That is the value of the highest-numbered used slot covering the pixel, and 0 where there is none. */
  lemma {:induction false} TopValueIsHighest(slots: seq<Slot>, n: nat, row: nat, col: nat, top: nat)
    requires n <= |slots| && forall i :: 0 <= i < n ==> slots[i].WellFormed()
    requires forall i :: 0 <= i < n && (top < n ==> i > top) ==> !(slots[i].used && slots[i].Covers(row, col))
    requires top < n ==> slots[top].used && slots[top].Covers(row, col)
    ensures TopValue(slots, n, row, col) == if top < n then slots[top].Value(row, col) else 0
    decreases n
  {
    if n > 0 && top != n - 1 {
      TopValueIsHighest(slots, n - 1, row, col, top);
    }
  }

  /** The image shows f(row, col) = top value of the first n slots. */
  ghost predicate Shows(image: seq<byte>, width: nat, height: nat, slots: seq<Slot>, n: nat)
    requires |image| == height * width
    requires n <= |slots| && forall i :: 0 <= i < n ==> slots[i].WellFormed()
  {
    forall row: nat, col: nat {:trigger Px(width, row, col)} :: row < height && col < width ==>
      Px(width, row, col) < |image| && image[Px(width, row, col)] == TopValue(slots, n, row, col)
  }

  /** Pixel (row, col) after the bitmap of s has been copied over `was`. */
  ghost predicate Copied(was: seq<byte>, now: seq<byte>, width: nat, height: nat, s: Slot)
    requires s.WellFormed()
  {
    && |now| == |was| == height * width
    && forall row: nat, col: nat {:trigger Px(width, row, col)} :: row < height && col < width ==>
      && Px(width, row, col) < |was|
      && now[Px(width, row, col)] == if s.Covers(row, col) then s.Value(row, col) else was[Px(width, row, col)]
  }

  /** The pixels before (row, col) in copying order have been copied, the others not yet. */
  ghost predicate CopiedUpTo(was: seq<byte>, now: seq<byte>, width: nat, height: nat, s: Slot, row: int, col: int)
    requires s.WellFormed()
  {
    && |now| == |was| == height * width
    && forall i: nat, j: nat {:trigger Px(width, i, j)} :: i < height && j < width ==>
      && Px(width, i, j) < |was|
      && now[Px(width, i, j)] ==
        if s.Covers(i, j) && (i < row || (i == row && j < col)) then s.Value(i, j) else was[Px(width, i, j)]
  }

  lemma CopiedNone(was: seq<byte>, width: nat, height: nat, s: Slot)
    requires s.WellFormed() && |was| == height * width
    ensures CopiedUpTo(was, was, width, height, s, s.r, s.c)
  {
    forall i: nat, j: nat | i < height && j < width ensures Px(width, i, j) < |was| {
      PixelBound(width, height, i, j);
    }
  }

  lemma CopiedOne(was: seq<byte>, now: seq<byte>, after: seq<byte>, width: nat, height: nat, s: Slot,
                  row: nat, col: nat)
    requires s.WellFormed() && CopiedUpTo(was, now, width, height, s, row, col)
    requires s.Covers(row, col) && row < height && col < width && Px(width, row, col) < |now|
    requires after == now[Px(width, row, col) := s.Value(row, col)]
    ensures CopiedUpTo(was, after, width, height, s, row, col + 1)
  {
    forall i: nat, j: nat | i < height && j < width
      ensures Px(width, i, j) < |was|
      ensures after[Px(width, i, j)] ==
        if s.Covers(i, j) && (i < row || (i == row && j < col + 1)) then s.Value(i, j) else was[Px(width, i, j)]
    {
      if Px(width, i, j) == Px(width, row, col) {
        PixelInjective(width, i, j, row, col);
      }
    }
  }

  /** `copyBitmapToImage`: the bitmap, clipped at the right and bottom edges, replaces what was under it. */
  method CopyBitmapToImage(s: Slot, image: array<byte>, width: nat, height: nat)
    requires s.WellFormed() && image.Length == height * width
    modifies image
    ensures Copied(old(image[..]), image[..], width, height, s)
    ensures forall k :: 0 <= k < image.Length ==> image[k] == PixelAfter(s, width, k, old(image[k]))
  {
    var maxRow, maxCol := s.r + s.rows, s.c + s.width;
    if maxRow > height {
      maxRow := height;
    }
    if maxCol > width {
      maxCol := width;
    }
    ghost var was := image[..];
    CopiedNone(was, width, height, s);
    var row := s.r;
    while row < maxRow
      invariant s.r <= row
      invariant CopiedUpTo(was, image[..], width, height, s, row, s.c)
    {
      var col := s.c;
      while col < maxCol
        invariant s.c <= col
        invariant CopiedUpTo(was, image[..], width, height, s, row, col)
      {
        ghost var now := image[..];
        PixelBound(width, height, row, col);
        PixelBound(s.width, s.rows, row - s.r, col - s.c);
        image[row * width + col] := s.bitmap[(row - s.r) * s.width + (col - s.c)];
        CopiedOne(was, now, image[..], width, height, s, row, col);
        col := col + 1;
      }
      row := row + 1;
    }
    forall k | 0 <= k < image.Length ensures image[k] == PixelAfter(s, width, k, was[k]) {
      CopiedByte(was, image[..], width, height, s, k);
    }
  }

  /** Byte k of the image lies in row k / width and column k % width. */
  lemma ByteOfPixel(width: nat, height: nat, k: nat)
    requires k < height * width
    ensures width > 0 && k / width < height && k % width < width
    ensures k / width * width + k % width == k
  {
    QuotientBound(k, height, width);
    Division(k, width);
  }

  /** Byte k after the copy, by its row and column: the bitmap's byte where the bitmap lies, the old one elsewhere. */
  ghost function PixelAfter(s: Slot, width: nat, k: nat, was: byte): byte
    requires s.WellFormed() && width > 0
  {
    var row, col := k / width, k % width;
    if s.r <= row < s.r + s.rows && s.c <= col < s.c + s.width then
      MulLess(row - s.r, s.rows, s.width);
      s.bitmap[(row - s.r) * s.width + (col - s.c)]
    else was
  }

  lemma CopiedByte(was: seq<byte>, now: seq<byte>, width: nat, height: nat, s: Slot, k: nat)
    requires s.WellFormed() && Copied(was, now, width, height, s) && k < |was|
    ensures width > 0 && now[k] == PixelAfter(s, width, k, was[k])
  {
    ByteOfPixel(width, height, k);
    assert Px(width, k / width, k % width) == k;
  }

  /** Byte k of the composed overlay: that of the highest-numbered used slot whose bitmap lies over its row and column,
      and 0 where there is none (top == |slots|). */
  lemma OverlayByte(overlay: seq<byte>, width: nat, height: nat, slots: seq<Slot>, k: nat, top: nat)
    requires |overlay| == height * width && k < |overlay|
    requires (forall i :: 0 <= i < |slots| ==> slots[i].WellFormed()) && Shows(overlay, width, height, slots, |slots|)
    requires width > 0 ==> forall i :: 0 <= i < |slots| && (top < |slots| ==> i > top) ==>
      !(slots[i].used && slots[i].r <= k / width < slots[i].r + slots[i].rows
        && slots[i].c <= k % width < slots[i].c + slots[i].width)
    requires width > 0 && top < |slots| ==>
      && slots[top].used && slots[top].r <= k / width < slots[top].r + slots[top].rows
      && slots[top].c <= k % width < slots[top].c + slots[top].width
    ensures width > 0 && overlay[k] == if top < |slots| then PixelAfter(slots[top], width, k, 0) else 0
  {
    ByteOfPixel(width, height, k);
    var row, col := k / width, k % width;
    assert Px(width, row, col) == k;
    TopValueIsHighest(slots, |slots|, row, col, top);
  }

  /** The slot loop of `process_font`: blank the overlay, then copy the used slots in order. */
  method ComposeOverlay(slots: seq<Slot>, overlay: array<byte>, width: nat, height: nat)
    requires overlay.Length == height * width
    requires forall i :: 0 <= i < |slots| ==> slots[i].WellFormed()
    modifies overlay
    ensures Shows(overlay[..], width, height, slots, |slots|)
  {
    forall k | 0 <= k < overlay.Length {
      overlay[k] := 0;
    }
    BlankShows(overlay[..], width, height, slots);
    var i := 0;
    while i < |slots|
      invariant 0 <= i <= |slots|
      invariant Shows(overlay[..], width, height, slots, i)
    {
      if slots[i].used {
        ghost var was := overlay[..];
        CopyBitmapToImage(slots[i], overlay, width, height);
        SlotShows(was, overlay[..], width, height, slots, i);
      } else {
        UnusedShows(overlay[..], width, height, slots, i);
      }
      i := i + 1;
    }
  }

  lemma BlankShows(image: seq<byte>, width: nat, height: nat, slots: seq<Slot>)
    requires |image| == height * width && forall k :: 0 <= k < |image| ==> image[k] == 0
    ensures Shows(image, width, height, slots, 0)
  {
    forall row: nat, col: nat | row < height && col < width ensures Px(width, row, col) < |image| {
      PixelBound(width, height, row, col);
    }
  }

  lemma SlotShows(was: seq<byte>, now: seq<byte>, width: nat, height: nat, slots: seq<Slot>, i: nat)
    requires i < |slots| && (forall k :: 0 <= k < |slots| ==> slots[k].WellFormed()) && |was| == height * width
    requires Shows(was, width, height, slots, i) && Copied(was, now, width, height, slots[i]) && slots[i].used
    ensures Shows(now, width, height, slots, i + 1)
  {
  }

  lemma UnusedShows(image: seq<byte>, width: nat, height: nat, slots: seq<Slot>, i: nat)
    requires i < |slots| && (forall k :: 0 <= k < |slots| ==> slots[k].WellFormed()) && |image| == height * width
    requires Shows(image, width, height, slots, i) && !slots[i].used
    ensures Shows(image, width, height, slots, i + 1)
  {
  }
}
