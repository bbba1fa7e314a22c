// Flipping pixel buffers in place.
module BitmapFlip {
  function Reversed<T>(s: seq<T>): (r: seq<T>)
    ensures |r| == |s|
    ensures forall i :: 0 <= i < |s| ==> r[i] == s[|s| - 1 - i]
  {
    if |s| == 0 then [] else Reversed(s[1..]) + [s[0]]
  }

  lemma StretchReversed<T>(before: seq<T>, after: seq<T>, from: nat, to: nat)
    requires |before| == |after| && from <= to <= |before|
    requires forall k :: from <= k < to ==> after[k] == before[from + to - 1 - k]
    requires forall k :: 0 <= k < from || to <= k < |before| ==> after[k] == before[k]
    ensures after[from..to] == Reversed(before[from..to])
    ensures after[..from] == before[..from] && after[to..] == before[to..]
  {
    var left, right := after[from..to], Reversed(before[from..to]);
    assert |left| == |right|;
    forall k | 0 <= k < |left| ensures left[k] == right[k] {
    }
  }

  // `std::reverse` over a part of the buffer.
  method ReverseRange<T>(a: array<T>, from: nat, to: nat)
    requires from <= to <= a.Length
    modifies a
    ensures a[from..to] == Reversed(old(a[from..to]))
    ensures a[..from] == old(a[..from]) && a[to..] == old(a[to..])
  {
    hide Reversed;
    var i, j := from, to;
    ghost var was := a[..];
    while i + 1 < j
      invariant from <= i <= j <= to && i - from == to - j
      invariant forall k :: from <= k < i || j <= k < to ==> a[k] == was[from + to - 1 - k]
      invariant forall k :: i <= k < j || 0 <= k < from || to <= k < a.Length ==> a[k] == was[k]
    {
      j := j - 1;
      a[i], a[j] := a[j], a[i];
      i := i + 1;
    }
    StretchReversed(was, a[..], from, to);
    assert a[from..to] == a[..][from..to] && a[..from] == a[..][..from] && a[to..] == a[..][to..];
    assert was[from..to] == old(a[from..to]);
  }

  // Every row of `width` reversed.
  function RowsReversed<T>(s: seq<T>, width: nat, height: nat): (r: seq<T>)
    requires |s| == width * height
    ensures |r| == |s|
    decreases height
  {
    if height == 0 then [] else
      RowLengths(width, height);
      Reversed(s[..width]) + RowsReversed(s[width..], width, height - 1)
  }

  lemma RowLengths(width: nat, height: nat)
    requires height > 0
    ensures width * height == width + width * (height - 1)
  {
  }

  // The rows in reverse order.
  function RowsSwapped<T>(s: seq<T>, width: nat, height: nat): (r: seq<T>)
    requires |s| == width * height
    ensures |r| == |s|
    decreases height
  {
    if height == 0 then [] else
      RowLengths(width, height);
      RowsSwapped(s[width..], width, height - 1) + s[..width]
  }

  method Invert<T>(pixels: array<T>)
    modifies pixels
    ensures pixels[..] == Reversed(old(pixels[..]))
  {
    ReverseRange(pixels, 0, pixels.Length);
    assert pixels[0..pixels.Length] == pixels[..];
    assert old(pixels[0..pixels.Length]) == old(pixels[..]);
  }

  // The loop over the rows. The buffer must hold whole rows.
  method HorizontalFlip<T>(pixels: array<T>, width: nat, ghost height: nat)
    requires width > 0 && pixels.Length == width * height
    modifies pixels
    ensures pixels[..] == RowsReversed(old(pixels[..]), width, height)
  {
    hide RowsReversed, Reversed;
    var r: nat := 0;
    ghost var row: nat := 0;
    ghost var was := pixels[..];
    assert pixels[..0] + RowsReversed(pixels[0..], width, height) == RowsReversed(was, width, height) by {
      assert pixels[0..] == was;
    }
    while r != pixels.Length
      invariant row <= height && r == width * row && r <= pixels.Length
      invariant pixels.Length - r == width * (height - row)
      invariant pixels[..r] + RowsReversed(pixels[r..], width, height - row) == RowsReversed(was, width, height)
      decreases pixels.Length - r
    {
      RowFits(width, height, row);
      ghost var before := pixels[..];
      label Before:
      ReverseRange(pixels, r, r + width);
      assert before[r..r + width] == old@Before(pixels[r..r + width]);
      RowDone(before, pixels[..], width, height, row, r);
      r := r + width;
      row := row + 1;
    }
    NoRowsLeft(pixels[..], width, height, row);
  }

  // The first row and the rest of a buffer of `height + 1` rows.
  lemma FirstRow<T>(row: seq<T>, rest: seq<T>, width: nat, height: nat)
    requires |row| == width && |rest| == width * height
    ensures |row + rest| == width * (height + 1)
    ensures RowsReversed(row + rest, width, height + 1) == Reversed(row) + RowsReversed(rest, width, height)
    ensures RowsSwapped(row + rest, width, height + 1) == RowsSwapped(rest, width, height) + row
  {
    hide Reversed;
    RowLengths(width, height + 1);
    assert (row + rest)[..width] == row && (row + rest)[width..] == rest;
  }

  // Every buffer with a row in it is its first row and the rest.
  lemma SplitRow<T>(s: seq<T>, width: nat, height: nat)
    requires |s| == width * height && height > 0
    ensures width <= |s| && |s[width..]| == width * (height - 1) && s == s[..width] + s[width..]
  {
    RowLengths(width, height);
  }

  lemma NoRowsFlipped<T>(s: seq<T>, width: nat)
    requires |s| == width * 0
    ensures RowsReversed(s, width, 0) == [] && RowsSwapped(s, width, 0) == [] && s == []
  {
  }

  lemma Around<T>(row: seq<T>, rest: seq<T>, last: seq<T>)
    ensures (row + rest) + last == row + (rest + last)
    ensures row + [] == [] + row == row
  {
  }

  lemma NoRowsLeft<T>(s: seq<T>, width: nat, height: nat, row: nat)
    requires width > 0 && row <= height && |s| == width * height == width * row
    ensures |s[|s|..]| == width * (height - row)
    ensures s[..|s|] + RowsReversed(s[|s|..], width, height - row) == s
  {
    Distribute(width, row, height - row);
  }

  lemma Distribute(width: nat, a: nat, b: nat)
    ensures width * (a + b) == width * a + width * b
  {
  }

  lemma RowFits(width: nat, height: nat, row: nat)
    requires width > 0 && row <= height && width * row != width * height
    ensures row < height && width * row + width == width * (row + 1) <= width * height
    ensures width * height - width * (row + 1) == width * (height - (row + 1))
  {
    assert row < height;
    Distribute(width, row, 1);
    Distribute(width, row + 1, height - (row + 1));
  }

  lemma RowDone<T>(before: seq<T>, after: seq<T>, width: nat, height: nat, row: nat, r: nat)
    requires row < height && |before| == |after| == width * height && r + width <= |before|
    requires r == width * row && |before| - r == width * (height - row)
    requires after[r..r + width] == Reversed(before[r..r + width])
    requires after[..r] == before[..r] && after[r + width..] == before[r + width..]
    ensures |after| - (r + width) == width * (height - (row + 1))
    ensures after[..r + width] + RowsReversed(after[r + width..], width, height - (row + 1))
         == before[..r] + RowsReversed(before[r..], width, height - row)
  {
    hide RowsReversed, Reversed;
    var next, rest := before[r..r + width], before[r + width..];
    SplitRow(before[r..], width, height - row);
    SplitRow(after[r..], width, height - row);
    assert before[r..][..width] == next && before[r..][width..] == rest && after[r..][width..] == rest;
    FirstRow(next, rest, width, height - (row + 1));
    assert after[..r + width] == before[..r] + Reversed(next);
    Around(before[..r], Reversed(next), RowsReversed(rest, width, height - (row + 1)));
  }

  method VerticalFlip<T>(pixels: array<T>, width: nat, ghost height: nat)
    requires width > 0 && pixels.Length == width * height
    modifies pixels
    ensures pixels[..] == RowsSwapped(old(pixels[..]), width, height)
  {
    ghost var was := pixels[..];
    Invert(pixels);
    HorizontalFlip(pixels, width, height);
    InvertThenReverseRows(was, width, height);
  }

  // ----- what flipping means -----

  lemma {:induction false} ReversedAddsUp<T>(a: seq<T>, b: seq<T>)
    ensures Reversed(a + b) == Reversed(b) + Reversed(a)
  {
  }

  lemma {:induction false} RowsReversedAtTheEnd<T>(s: seq<T>, last: seq<T>, width: nat, height: nat)
    requires |s| == width * height && |last| == width
    ensures |s + last| == width * (height + 1)
    ensures RowsReversed(s + last, width, height + 1) == RowsReversed(s, width, height) + Reversed(last)
    decreases height
  {
    hide RowsReversed, RowsSwapped, Reversed;
    if height == 0 {
      NoRowsFlipped(s, width);
      FirstRow(last, [], width, 0);
      NoRowsFlipped<T>([], width);
      Around(last, [], []);
      Around(Reversed(last), [], []);
    } else {
      SplitRow(s, width, height);
      var row, rest := s[..width], s[width..];
      RowsReversedAtTheEnd(rest, last, width, height - 1);
      FirstRow(row, rest, width, height - 1);
      FirstRow(row, rest + last, width, height);
      Around(row, rest, last);
      Around(Reversed(row), RowsReversed(rest, width, height - 1), Reversed(last));
    }
  }

  lemma ReversedTwice<T>(s: seq<T>)
    ensures Reversed(Reversed(s)) == s
  {
  }

  // Reversing everything and then every row leaves the rows themselves alone and
  // reverses their order.
  lemma {:induction false} InvertThenReverseRows<T>(s: seq<T>, width: nat, height: nat)
    requires |s| == width * height
    ensures RowsReversed(Reversed(s), width, height) == RowsSwapped(s, width, height)
    decreases height
  {
    hide RowsReversed, RowsSwapped, Reversed;
    if height == 0 {
      NoRowsFlipped(s, width);
      NoRowsFlipped(Reversed(s), width);
    } else {
      SplitRow(s, width, height);
      var row, rest := s[..width], s[width..];
      InvertThenReverseRows(rest, width, height - 1);
      ReversedAddsUp(row, rest);
      RowsReversedAtTheEnd(Reversed(rest), Reversed(row), width, height - 1);
      ReversedTwice(row);
      FirstRow(row, rest, width, height - 1);
    }
  }

  lemma {:induction false} RowsSwappedAtTheEnd<T>(s: seq<T>, last: seq<T>, width: nat, height: nat)
    requires |s| == width * height && |last| == width
    ensures |s + last| == width * (height + 1)
    ensures RowsSwapped(s + last, width, height + 1) == last + RowsSwapped(s, width, height)
    decreases height
  {
    hide RowsReversed, RowsSwapped, Reversed;
    if height == 0 {
      NoRowsFlipped(s, width);
      FirstRow(last, [], width, 0);
      NoRowsFlipped<T>([], width);
      Around(last, [], []);
    } else {
      SplitRow(s, width, height);
      var row, rest := s[..width], s[width..];
      RowsSwappedAtTheEnd(rest, last, width, height - 1);
      FirstRow(row, rest, width, height - 1);
      FirstRow(row, rest + last, width, height);
      Around(row, rest, last);
      Around(last, RowsSwapped(rest, width, height - 1), row);
    }
  }

  // A vertical flip undoes itself.
  lemma {:induction false} FlipTwice<T>(s: seq<T>, width: nat, height: nat)
    requires |s| == width * height
    ensures RowsSwapped(RowsSwapped(s, width, height), width, height) == s
    decreases height
  {
    hide RowsReversed, RowsSwapped, Reversed;
    if height == 0 {
      NoRowsFlipped(s, width);
    } else {
      SplitRow(s, width, height);
      var row, rest := s[..width], s[width..];
      FlipTwice(rest, width, height - 1);
      FirstRow(row, rest, width, height - 1);
      RowsSwappedAtTheEnd(RowsSwapped(rest, width, height - 1), row, width, height - 1);
    }
  }

  // Row `r` of a buffer.
  function Row<T>(s: seq<T>, width: nat, height: nat, r: nat): seq<T>
    requires |s| == width * height && r < height
  {
    RowInBuffer(width, height, r);
    s[width * r..width * r + width]
  }

  // The rows of a buffer that begins, or ends, with another one's rows.
  lemma RowBehind<T>(row: seq<T>, rest: seq<T>, width: nat, height: nat, r: nat)
    requires |row| == width && |rest| == width * height && 0 < r <= height
    ensures |row + rest| == width * (height + 1)
    ensures Row(row + rest, width, height + 1, r) == Row(rest, width, height, r - 1)
  {
    Distribute(width, height, 1);
    Distribute(width, r - 1, 1);
    RowInBuffer(width, height, r - 1);
    RowInBuffer(width, height + 1, r);
    ShiftedSlice(row, rest, width * (r - 1), width * (r - 1) + width);
  }

  lemma ShiftedSlice<T>(front: seq<T>, rest: seq<T>, p: nat, q: nat)
    requires p <= q <= |rest|
    ensures (front + rest)[|front| + p..|front| + q] == rest[p..q]
  {
  }

  lemma RowInFront<T>(init: seq<T>, row: seq<T>, width: nat, height: nat, r: nat)
    requires |init| == width * height && |row| == width && r <= height
    ensures |init + row| == width * (height + 1)
    ensures Row(init + row, width, height + 1, r) == if r < height then Row(init, width, height, r) else row
  {
    Distribute(width, height, 1);
    RowInBuffer(width, height + 1, r);
    if r < height {
      RowInBuffer(width, height, r);
    }
  }

  // A vertical flip sends row r to row height - 1 - r.
  lemma {:induction false} FlipMovesRows<T>(s: seq<T>, width: nat, height: nat, r: nat)
    requires |s| == width * height && r < height
    ensures Row(RowsSwapped(s, width, height), width, height, height - 1 - r) == Row(s, width, height, r)
    decreases height
  {
    hide RowsReversed, RowsSwapped, Reversed, Row;
    SplitRow(s, width, height);
    var row, rest := s[..width], s[width..];
    FirstRow(row, rest, width, height - 1);
    RowInFront(RowsSwapped(rest, width, height - 1), row, width, height - 1, height - 1 - r);
    if r == 0 {
      FirstRowIs(row, rest, width, height - 1);
    } else {
      FlipMovesRows(rest, width, height - 1, r - 1);
      RowBehind(row, rest, width, height - 1, r);
    }
  }

  lemma FirstRowIs<T>(row: seq<T>, rest: seq<T>, width: nat, height: nat)
    requires |row| == width && |rest| == width * height
    ensures |row + rest| == width * (height + 1) && Row(row + rest, width, height + 1, 0) == row
  {
    Distribute(width, height, 1);
  }

  lemma RowInBuffer(width: nat, height: nat, r: nat)
    requires r < height
    ensures 0 <= width * r && width * r + width <= width * height
  {
    Distribute(width, r, 1);
    Distribute(width, r + 1, height - (r + 1));
  }
}
