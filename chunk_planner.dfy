/**
  How `get_exchange_data` splits a request `[from, to]` (epoch seconds) into windows
  of at most ninety days.
*/
module ChunkPlanner {

  /** `three_months = 90 * 24 * 60 * 60`, in seconds. */
  const ThreeMonths: int := 90 * 24 * 60 * 60

  /** The stride between window starts: a window's end plus one second. */
  const Stride: int := ThreeMonths + 1

  /** One `(chunk_from, chunk_to)` pair; the source passes both on as decimal strings. */
  datatype Window = Window(start: int, end: int)

  function Min(a: int, b: int): int {
    if a <= b then a else b
  }

  /** The windows the planning loop produces, as a recursive definition. */
  function Chunks(from: int, to: int): seq<Window>
    decreases to - from
  {
    if from >= to then []
    else
      var end := Min(from + ThreeMonths, to);
      [Window(from, end)] + Chunks(end + 1, to)
  }

  /** The planning loop of `get_exchange_data`. */
  method PlanChunks(fromDate: int, toDate: int) returns (chunks: seq<Window>)
    ensures chunks == Chunks(fromDate, toDate)
  {
    chunks := [];
    var currentFrom := fromDate;
    while currentFrom < toDate
      invariant chunks + Chunks(currentFrom, toDate) == Chunks(fromDate, toDate)
      decreases toDate - currentFrom
    {
      var currentTo := Min(currentFrom + ThreeMonths, toDate);
      chunks := chunks + [Window(currentFrom, currentTo)];
      currentFrom := currentTo + 1;
    }
  }

  /** The number of windows: `ceil((to - from) / 7776001)`, none when `from >= to`. */
  function ChunkCount(from: int, to: int): nat {
    if from >= to then 0 else (to - from + ThreeMonths) / Stride
  }

  /** Window `i` of `[from, to]`: it starts `i` strides after `from` and ends ninety days
      later or at `to`, whichever comes first. */
  function NthWindow(from: int, to: int, i: int): Window {
    Window(from + i * Stride, Min(from + i * Stride + ThreeMonths, to))
  }

  /** The windows are counted by `ChunkCount` and given by `NthWindow`. */
  lemma {:induction false} ChunksClosedForm(from: int, to: int)
    decreases to - from
    ensures |Chunks(from, to)| == ChunkCount(from, to)
    ensures forall i :: 0 <= i < |Chunks(from, to)| ==> Chunks(from, to)[i] == NthWindow(from, to, i)
  {
    if from < to {
      var end := Min(from + ThreeMonths, to);
      var ws := Chunks(from, to);
      var rest := Chunks(end + 1, to);
      assert ws == [Window(from, end)] + rest;
      if end == to {
        assert rest == [];
        assert ChunkCount(from, to) == 1;
      } else {
        assert end < to;
        ChunksClosedForm(end + 1, to);
        assert end + 1 == from + Stride;
        assert ChunkCount(end + 1, to) == ChunkCount(from, to) - 1;
        forall i | 1 <= i < |ws|
          ensures ws[i] == NthWindow(from, to, i)
        {
          assert ws[i] == rest[i - 1] == NthWindow(end + 1, to, i - 1);
          assert from + Stride + (i - 1) * Stride == from + i * Stride;
        }
      }
    }
  }

  /** A request with `from >= to` is planned as no windows at all (there is no error). */
  lemma EmptyRangeNoChunks(from: int, to: int)
    requires from >= to
    ensures Chunks(from, to) == []
  {
  }

  /** For a non-empty span `d`, `n = ChunkCount` strides are the fewest that cover it:
      `(n - 1) * Stride < d <= n * Stride`, with equality exactly when `d` is a multiple. */
  lemma CountBounds(d: int, n: int)
    requires d > 0 && n == (d + ThreeMonths) / Stride
    ensures n >= 1 && (n - 1) * Stride < d <= n * Stride
    ensures d == n * Stride <==> d % Stride == 0
  {
    var q, r := d / Stride, d % Stride;
    assert d == q * Stride + r && 0 <= r < Stride;
    if r == 0 {
      assert d + ThreeMonths == q * Stride + ThreeMonths;
      assert n == q;
    } else {
      assert d + ThreeMonths == (q + 1) * Stride + (r - 1);
      assert n == q + 1;
    }
  }

  /** The windows of `[from, to]`: the first starts at `from`; each is non-empty, lies inside the
      range and spans at most ninety days; each starts one second after the previous ends;
      all but the last span exactly ninety days; the last ends at `to`, or at `to - 1` exactly
      when `to - from` is a multiple of the stride, in which case second `to` is in no window. */
  lemma ChunksWellFormed(from: int, to: int)
    requires from < to
    ensures var ws := Chunks(from, to);
      && |ws| == (to - from + ThreeMonths) / Stride
      && ws[0].start == from
      && (forall i :: 0 <= i < |ws| ==> from <= ws[i].start < ws[i].end <= ws[i].start + ThreeMonths && ws[i].end <= to)
      && (forall i :: 0 <= i < |ws| - 1 ==> ws[i + 1].start == ws[i].end + 1 && ws[i].end == ws[i].start + ThreeMonths)
      && (ws[|ws| - 1].end == to || ws[|ws| - 1].end == to - 1)
      && (ws[|ws| - 1].end == to - 1 <==> (to - from) % Stride == 0)
  {
    ChunksClosedForm(from, to);
    var ws := Chunks(from, to);
    var n := |ws|;
    CountBounds(to - from, n);
    forall i | 0 <= i < n
      ensures from <= ws[i].start < ws[i].end <= ws[i].start + ThreeMonths && ws[i].end <= to
    {
      WindowInside(from, to, n, i);
    }
    forall i | 0 <= i < n - 1
      ensures ws[i + 1].start == ws[i].end + 1 && ws[i].end == ws[i].start + ThreeMonths
    {
      WindowInside(from, to, n, i + 1);
      assert ws[i + 1] == NthWindow(from, to, i + 1);
      assert (i + 1) * Stride == i * Stride + Stride;
    }
    LastWindow(from, to, n);
  }

  /** Every window before the count starts inside the range. */
  lemma WindowInside(from: int, to: int, n: int, i: int)
    requires (n - 1) * Stride < to - from && 0 <= i < n
    ensures from <= from + i * Stride < to
  {
    assert i * Stride <= (n - 1) * Stride;
  }

  /** The last window ends at `to`, or at `to - 1` when the span is a whole number of strides. */
  lemma LastWindow(from: int, to: int, n: int)
    requires (n - 1) * Stride < to - from <= n * Stride
    ensures NthWindow(from, to, n - 1).end == to || NthWindow(from, to, n - 1).end == to - 1
    ensures NthWindow(from, to, n - 1).end == to - 1 <==> to - from == n * Stride
  {
    assert from + (n - 1) * Stride + ThreeMonths == from + n * Stride - 1;
  }

  /** A request of 104 days is planned as two windows. */
  lemma OneHundredFourDaysTwoChunks(from: int)
    ensures |Chunks(from, from + 104 * 24 * 60 * 60)| == 2
  {
    ChunksClosedForm(from, from + 104 * 24 * 60 * 60);
  }

  /** The last second of `[0, 7776001]` is not covered: the only window is `[0, 7776000]`. */
  lemma FinalSecondDropped()
    ensures Chunks(0, Stride) == [Window(0, ThreeMonths)]
  {
    assert Chunks(ThreeMonths + 1, Stride) == [];
  }
}
