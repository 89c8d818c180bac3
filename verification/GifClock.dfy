/**
 * The frames of an animated image and the clock that moves them (src/messages/Image.cpp and
 * src/singletons/helper/GifTimer.hpp). Only the durations of the frames are modelled.
 */
module GifClock {
  import opened Arithmetic
  import opened Collections

  const GIF_FRAME_LENGTH := 20
  const LARGEST_START := 60000

  /** The duration that readFrames gives a frame that asks for `delay`. */
  function FrameDuration(delay: int): (d: int)
    ensures delay <= 10 ==> d == 100
    ensures 10 < delay < 20 ==> d == 20
    ensures 20 <= delay ==> d == delay
  {
    Max(20, if delay <= 10 then 100 else delay)
  }

  function Sum(d: seq<int>): int {
    if |d| == 0 then 0 else Sum(d[..|d| - 1]) + d[|d| - 1]
  }

  predicate Positive(d: seq<int>) {
    forall k :: 0 <= k < |d| ==> d[k] > 0
  }

  lemma SumNext(d: seq<int>, i: nat)
    requires i < |d|
    ensures Sum(d[..i + 1]) == Sum(d[..i]) + d[i]
  {
    assert d[..i + 1][..i] == d[..i];
  }

  lemma {:induction false} SumGrows(d: seq<int>, i: nat, j: nat)
    requires i <= j <= |d| && Positive(d)
    ensures Sum(d[..i]) <= Sum(d[..j])
    decreases j
  {
    if i < j {
      SumGrows(d, i, j - 1);
      SumNext(d, j - 1);
    }
  }

  lemma {:induction false} SumPositive(d: seq<int>)
    requires |d| > 0 && Positive(d)
    ensures Sum(d) > 0
  {
    SumGrows(d, 0, |d| - 1);
    SumNext(d, |d| - 1);
    assert d[..|d|] == d;
  }

  // ---- One instance ----

  datatype Clock = Clock(index: nat, offset: int)

  /** The frame at `index` is shown and `offset` lies within it. Only a start is at its very
      beginning. */
  predicate Shows(d: seq<int>, c: Clock) {
    c.index < |d| && 0 <= c.offset <= d[c.index] && (c.offset == 0 ==> c.index == 0)
  }

  /** The time since the beginning of the first frame. */
  function Phase(d: seq<int>, c: Clock): int
    requires c.index < |d|
  {
    Sum(d[..c.index]) + c.offset
  }

  /** The clock at the beginning of the next frame, when the offset is beyond this one. */
  function Next(d: seq<int>, c: Clock): (n: Clock)
    requires c.index < |d|
    ensures n.index < |d|
  {
    Clock(if c.index + 1 == |d| then 0 else c.index + 1, c.offset - d[c.index])
  }

  /** What processOffset leaves. */
  function Process(d: seq<int>, c: Clock): Clock
    requires Positive(d) && c.index < |d|
    decreases c.offset
  {
    if c.offset > d[c.index] then Process(d, Next(d, c)) else c
  }

  lemma {:induction false} ProcessKeepsPhase(d: seq<int>, c: Clock)
    requires Positive(d) && c.index < |d| && 0 <= c.offset && (c.offset == 0 ==> c.index == 0)
    ensures Shows(d, Process(d, c)) && (c.offset > 0 ==> Process(d, c).offset > 0)
    ensures Sum(d) > 0 && Phase(d, Process(d, c)) % Sum(d) == Phase(d, c) % Sum(d)
    decreases c.offset
  {
    SumPositive(d);
    if c.offset > d[c.index] {
      ProcessKeepsPhase(d, Next(d, c));
      SumNext(d, c.index);
      if c.index + 1 == |d| {
        assert d[..|d|] == d;
        ModPlus(Phase(d, Next(d, c)), Sum(d));
      }
    }
  }

  /** The offset a new instance starts with. */
  function Start(d: seq<int>, position: nat): Clock
    requires Positive(d) && |d| > 0
  {
    SumPositive(d);
    Process(d, Clock(0, Min(position % Sum(d), LARGEST_START)))
  }

  function Tick(d: seq<int>, c: Clock): Clock
    requires Positive(d) && c.index < |d|
  {
    Process(d, c.(offset := c.offset + GIF_FRAME_LENGTH))
  }

  class Frames {
    const items: seq<int>
    var index: nat
    var durationOffset: int

    ghost predicate Valid()
      reads this
    {
      Positive(items) && (|items| > 0 ==> Shows(items, Now()))
    }

    ghost function Now(): Clock
      reads this
    {
      Clock(index, durationOffset)
    }

    /** An image with one frame is not animated: it starts at its beginning and gets no ticks. */
    constructor (items: seq<int>, position: nat)
      requires Positive(items)
      ensures this.items == items && Valid()
      ensures |items| > 1 ==> Now() == Start(items, position)
      ensures |items| <= 1 ==> Now() == Clock(0, 0)
    {
      this.items := items;
      index, durationOffset := 0, 0;
      new;
      if |items| > 1 {
        SumPositive(items);
        ghost var total := Sum(items);
        var totalLength := 0;
        for k := 0 to |items|
          invariant totalLength == Sum(items[..k])
          invariant index == 0 && durationOffset == 0 && this.items == items
        {
          SumNext(items, k);
          totalLength := totalLength + items[k];
        }
        assert items[..|items|] == items;
        durationOffset := if totalLength == 0 then 0 else Min(position % totalLength, LARGEST_START);
        ProcessOffset();
      }
    }

    method Advance()
      requires Valid()
      modifies this
      ensures Valid()
      ensures |items| > 0 ==> Now() == Tick(items, old(Now()))
    {
      durationOffset := durationOffset + GIF_FRAME_LENGTH;
      ProcessOffset();
    }

    method ProcessOffset()
      requires Positive(items)
      requires |items| > 0 ==> index < |items| && 0 <= durationOffset && (durationOffset == 0 ==> index == 0)
      modifies this
      ensures Valid() && (|items| > 0 ==> Now() == Process(items, old(Now())))
    {
      if |items| == 0 {
        return;
      }
      ProcessKeepsPhase(items, Now());
      while true
        invariant index < |items|
        invariant Process(items, Now()) == Process(items, old(Now()))
        decreases durationOffset
      {
        ModOfPhase(index, |items|);
        ModOfPhase(index + 1, |items|);
        index := index % |items|;
        if durationOffset > items[index] {
          durationOffset := durationOffset - items[index];
          index := (index + 1) % |items|;
        } else {
          break;
        }
      }
    }
  }

  // ---- Runs ----

  /** The clock after `k` ticks. */
  function After(d: seq<int>, c: Clock, k: nat): Clock
    requires Positive(d) && Shows(d, c)
    ensures Shows(d, After(d, c, k))
  {
    if k == 0 then c else
      var before := After(d, c, k - 1);
      ProcessKeepsPhase(d, before.(offset := before.offset + GIF_FRAME_LENGTH));
      Tick(d, before)
  }

  lemma ModAdds(x: int, y: int, a: int, m: int)
    requires 0 < m && x % m == y % m
    ensures (x + a) % m == (y + a) % m
  {
    var k := x / m - y / m;
    assert x == x / m * m + x % m && y == y / m * m + y % m;
    assert x - y == k * m;
    var q, r := (y + a) / m, (y + a) % m;
    assert x + a == (q + k) * m + r;
    ModUnique(x + a, m, q + k, r);
  }

  /** After `k` ticks the phase has moved by `k` frame lengths, up to whole rounds. */
  lemma {:induction false} PhaseAfter(d: seq<int>, c: Clock, k: nat)
    requires |d| > 0 && Positive(d) && Shows(d, c)
    ensures Sum(d) > 0 && Phase(d, After(d, c, k)) % Sum(d) == (Phase(d, c) + k * GIF_FRAME_LENGTH) % Sum(d)
    ensures k > 0 ==> After(d, c, k).offset > 0
  {
    SumPositive(d);
    if k > 0 {
      PhaseAfter(d, c, k - 1);
      var before := After(d, c, k - 1);
      ProcessKeepsPhase(d, before.(offset := before.offset + GIF_FRAME_LENGTH));
      ModAdds(Phase(d, before), Phase(d, c) + (k - 1) * GIF_FRAME_LENGTH, GIF_FRAME_LENGTH, Sum(d));
    }
  }

  // ---- Instances with the same phase ----

  lemma PhaseBounds(d: seq<int>, c: Clock)
    requires Positive(d) && Shows(d, c)
    ensures Sum(d[..c.index]) <= Phase(d, c) <= Sum(d[..c.index + 1]) <= Sum(d) && 0 <= Phase(d, c)
    ensures Phase(d, c) == Sum(d[..c.index]) <==> c.offset == 0
    ensures Phase(d, c) == 0 <==> c == Clock(0, 0)
  {
    SumNext(d, c.index);
    SumGrows(d, 0, c.index);
    SumGrows(d, c.index + 1, |d|);
    assert d[..|d|] == d;
  }

  /** Phases that are the same up to whole rounds show the same frame, except at phase zero: there
      the beginning of the first frame and the end of the last one meet. */
  lemma SamePhaseSameFrame(d: seq<int>, x: Clock, y: Clock)
    requires |d| > 0 && Positive(d) && Shows(d, x) && Shows(d, y)
    requires Sum(d) > 0 && Phase(d, x) % Sum(d) == Phase(d, y) % Sum(d)
    ensures x == y || (Phase(d, x) % Sum(d) == 0 && (x == Clock(0, 0) || y == Clock(0, 0)))
  {
    PhaseBounds(d, x);
    PhaseBounds(d, y);
    ModOfPhase(Phase(d, x), Sum(d));
    ModOfPhase(Phase(d, y), Sum(d));
    if Phase(d, x) == Phase(d, y) {
      PhaseBounds(d, x);
      PhaseBounds(d, y);
      if x.index < y.index {
        SumGrows(d, x.index + 1, y.index);
      } else if y.index < x.index {
        SumGrows(d, y.index + 1, x.index);
      }
    }
  }

  lemma ModOfPhase(p: int, m: int)
    requires 0 <= p <= m && 0 < m
    ensures p % m == if p == m then 0 else p
  {
    if p == m {
      ModUnique(p, m, 1, 0);
    } else {
      ModUnique(p, m, 0, p);
    }
  }

  /** The part of the position that the limit of the start takes away. */
  function Loss(d: seq<int>, position: nat): nat
    requires Sum(d) > 0
  {
    Max(0, position % Sum(d) - LARGEST_START)
  }

  /** An instance made at `position` lags behind the timer by its loss. */
  lemma InstancePhase(d: seq<int>, position: nat, k: nat)
    requires |d| > 0 && Positive(d)
    ensures Sum(d) > 0 && Shows(d, Start(d, position))
    ensures Phase(d, After(d, Start(d, position), k)) % Sum(d)
         == (position + k * 20 - if position % Sum(d) > 60000 then position % Sum(d) - 60000 else 0) % Sum(d)
  {
    SumPositive(d);
    var m := Sum(d);
    var raw := Clock(0, Min(position % m, LARGEST_START));
    ProcessKeepsPhase(d, raw);
    PhaseAfter(d, Start(d, position), k);
    assert Phase(d, raw) == position % m - Loss(d, position);
    ModAdds(Phase(d, Start(d, position)), Phase(d, raw), k * GIF_FRAME_LENGTH, m);
    ModUnique(position % m, m, 0, position % m);
    ModAdds(position % m, position, k * GIF_FRAME_LENGTH - Loss(d, position), m);
  }

  /** Clocks that have ticked and lag behind by less than a round show the same exactly if they lag
      by the same. */
  lemma SameLagSameFrame(d: seq<int>, x: Clock, y: Clock, now: int, a: nat, b: nat)
    requires |d| > 0 && Positive(d) && Shows(d, x) && Shows(d, y) && x.offset > 0 && y.offset > 0
    requires a < Sum(d) && b < Sum(d)
    requires Phase(d, x) % Sum(d) == (now - a) % Sum(d) && Phase(d, y) % Sum(d) == (now - b) % Sum(d)
    ensures x == y <==> a == b
  {
    if a == b {
      SamePhaseSameFrame(d, x, y);
    }
    if x == y {
      ModAdds(now - a, now - b, a + b - now, Sum(d));
      ModUnique(a, Sum(d), 0, a);
      ModUnique(b, Sum(d), 0, b);
    }
  }

  /** Two instances of an image, made `j` ticks apart, show the same frame at the same offset after
      every later tick exactly if the limit took the same from both; so they always do when the
      image is not longer than the limit. */
  lemma InstancesInSync(d: seq<int>, position: nat, j: nat, k: nat)
    requires |d| > 0 && Positive(d) && k > 0
    ensures Sum(d) > 0 && Shows(d, Start(d, position)) && Shows(d, Start(d, position + j * GIF_FRAME_LENGTH))
    ensures After(d, Start(d, position), j + k) == After(d, Start(d, position + j * GIF_FRAME_LENGTH), k)
       <==> Loss(d, position) == Loss(d, position + j * GIF_FRAME_LENGTH)
    ensures Sum(d) <= LARGEST_START ==> Loss(d, position) == Loss(d, position + j * GIF_FRAME_LENGTH)
  {
    var later := position + j * GIF_FRAME_LENGTH;
    InstancePhase(d, position, j + k);
    InstancePhase(d, later, k);
    PhaseAfter(d, Start(d, position), j + k);
    PhaseAfter(d, Start(d, later), k);
    assert position + (j + k) * GIF_FRAME_LENGTH == later + k * GIF_FRAME_LENGTH;
    SameLagSameFrame(d, After(d, Start(d, position), j + k), After(d, Start(d, later), k),
                     later + k * GIF_FRAME_LENGTH, Loss(d, position), Loss(d, later));
  }
}
