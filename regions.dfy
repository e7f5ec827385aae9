/** `reg_to_list`: a per-residue vector built from 1-based inclusive regions.
    Every index `i` of `range(start - 1, end)` is written as Python's `seq[i] = 1`
    would write it: a negative index in `-length <= i < 0` reaches cell `length + i`,
    and any other index outside the list raises IndexError, which is caught by
    replacing the whole list by `[-1] * length` and carrying on with the loops. */
module Regions {
  import opened Wrappers
  import opened Strings

  /** One `[start, end]` entry of a region list, 1-based and inclusive. */
  datatype Region = Region(start: int, end: int)

  /** The three values a cell can hold: outside every region, inside one, or the
      sentinel left by an index that fell outside the list. */
  predicate IsMark(x: int)
  {
    x == -1 || x == 0 || x == 1
  }

  predicate AllMarks(v: seq<int>)
  {
    forall k :: 0 <= k < |v| ==> IsMark(v[k])
  }

  /** `seq[i] = 1`, with the IndexError handler `seq = [-1] * length`. */
  function SetOne(v: seq<int>, i: int): (r: seq<int>)
    ensures |r| == |v|
    ensures AllMarks(v) ==> AllMarks(r)
  {
    match ResolveIndex(i, |v|)
    case Some(j) => v[j := 1]
    case None => Fill(-1, |v|)
  }

  /** The effect of `for i in range(lo, hi): seq[i] = 1` (with its handler). */
  function MarkRange(v: seq<int>, lo: int, hi: int): (r: seq<int>)
    ensures |r| == |v|
    ensures AllMarks(v) ==> AllMarks(r)
    decreases hi - lo
  {
    if hi <= lo then v else SetOne(MarkRange(v, lo, hi - 1), hi - 1)
  }

  /** The effect of the inner loop for one region. */
  function MarkRegion(v: seq<int>, el: Region): (r: seq<int>)
    ensures |r| == |v|
  {
    MarkRange(v, el.start - 1, el.end)
  }

  /** The effect of the outer loop over `regions`, in order. */
  function MarkRegions(v: seq<int>, regions: seq<Region>): (r: seq<int>)
    ensures |r| == |v|
    ensures AllMarks(v) ==> AllMarks(r)
  {
    if regions == [] then v
    else MarkRegion(MarkRegions(v, regions[..|regions| - 1]), regions[|regions| - 1])
  }

  /** What `reg_to_list(regions, length)` returns; `regions` is None when the
      payload has no region list (`if regions:` is false for None and for []). */
  function RegToListSpec(regions: Option<seq<Region>>, length: nat): seq<int>
  {
    if regions.None? || regions.value == [] then Fill(0, length)
    else MarkRegions(Fill(0, length), regions.value)
  }

  /** `reg_to_list`, as the source runs it: a buffer filled in place, replaced by a
      fresh all `-1` buffer whenever an index falls outside it. */
  method RegToList(regions: Option<seq<Region>>, length: nat) returns (v: seq<int>)
    ensures v == RegToListSpec(regions, length)
    ensures |v| == length && AllMarks(v)
    ensures regions.None? || regions == Some([]) ==> v == Fill(0, length)
  {
    var buf := new int[length](_ => 0);
    assert buf[..] == Fill(0, length);
    if regions.Some? && regions.value != [] {
      var rs := regions.value;
      var k := 0;
      while k < |rs|
        invariant 0 <= k <= |rs|
        invariant fresh(buf) && buf.Length == length
        invariant buf[..] == MarkRegions(Fill(0, length), rs[..k])
      {
        buf := MarkRangeInPlace(buf, rs[k].start - 1, rs[k].end);
        assert rs[..k + 1][..k] == rs[..k];
        k := k + 1;
      }
      assert rs[..|rs|] == rs;
    }
    v := buf[..];
    assert AllMarks(Fill(0, length));
  }

  /** The inner loop of `reg_to_list` for one region: writes 1 at every index of
      `lo .. hi - 1` into `buf`, or into the all `-1` buffer that replaces it once an
      index falls outside. */
  method MarkRangeInPlace(buf: array<int>, lo: int, hi: int) returns (out: array<int>)
    modifies buf
    ensures out == buf || fresh(out)
    ensures out[..] == MarkRange(old(buf[..]), lo, hi)
  {
    out := buf;
    var i := lo;
    while i < hi
      invariant out == buf || fresh(out)
      invariant out.Length == buf.Length
      invariant i == lo || lo < i <= hi
      invariant out[..] == MarkRange(old(buf[..]), lo, i)
    {
      if -out.Length <= i < out.Length {
        out[if i < 0 then out.Length + i else i] := 1;
      } else {
        out := new int[buf.Length](_ => -1);
        assert out[..] == Fill(-1, buf.Length);
      }
      i := i + 1;
    }
  }

  // ---------------------------------------------------------------------------
  // Properties

  /** `reg_to_list` always returns `length` cells, each 0, 1 or -1. */
  lemma RegToListShape(regions: Option<seq<Region>>, length: nat)
    ensures |RegToListSpec(regions, length)| == length
    ensures AllMarks(RegToListSpec(regions, length))
  {
    assert AllMarks(Fill(0, length));
  }

  /** A range whose indices all reach a cell (`-n <= lo` and `hi <= n`) never resets
      the list: it sets exactly the cells it reaches, possibly from the end, and
      leaves the rest as they were. */
  lemma {:induction false} MarkRangeInBounds(v: seq<int>, lo: int, hi: int, p: nat)
    requires -|v| <= lo && hi <= |v| && p < |v|
    ensures MarkRange(v, lo, hi)[p] ==
      if lo <= p < hi || lo <= p - |v| < hi then 1 else v[p]
    decreases hi - lo
  {
    if lo < hi {
      MarkRangeInBounds(v, lo, hi - 1, p);
    }
  }

  /** A region reaching past the end of the list (its last index `end - 1` is at
      least `length`) leaves all `-1`, whatever the list held before. */
  lemma OverrunResets(v: seq<int>, el: Region)
    requires el.start - 1 < el.end && el.end > |v|
    ensures MarkRegion(v, el) == Fill(-1, |v|)
  {
  }

  /** Region `el` covers cell `p` when the range `start - 1 .. end - 1` hits it. */
  predicate Covers(el: Region, p: int)
  {
    el.start - 1 <= p < el.end
  }

  /** With every region inside `1 <= start`, `end <= length`, a cell is 1 exactly when
      some region covers it, and 0 otherwise. */
  lemma {:induction false} InRangeRegions(regions: seq<Region>, length: nat, p: nat)
    requires forall j :: 0 <= j < |regions| ==> 1 <= regions[j].start && regions[j].end <= length
    requires p < length
    ensures RegToListSpec(Some(regions), length)[p] ==
      if exists j :: 0 <= j < |regions| && Covers(regions[j], p) then 1 else 0
  {
    if regions != [] {
      MarkRegionsInBounds(Fill(0, length), regions, p);
    }
  }

  /** Regions that stay inside the list set the cells they cover and leave the others. */
  lemma {:induction false} MarkRegionsInBounds(v: seq<int>, regions: seq<Region>, p: nat)
    requires forall j :: 0 <= j < |regions| ==> 1 <= regions[j].start && regions[j].end <= |v|
    requires p < |v|
    ensures MarkRegions(v, regions)[p] ==
      if exists j :: 0 <= j < |regions| && Covers(regions[j], p) then 1 else v[p]
  {
    if regions != [] {
      var init, last := regions[..|regions| - 1], regions[|regions| - 1];
      MarkRegionsInBounds(v, init, p);
      var w := MarkRegions(v, init);
      MarkRangeInBounds(w, last.start - 1, last.end, p);
      if exists j :: 0 <= j < |regions| && Covers(regions[j], p) {
        var j :| 0 <= j < |regions| && Covers(regions[j], p);
        if j < |regions| - 1 {
          assert Covers(init[j], p);
        }
      } else {
        forall j | 0 <= j < |init| ensures !Covers(init[j], p) {
          assert init[j] == regions[j];
        }
      }
    }
  }

  // ---------------------------------------------------------------------------
  // Worked examples

  /** `reg_to_list([(3, 5)], 6) == [0, 0, 1, 1, 1, 0]` */
  lemma ExampleInside()
    ensures RegToListSpec(Some([Region(3, 5)]), 6) == [0, 0, 1, 1, 1, 0]
  {
    var v := Fill(0, 6);
    assert MarkRange(v, 2, 3) == [0, 0, 1, 0, 0, 0];
    assert MarkRange(v, 2, 4) == [0, 0, 1, 1, 0, 0];
  }

  /** `reg_to_list([(5, 10)], 6)` is all -1. */
  lemma ExampleOverrun()
    ensures RegToListSpec(Some([Region(5, 10)]), 6) == [-1, -1, -1, -1, -1, -1]
  {
    OverrunResets(Fill(0, 6), Region(5, 10));
    assert MarkRegions(Fill(0, 6), [Region(5, 10)]) == MarkRegion(Fill(0, 6), Region(5, 10));
  }

  /** A region that comes after an overrun still writes 1 into the reset list:
      `reg_to_list([(5, 10), (1, 2)], 6) == [1, 1, -1, -1, -1, -1]`. */
  lemma ExampleWriteAfterReset()
    ensures RegToListSpec(Some([Region(5, 10), Region(1, 2)]), 6) == [1, 1, -1, -1, -1, -1]
  {
    var rs := [Region(5, 10), Region(1, 2)];
    ExampleOverrun();
    assert rs[..1] == [Region(5, 10)];
    var reset := MarkRegions(Fill(0, 6), rs[..1]);
    assert reset == Fill(-1, 6);
    assert MarkRange(reset, 0, 1) == [1, -1, -1, -1, -1, -1];
  }

  /** A start of 0 is not an error: index -1 writes the last cell,
      `reg_to_list([(0, 2)], 6) == [1, 1, 0, 0, 0, 1]`. */
  lemma ExampleStartZero()
    ensures RegToListSpec(Some([Region(0, 2)]), 6) == [1, 1, 0, 0, 0, 1]
  {
    var v := Fill(0, 6);
    assert MarkRange(v, -1, 0) == [0, 0, 0, 0, 0, 1];
    assert MarkRange(v, -1, 1) == [1, 0, 0, 0, 0, 1];
  }
}
