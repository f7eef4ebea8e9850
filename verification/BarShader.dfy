/** CBarShader: a bar's colours, kept as a map from positions to the colour that starts there. */
module BarShader {
  import opened Wrappers

  type Color = nat
  type Spans = map<nat, Color>

  datatype Range = Range(start: nat, end: nat, color: Color)

  function Least(s: set<nat>): (k: nat)
    requires s != {}
    ensures k in s && forall j :: j in s ==> k <= j
    decreases |s|
  {
    LeastExists(s);
    var x: nat :| x in s && forall y :: y in s ==> x <= y;
    x
  }

  lemma LeastOfTwo(s: set<nat>, x: nat, m: nat)
    requires x in s && m in s && forall y :: y in s && y != x ==> m <= y
    ensures exists l :: l in s && forall y :: y in s ==> l <= y
  {
    var l := if x <= m then x else m;
    assert l in s && forall y :: y in s ==> l <= y;
  }

  lemma {:induction false} LeastExists(s: set<nat>)
    requires s != {}
    ensures exists x :: x in s && forall y :: y in s ==> x <= y
    decreases |s|
  {
    var x :| x in s;
    var t := s - {x};
    if t == {} {
      assert s == {x};
    } else {
      LeastExists(t);
      var m :| m in t && forall y :: y in t ==> m <= y;
      assert forall y :: y in s && y != x ==> y in t;
      LeastOfTwo(s, x, m);
    }
  }

  function Greatest(s: set<nat>): (k: nat)
    requires s != {}
    ensures k in s && forall j :: j in s ==> j <= k
  {
    GreatestExists(s);
    var x: nat :| x in s && forall y :: y in s ==> y <= x;
    x
  }

  lemma GreatestOfTwo(s: set<nat>, x: nat, m: nat)
    requires x in s && m in s && forall y :: y in s && y != x ==> y <= m
    ensures exists g :: g in s && forall y :: y in s ==> y <= g
  {
    var g := if x >= m then x else m;
    assert g in s && forall y :: y in s ==> y <= g;
  }

  lemma {:induction false} GreatestExists(s: set<nat>)
    requires s != {}
    ensures exists x :: x in s && forall y :: y in s ==> y <= x
    decreases |s|
  {
    var x :| x in s;
    var t := s - {x};
    if t == {} {
      assert s == {x};
    } else {
      GreatestExists(t);
      var m :| m in t && forall y :: y in t ==> y <= m;
      assert forall y :: y in s && y != x ==> y in t;
      GreatestOfTwo(s, x, m);
    }
  }

  /** CRBMap::FindFirstKeyAfter, as the code uses it: the first key that is at least k. */
  function FirstKeyFrom(m: Spans, k: nat): (pos: Option<nat>)
    ensures pos.None? ==> forall j :: j in m ==> j < k
    ensures pos.Some? ==> pos.value in m && k <= pos.value && forall j :: j in m && k <= j ==> pos.value <= j
  {
    var s := set j | j in m && k <= j;
    assert forall j :: j in m && k <= j ==> j in s;
    if s == {} then None else Some(Least(s))
  }

  /** CRBMap::GetPrev: the last key before k. */
  function LastKeyBefore(m: Spans, k: nat): (pos: Option<nat>)
    ensures pos.None? ==> forall j :: j in m ==> k <= j
    ensures pos.Some? ==> pos.value in m && pos.value < k && forall j :: j in m && j < k ==> j <= pos.value
  {
    var s := set j | j in m && j < k;
    assert forall j :: j in m && j < k ==> j in s;
    if s == {} then None else Some(Greatest(s))
  }

  /** The colour shown for byte b: the one that starts at the last key up to b. */
  function ColorAt(m: Spans, b: nat): Color
    requires 0 in m
  {
    m[LastKeyBefore(m, b + 1).value]
  }

  /** The colour at b is the one stored at any key that is the last up to b. */
  lemma ColorStartsAt(m: Spans, b: nat, k: nat)
    requires 0 in m && k in m && k <= b
    requires forall j :: j in m && j <= b ==> j <= k
    ensures ColorAt(m, b) == m[k]
  {
  }

  // ----- what a fill does -----

  /** The map after filling start..end, end being inside the file and after start. */
  function Filled(m: Spans, r: Range): Spans
    requires 0 in m && r.start < r.end
  {
    map k | k in m.Keys + {r.start, r.end} &&
            (k < r.start || k >= r.end || (k == r.start && (k in m || ColorAt(m, k) != r.color)))
      :: if k == r.end then ColorAt(m, k) else if k == r.start then r.color else m[k]
  }

  /** One call of FillRange at file size size. */
  function FillStep(m: Spans, size: nat, r: Range): Spans
    requires 0 in m
  {
    var end := if r.end > size then size else r.end;
    if r.start >= end then m else Filled(m, r.(end := end))
  }

  class CBarShader {
    var fileSize: nat
    var spans: Spans

    constructor ()
      ensures fileSize == 1 && spans == map[0 := 0]
    {
      fileSize := 1;
      spans := map[0 := 0];
    }

    method SetFileSize(size: nat)
      modifies this
      ensures fileSize == size && spans == old(spans)
    {
      fileSize := size;
    }

    /** Colours the whole bar and ends it with colour 0 at the file size. */
    method Fill(color: Color)
      modifies this
      ensures fileSize == old(fileSize) && spans == map[0 := color][fileSize := 0]
    {
      spans := map[];
      spans := spans[0 := color];
      spans := spans[fileSize := 0];
    }

    method FillRange(start: nat, rangeEnd: nat, color: Color)
      requires 0 in spans
      modifies this`spans
      ensures spans == FillStep(old(spans), fileSize, Range(start, rangeEnd, color))
    {
      var end := rangeEnd;
      if end > fileSize {
        end := fileSize;
      }
      if start >= end {
        return;
      }
      // the colour that goes on behind the range
      var after := FirstKeyFrom(spans, end + 1);
      var endpos := if after.Some? then LastKeyBefore(spans, after.value).value else Greatest(spans.Keys);
      ColorStartsAt(spans, end, endpos);
      spans := spans[end := spans[endpos]];

      RemoveBetween(start, end);

      assert 0 in spans;
      var prev := LastKeyBefore(spans, end).value;
      ClosesRange(old(spans), spans, Range(start, end, color), prev);
      if spans[prev] != color {
        spans := spans[start := color];
      }
    }

    /** The loop of FillRange: removes the keys between start and end. */
    method RemoveBetween(start: nat, end: nat)
      requires end in spans && start < end
      modifies this`spans
      ensures spans == Without(old(spans), start, end)
    {
      ghost var m := spans;
      var pos := FirstKeyFrom(spans, start + 1);
      while pos != None && pos != Some(end)
        invariant end in spans && pos.Some? && start < pos.value <= end
        invariant forall k :: k in spans <==> k in m && !(start < k < pos.value)
        invariant forall k :: k in spans ==> spans[k] == m[k]
        decreases end - pos.value
      {
        var pos1 := pos.value;
        pos := FirstKeyFrom(spans, pos1 + 1);
        spans := spans - {pos1};
      }
    }
  }

  function Without(m: Spans, start: nat, end: nat): Spans {
    map k | k in m && !(start < k < end) :: m[k]
  }

  /** Colouring the start, unless its colour is already the right one, completes the fill. */
  lemma ClosesRange(m: Spans, m': Spans, r: Range, prev: nat)
    requires 0 in m && r.start < r.end
    requires m' == Without(m[r.end := ColorAt(m, r.end)], r.start, r.end)
    requires LastKeyBefore(m', r.end) == Some(prev)
    ensures Filled(m, r) == if m'[prev] != r.color then m'[r.start := r.color] else m'
  {
    assert prev <= r.start && prev in m;
    forall j | j in m && j <= r.start ensures j <= prev {
      assert j in m';
    }
    ColorStartsAt(m, r.start, prev);
  }

  // ----- what the bar shows -----

  /** Exactly the bytes of the range change colour, and they all take the new one. */
  lemma FillStepColors(m: Spans, size: nat, r: Range, b: nat)
    requires 0 in m
    ensures 0 in FillStep(m, size, r)
    ensures ColorAt(FillStep(m, size, r), b) ==
      if r.start <= b < r.end && b < size then r.color else ColorAt(m, b)
  {
    var end := if r.end > size then size else r.end;
    if r.start < end {
      var m' := FillStep(m, size, r);
      assert 0 in m' && end in m';
      var k := LastKeyBefore(m, b + 1).value;
      if b < r.start {
        ColorStartsAt(m', b, k);
      } else if b < end {
        if r.start in m' {
          ColorStartsAt(m', b, r.start);
        } else {
          var s := LastKeyBefore(m, r.start + 1).value;
          ColorStartsAt(m', b, s);
        }
      } else if k >= end {
        ColorStartsAt(m', b, k);
      } else {
        ColorStartsAt(m', b, end);
        ColorStartsAt(m, end, k);
      }
    }
  }

  /** A fill leaves every key outside the range alone and adds at most its two ends. */
  lemma FillStepKeys(m: Spans, size: nat, r: Range)
    requires 0 in m
    ensures |FillStep(m, size, r)| <= |m| + 2
    ensures forall k :: k in FillStep(m, size, r) ==> k in m || k == r.start || k == r.end || k == size
  {
    var m' := FillStep(m, size, r);
    var end := if r.end > size then size else r.end;
    if r.start < end {
      assert m'.Keys <= m.Keys + {r.start} + {end};
      SubsetSize(m'.Keys, m.Keys + {r.start} + {end});
      assert |m.Keys + {r.start} + {end}| <= |m.Keys| + 2;
      assert |m'.Keys| == |m'| && |m.Keys| == |m|;
    }
  }

  lemma SubsetSize(a: set<nat>, b: set<nat>)
    requires a <= b
    ensures |a| <= |b|
  {
    assert b == a + (b - a);
  }

  /** The state between calls: key 0 is there, and so is the terminator once Fill has run. */
  predicate Terminated(m: Spans, size: nat) {
    0 in m && size in m && m[size] == 0 && forall k :: k in m ==> k <= size
  }

  lemma FillStepTerminated(m: Spans, size: nat, r: Range)
    requires Terminated(m, size)
    ensures Terminated(FillStep(m, size, r), size)
  {
    var end := if r.end > size then size else r.end;
    if r.start < end == size {
      assert LastKeyBefore(m, size + 1).value == size;
    }
  }

  function FillAll(m: Spans, size: nat, rs: seq<Range>): (m': Spans)
    requires 0 in m
    ensures 0 in m'
  {
    if rs == [] then m else
    var n := |rs| - 1;
    FillStepColors(FillAll(m, size, rs[..n]), size, rs[n], 0);
    FillStep(FillAll(m, size, rs[..n]), size, rs[n])
  }

  /** The colour of the last range that covers byte b, the background colour when none does. */
  function LastColor(rs: seq<Range>, b: nat, background: Color): Color {
    if rs == [] then background else
    var r := rs[|rs| - 1];
    if r.start <= b < r.end then r.color else LastColor(rs[..|rs| - 1], b, background)
  }

  /**
   Last writer wins: after Fill(c) and any fills at one file size, each byte of the file shows the
   last range covering it, the bar still ends in colour 0 at the file size, and the map has grown
   by at most two keys a call.
   */
  lemma {:induction false} LastWriterWins(size: nat, c: Color, rs: seq<Range>)
    ensures var m := FillAll(map[0 := c][size := 0], size, rs);
      && Terminated(m, size)
      && |m| <= 2 + 2 * |rs|
      && forall b :: 0 <= b < size ==> ColorAt(m, b) == LastColor(rs, b, c)
  {
    var m0 := map[0 := c][size := 0];
    if rs == [] {
    } else {
      var n := |rs| - 1;
      LastWriterWins(size, c, rs[..n]);
      var m := FillAll(m0, size, rs[..n]);
      FillStepTerminated(m, size, rs[n]);
      FillStepKeys(m, size, rs[n]);
      forall b | 0 <= b < size ensures ColorAt(FillAll(m0, size, rs), b) == LastColor(rs, b, c) {
        FillStepColors(m, size, rs[n], b);
      }
    }
  }

  /** A fill makes no change point where none was if the span to its left has the colour already. */
  lemma SameColorMakesNoKey(m: Spans, size: nat, r: Range)
    requires 0 in m && r.start !in m && ColorAt(m, r.start) == r.color
    requires r.start < r.end && r.start < size
    ensures r.start !in FillStep(m, size, r)
  {
  }
}
