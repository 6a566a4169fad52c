/** Border handling in its three forms: the index functions of the DSL
    (dsl/image.hpp), the statements emitted into GPU kernels
    (lib/AST/BorderHandling.cpp), and the window-index remap of the FPGA stream
    filters (runtime/hipacc_vivado_filter.hpp).  The DSL is the reference; the
    lemmas say exactly when the two others agree with it. */
module Borders {

  // ---------------------------------------------------------------- DSL reference

  function DslClamp(idx: int, lower: int, upper: int): int {
    var atLeast := if idx < lower then lower else idx;
    if upper - 1 < atLeast then upper - 1 else atLeast
  }

  function DslRepeat(idx: int, lower: int, upper: int): int {
    var i := if idx < lower then idx + (lower + upper) else idx;
    if i >= upper then i - (lower + upper) else i
  }

  function DslMirror(idx: int, lower: int, upper: int): int {
    var i := if idx < lower then lower + (lower - idx - 1) else idx;
    if i >= upper then upper - (i + 1 - upper) else i
  }

  datatype Mode = Clamp | Repeat | Mirror

  function DslIndex(mode: Mode, idx: int, lower: int, upper: int): int {
    match mode
    case Clamp => DslClamp(idx, lower, upper)
    case Repeat => DslRepeat(idx, lower, upper)
    case Mirror => DslMirror(idx, lower, upper)
  }

  // ---------------------------------------------------------- emitted statements

  function EmittedClampUpper(idx: int, upper: int): int { if idx >= upper then upper - 1 else idx }
  function EmittedClampLower(idx: int, lower: int): int { if idx < lower then lower else idx }
  function EmittedMirrorUpper(idx: int, upper: int): int { if idx >= upper then upper - (idx + 1 - upper) else idx }
  function EmittedMirrorLower(idx: int, lower: int): int { if idx < lower then lower + (lower - idx - 1) else idx }

  /** The value the emitted loop `while (idx >= upper) idx -= stride` leaves in idx. */
  function RepeatedDown(idx: int, upper: int, stride: int): int
    requires stride > 0
  {
    if idx < upper then idx else upper - stride + (idx - upper) % stride
  }

  /** The value the emitted loop `while (idx < lower) idx += stride` leaves in idx. */
  function RepeatedUp(idx: int, lower: int, stride: int): int
    requires stride > 0
  {
    if idx >= lower then idx else lower + (idx - lower) % stride
  }

  lemma SubtractStride(a: int, d: int)
    requires d > 0
    ensures (a - d) % d == a % d && (a + d) % d == a % d
  {
    var q, r := a / d, a % d;
    RemainderUnique(a - d, d, q - 1, r);
    RemainderUnique(a + d, d, q + 1, r);
  }

  lemma SmallMultiple(k: int, d: int)
    requires d > 0 && -d < k * d < d
    ensures k == 0
  {
    assert k >= 1 ==> k * d >= d;
    assert k <= -1 ==> k * d <= -d;
  }

  lemma RemainderUnique(a: int, d: int, q: int, r: int)
    requires d > 0 && 0 <= r < d && a == q * d + r
    ensures a / d == q && a % d == r
  {
    var q', r' := a / d, a % d;
    assert a == q' * d + r';
    assert (q - q') * d == r' - r;
    SmallMultiple(q - q', d);
  }

  lemma RepeatedDownStep(idx: int, upper: int, stride: int)
    requires stride > 0 && idx >= upper
    ensures RepeatedDown(idx - stride, upper, stride) == RepeatedDown(idx, upper, stride)
  {
    SubtractStride(idx - upper, stride);
    if idx - stride < upper {
      RemainderUnique(idx - upper, stride, 0, idx - upper);
    }
  }

  lemma RepeatedUpStep(idx: int, lower: int, stride: int)
    requires stride > 0 && idx < lower
    ensures RepeatedUp(idx + stride, lower, stride) == RepeatedUp(idx, lower, stride)
  {
    SubtractStride(idx - lower, stride);
    if idx + stride >= lower {
      RemainderUnique(idx - lower, stride, -1, idx + stride - lower);
    }
  }

  /** The emitted upper loop of REPEAT, with the accessor extent as stride: from any
      start it terminates below `upper`, on the same residue. */
  method EmittedRepeatUpper(start: int, upper: int, stride: int) returns (idx: int)
    requires stride > 0
    ensures idx < upper && (start < upper ==> idx == start) && (start >= upper ==> upper - stride <= idx)
    ensures idx == RepeatedDown(start, upper, stride)
  {
    hide RepeatedDown;
    idx := start;
    while idx >= upper
      invariant idx <= start && (idx < start ==> upper - stride <= idx) && (start < upper ==> idx == start)
      invariant RepeatedDown(idx, upper, stride) == RepeatedDown(start, upper, stride)
    {
      RepeatedDownStep(idx, upper, stride);
      idx := idx - stride;
    }
    assert RepeatedDown(idx, upper, stride) == idx by { RepeatStops(idx, upper, stride); }
  }

  /** The emitted lower loop of REPEAT. */
  method EmittedRepeatLower(start: int, lower: int, stride: int) returns (idx: int)
    requires stride > 0
    ensures idx >= lower && (start >= lower ==> idx == start) && (start < lower ==> idx < lower + stride)
    ensures idx == RepeatedUp(start, lower, stride)
  {
    hide RepeatedUp;
    idx := start;
    while idx < lower
      invariant start <= idx && (start < idx ==> idx < lower + stride) && (start >= lower ==> idx == start)
      invariant RepeatedUp(idx, lower, stride) == RepeatedUp(start, lower, stride)
      decreases lower - idx
    {
      RepeatedUpStep(idx, lower, stride);
      idx := idx + stride;
    }
    assert RepeatedUp(idx, lower, stride) == idx by { RepeatStops(idx, lower, stride); }
  }

  lemma RepeatStops(idx: int, bound: int, stride: int)
    requires stride > 0
    ensures idx < bound ==> RepeatedDown(idx, bound, stride) == idx
    ensures idx >= bound ==> RepeatedUp(idx, bound, stride) == idx
  {
  }

  /** The index after the statements emitted by addBorderHandling for one dimension:
      the upper statement first, then the lower one, each only when the code variant
      includes that side. */
  function EmittedIndex(mode: Mode, handleUpper: bool, handleLower: bool, idx: int, lower: int, upper: int): int
    requires lower < upper
  {
    match mode
    case Clamp =>
      var i := if handleUpper then EmittedClampUpper(idx, upper) else idx;
      if handleLower then EmittedClampLower(i, lower) else i
    case Repeat =>
      var i := if handleUpper then RepeatedDown(idx, upper, upper - lower) else idx;
      if handleLower then RepeatedUp(i, lower, upper - lower) else i
    case Mirror =>
      var i := if handleUpper then EmittedMirrorUpper(idx, upper) else idx;
      if handleLower then EmittedMirrorLower(i, lower) else i
  }

  /** Leaving a side out of the code variant changes nothing exactly if the index does not cross
      it, before or, for MIRROR, after the reflection at the upper side. */
  lemma UncrossedSideIsRedundant(mode: Mode, handleUpper: bool, handleLower: bool, idx: int, lower: int, upper: int)
    requires lower < upper
    ensures EmittedIndex(mode, handleUpper, handleLower, idx, lower, upper)
         == EmittedIndex(mode, true, true, idx, lower, upper)
      <==> && (idx >= upper ==> handleUpper)
           && (idx < lower || (mode.Mirror? && idx >= 2 * upper - lower) ==> handleLower)
  {
    if mode.Repeat? && idx >= upper {
      assert RepeatedDown(idx, upper, upper - lower) >= upper - (upper - lower);
    }
  }

  /** With both sides handled the index lands inside, except under MIRROR more than one extent
      below or two extents above. */
  lemma LandsInsideIff(mode: Mode, idx: int, lower: int, upper: int)
    requires lower < upper
    ensures lower <= EmittedIndex(mode, true, true, idx, lower, upper) < upper
      <==> (mode.Mirror? ==> 2 * lower - upper <= idx < 3 * upper - 2 * lower)
  {
  }

  /** REPEAT with both sides handled: from any start the index lands inside the
      accessor and keeps its residue modulo the extent. */
  lemma RepeatWraps(idx: int, lower: int, upper: int)
    requires lower < upper
    ensures var r := EmittedIndex(Repeat, true, true, idx, lower, upper);
      lower <= r < upper && (r - idx) % (upper - lower) == 0
  {
    var d := upper - lower;
    if idx >= upper {
      SteppedRemainder(idx, upper - d, -1 - (idx - upper) / d, d, (idx - upper) % d);
    } else if idx < lower {
      SteppedRemainder(idx, lower, -((idx - lower) / d), d, (idx - lower) % d);
    } else {
      RemainderUnique(0, d, 0, 0);
    }
  }

  lemma SteppedRemainder(idx: int, base: int, k: int, d: int, m: int)
    requires d > 0 && idx + k * d == base + m
    ensures (base + m - idx) % d == 0
  {
    RemainderUnique(k * d, d, k, 0);
  }

  /** Emitted CLAMP always selects the DSL's pixel; emitted MIRROR does so exactly for
      indices at most one extent outside, because the two apply their sides in opposite
      orders and each reflects once per side. */
  lemma ClampAndMirrorAgreeWithDsl(idx: int, lower: int, upper: int)
    requires lower < upper
    ensures EmittedIndex(Clamp, true, true, idx, lower, upper) == DslClamp(idx, lower, upper)
    ensures EmittedIndex(Mirror, true, true, idx, lower, upper) == DslMirror(idx, lower, upper)
      <==> 2 * lower - upper <= idx < 2 * upper - lower
  {
  }

  /** The DSL's REPEAT moves by `lower + upper` instead of by the extent.  It selects the
      pixel of the emitted loops exactly in these cases; with a lower bound of 0 they
      cover every index less than one extent outside. */
  lemma RepeatAgreesWithDsl(idx: int, lower: int, upper: int)
    requires lower < upper
    ensures EmittedIndex(Repeat, true, true, idx, lower, upper) == DslRepeat(idx, lower, upper)
      <==> || lower <= idx < upper
           || ((2 * lower) % (upper - lower) == 0 && idx < lower && lower <= idx + (lower + upper) < upper)
           || ((2 * lower) % (upper - lower) == 0 && idx >= upper && lower <= idx - (lower + upper) < upper)
    ensures lower == 0 && -upper <= idx < 2 * upper ==>
      EmittedIndex(Repeat, true, true, idx, lower, upper) == DslRepeat(idx, lower, upper)
  {
    var d := upper - lower;
    var r := EmittedIndex(Repeat, true, true, idx, lower, upper);
    var s := DslRepeat(idx, lower, upper);
    RepeatWraps(idx, lower, upper);
    if idx < lower && lower <= idx + (lower + upper) < upper {
      // s == idx + d + 2*lower
      CongruentIff(r, s, lower, upper, idx, 2 * lower + d);
      SubtractStride(2 * lower, d);
    } else if idx >= upper && lower <= idx - (lower + upper) < upper {
      CongruentIff(r, s, lower, upper, idx, -2 * lower - d);
      NegatedRemainder(2 * lower + d, d);
      SubtractStride(2 * lower, d);
    }
    if lower == 0 {
      RemainderUnique(2 * lower, d, 0, 0);
    }
  }

  lemma NegatedRemainder(a: int, d: int)
    requires d > 0
    ensures (-a) % d == 0 <==> a % d == 0
  {
    if a % d == 0 { assert -a == (-(a / d)) * d; RemainderUnique(-a, d, -(a / d), 0); }
    if (-a) % d == 0 { assert a == (-((-a) / d)) * d; RemainderUnique(a, d, -((-a) / d), 0); }
  }

  /** Two indices inside one extent, of which r is congruent to idx and s == idx + shift. */
  lemma CongruentIff(r: int, s: int, lower: int, upper: int, idx: int, shift: int)
    requires lower <= r < upper && lower <= s < upper
    requires (r - idx) % (upper - lower) == 0 && s == idx + shift
    ensures r == s <==> shift % (upper - lower) == 0
  {
    var d := upper - lower;
    if shift % d == 0 {
      var a, b := (r - idx) / d, shift / d;
      assert r - s == (a - b) * d;
      SmallMultiple(a - b, d);
    }
  }

  // ------------------------------------------------------------- what a mode selects

  function Distance(a: int, b: int): nat { if a < b then b - a else a - b }

  /** r is the position of [lower, upper) that lies nearest to idx. */
  ghost predicate Nearest(r: int, idx: int, lower: int, upper: int) {
    lower <= r < upper && forall p :: lower <= p < upper ==> Distance(r, idx) <= Distance(p, idx)
  }

  /** The position that a mode is named for, in terms of the picture: clamping takes the nearest
      one, mirroring reflects at the edge between the border pixel and its copy, repeating moves
      by whole extents. */
  ghost predicate Selects(mode: Mode, r: int, idx: int, lower: int, upper: int)
    requires lower < upper
  {
    && lower <= r < upper
    && match mode
       case Clamp => Nearest(r, idx, lower, upper)
       case Repeat => (r - idx) % (upper - lower) == 0
       case Mirror => if idx < lower then r + idx == 2 * lower - 1 else if idx < upper then r == idx
                      else r + idx == 2 * upper - 1
  }

  /** Only one position is selected, and inside it is the index itself. */
  lemma SelectedIsUnique(mode: Mode, r: int, s: int, idx: int, lower: int, upper: int)
    requires lower < upper && Selects(mode, r, idx, lower, upper) && Selects(mode, s, idx, lower, upper)
    ensures r == s && (lower <= idx < upper ==> r == idx)
  {
    match mode
    case Clamp => NearestIsUnique(r, s, idx, lower, upper);
    case Mirror =>
    case Repeat => CongruentIsUnique(r, s, idx, lower, upper);
  }

  lemma NearestIsUnique(r: int, s: int, idx: int, lower: int, upper: int)
    requires Nearest(r, idx, lower, upper) && Nearest(s, idx, lower, upper)
    ensures r == s && (lower <= idx < upper ==> r == idx)
  {
    if lower <= idx < upper {
      assert Distance(r, idx) <= Distance(idx, idx) && Distance(s, idx) <= Distance(idx, idx);
    } else {
      assert Distance(r, idx) <= Distance(s, idx) && Distance(s, idx) <= Distance(r, idx);
    }
  }

  lemma CongruentIsUnique(r: int, s: int, idx: int, lower: int, upper: int)
    requires lower <= r < upper && lower <= s < upper
    requires (r - idx) % (upper - lower) == 0 && (s - idx) % (upper - lower) == 0
    ensures r == s && (lower <= idx < upper ==> r == idx)
  {
    var d := upper - lower;
    var a, b := (r - idx) / d, (s - idx) / d;
    assert r - s == (a - b) * d;
    SmallMultiple(a - b, d);
    if lower <= idx < upper { SmallMultiple(a, d); }
  }

  /** The emitted statements select that position: always for CLAMP and REPEAT, and for MIRROR
      exactly up to one extent outside. */
  lemma EmittedSelectsIff(mode: Mode, idx: int, lower: int, upper: int)
    requires lower < upper
    ensures Selects(mode, EmittedIndex(mode, true, true, idx, lower, upper), idx, lower, upper)
      <==> (mode.Mirror? ==> 2 * lower - upper <= idx < 2 * upper - lower)
  {
    if mode.Repeat? { RepeatWraps(idx, lower, upper); }
  }

  /** So does the DSL, except that its `repeat` moves by `lower + upper`. */
  lemma DslSelectsIff(mode: Mode, idx: int, lower: int, upper: int)
    requires lower < upper
    ensures Selects(mode, DslIndex(mode, idx, lower, upper), idx, lower, upper)
      <==> match mode
           case Clamp => true
           case Mirror => 2 * lower - upper <= idx < 2 * upper - lower
           case Repeat => DslRepeat(idx, lower, upper) == EmittedIndex(Repeat, true, true, idx, lower, upper)
    ensures mode.Repeat? && lower == 0 && -upper <= idx < 2 * upper ==>
      Selects(mode, DslIndex(mode, idx, lower, upper), idx, lower, upper)
  {
    if mode.Repeat? {
      RepeatWraps(idx, lower, upper);
      RepeatAgreesWithDsl(idx, lower, upper);
      hide EmittedIndex;
      if Selects(mode, DslIndex(mode, idx, lower, upper), idx, lower, upper) {
        SelectedIsUnique(mode, DslIndex(mode, idx, lower, upper), EmittedIndex(Repeat, true, true, idx, lower, upper),
                         idx, lower, upper);
      }
    }
  }

  // ------------------------------------------------------ stream filter window remap

  datatype Padding = PadConst | PadClamp | PadMirror | PadMirror101

  /** Which window column (row) stands in for column (row) i when the raw loop counter is
      `col`; -1 means "no pixel". */
  function GetNewCoords(i: int, kernel: int, offset: int, col: int, width: int, padding: Padding): int {
    if col >= offset && col < kernel - 1 then
      var border := kernel - 1 - col;
      if i >= border then i
      else
        var d2b := border - i;
        match padding
        case PadClamp => border
        case PadMirror => border + d2b - 1
        case PadMirror101 => border + d2b
        case PadConst => -1
    else if col >= width then
      var overlap := col - (width - 1);
      var border := kernel - overlap - 1;
      if i <= border then i
      else
        var d2b := i - border;
        match padding
        case PadClamp => border
        case PadMirror => border - d2b + 1
        case PadMirror101 => border - d2b
        case PadConst => -1
    else i
  }

  /** The image coordinate that border padding selects for coordinate c of an axis with n
      pixels.  CLAMP and MIRROR are the DSL's; MIRROR_101 reflects without repeating the
      border pixel; constant padding selects none outside the axis. */
  function Pad(padding: Padding, c: int, n: int): int {
    match padding
    case PadClamp => DslClamp(c, 0, n)
    case PadMirror => DslMirror(c, 0, n)
    case PadMirror101 => if c < 0 then -c else if c >= n then 2 * (n - 1) - c else c
    case PadConst => if 0 <= c < n then c else -1
  }

  /** Inside the axis padding changes nothing.  Outside, CLAMP takes the nearest pixel, MIRROR
      reflects between the border pixel and its copy, MIRROR_101 at the border pixel itself. */
  lemma PadLaws(n: int, c: int)
    requires n >= 1
    ensures forall padding: Padding :: 0 <= c < n ==> Pad(padding, c, n) == c
    ensures Nearest(Pad(PadClamp, c, n), c, 0, n)
    ensures 0 <= c < n ==>
      && Pad(PadMirror, -1 - c, n) == Pad(PadMirror, c, n) && Pad(PadMirror, n + c, n) == Pad(PadMirror, n - 1 - c, n)
    ensures 0 <= c < n ==>
      && Pad(PadMirror101, -c, n) == Pad(PadMirror101, c, n)
      && Pad(PadMirror101, n - 1 + c, n) == Pad(PadMirror101, n - 1 - c, n)
    ensures !(0 <= c < n) ==> Pad(PadConst, c, n) == -1
  {
  }

  /** Window slot i at loop counter `col` holds image coordinate col - (kernel-1) + i;
      the remap is right when the slot it names holds the padded coordinate. */
  predicate SelectsPadded(i: int, kernel: int, col: int, width: int, padding: Padding) {
    var slot := GetNewCoords(i, kernel, kernel / 2, col, width, padding);
    && 0 <= slot < kernel
    && 0 <= col - (kernel - 1) + slot < width
    && col - (kernel - 1) + slot == Pad(padding, col - (kernel - 1) + i, width)
  }

  lemma RemapSelectsPadded(i: int, kernel: int, col: int, width: int, padding: Padding)
    requires kernel % 2 == 1 && kernel >= 1 && 0 <= i < kernel
    requires width >= 1 && width >= kernel - 1
    requires kernel / 2 <= col < width + kernel / 2
    requires padding.PadConst? ==> kernel == 1
    ensures SelectsPadded(i, kernel, col, width, padding)
  {
  }

  /** How far past the last output position of an image the remap still names window slots. */
  function Slack(kernel: nat, padding: Padding): nat { if padding.PadClamp? then kernel / 2 else 0 }

  /** The loop positions of a filter at which the remap names window slots. */
  predicate Remappable(kernel: nat, col: nat, width: nat, padding: Padding) {
    && kernel % 2 == 1 && width >= 1 && width >= kernel - 1
    && col < width + kernel / 2 + Slack(kernel, padding)
    && (padding.PadConst? ==> kernel == 1)
  }

  /** Every step, including those that only fill the window: the remap names a window slot,
      and naming it again changes nothing, so the Y pass may run in place. */
  lemma RemapIsIdempotent(i: int, kernel: nat, col: nat, width: nat, padding: Padding)
    requires Remappable(kernel, col, width, padding) && 0 <= i < kernel
    ensures var slot := GetNewCoords(i, kernel, kernel / 2, col, width, padding);
      0 <= slot < kernel && GetNewCoords(slot, kernel, kernel / 2, col, width, padding) == slot
  {
  }

  /** GetNewCoords as called by the filters, with half the kernel as offset. */
  function Slot(i: nat, kernel: nat, col: nat, width: nat, padding: Padding): (slot: nat)
    requires Remappable(kernel, col, width, padding) && i < kernel
    ensures slot < kernel
  {
    GetNewCoords(i, kernel, kernel / 2, col, width, padding)
  }

  ghost predicate RemapIsFaithful(kernel: int, width: int, padding: Padding) {
    forall col, i :: kernel / 2 <= col < width + kernel / 2 && 0 <= i < kernel ==>
      SelectsPadded(i, kernel, col, width, padding)
  }

  /** The remap realises border padding at every output position exactly when the image
      spans the window but for one pixel and padding is not constant.  For a narrower image
      the left branch captures positions that also exceed the right border. */
  lemma RemapIsFaithfulIff(kernel: int, width: int, padding: Padding)
    requires kernel % 2 == 1 && kernel >= 1 && width >= 1
    ensures RemapIsFaithful(kernel, width, padding)
      <==> width >= kernel - 1 && (padding.PadConst? ==> kernel == 1)
  {
    if width >= kernel - 1 && (padding.PadConst? ==> kernel == 1) {
      forall col, i | kernel / 2 <= col < width + kernel / 2 && 0 <= i < kernel
        ensures SelectsPadded(i, kernel, col, width, padding)
      {
        RemapSelectsPadded(i, kernel, col, width, padding);
      }
    } else if width < kernel - 1 {
      var col := if width < kernel / 2 then kernel / 2 else width;
      assert !SelectsPadded(kernel - 1, kernel, col, width, padding);
    } else {
      assert !SelectsPadded(0, kernel, kernel / 2, width, padding);
    }
  }

  /** Every slot the remap names while the filters' loops run over the template width is inside
      the window. */
  ghost predicate RemapStaysInside(kernel: nat, maxWidth: nat, width: int, padding: Padding) {
    forall i, col :: 0 <= i < kernel && 0 <= col < maxWidth + kernel / 2 ==>
      0 <= GetNewCoords(i, kernel, kernel / 2, col, width, padding) < kernel
  }

  /** Past the run-time width the remap leaves the window at once when mirroring, and after half
      a kernel when clamping: the filters need images of the template's width. */
  lemma RemapStaysInsideIff(kernel: nat, maxWidth: nat, width: nat, padding: Padding)
    requires kernel % 2 == 1 && kernel >= 1 && 1 <= width <= maxWidth && width >= kernel - 1 && !padding.PadConst?
    ensures RemapStaysInside(kernel, maxWidth, width, padding)
      <==> maxWidth - width <= Slack(kernel, padding)
  {
    if maxWidth - width > Slack(kernel, padding) {
      var col := if padding.PadClamp? then width - 1 + kernel else width + kernel / 2;
      assert GetNewCoords(kernel - 1, kernel, kernel / 2, col, width, padding) < 0;
    }
  }
}
