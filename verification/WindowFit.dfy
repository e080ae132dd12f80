/** Fitting the window to the frame's aspect ratio (src/ui/screen.cpp). */
module WindowFit {
  import opened Common

  function Min(a: uint16, b: uint16): uint16 {
    if a < b then a else b
  }

  /** The size to start from; `display` is absent when SDL cannot tell the display bounds. */
  function Bounded(current: Size, display: Option<Size>): Size {
    match display
    case None => current
    case Some(d) => Size(Min(current.width, d.width), Min(current.height, d.height))
  }

  predicate Within(a: Size, b: Size) {
    a.width <= b.width && a.height <= b.height
  }

  /** `a` has exactly the aspect ratio of `frame`. */
  predicate ExactRatio(a: Size, frame: Size) {
    frame.width * a.height == frame.height * a.width
  }

  predicate NonZero(size: Size) {
    size.width != 0 && size.height != 0
  }

  // Linear facts about products and quotients.

  lemma MulMonotone(k: nat, a: nat, b: nat)
    requires a <= b
    ensures k * a <= k * b
  {
  }

  lemma MulStrict(k: nat, a: nat, b: nat)
    requires k > 0 && a < b
    ensures k * a + k <= k * b
  {
    MulMonotone(k, a + 1, b);
  }

  lemma DivBounds(n: nat, d: nat)
    requires d > 0
    ensures d * (n / d) <= n < d * (n / d) + d
  {
  }

  lemma DivAtMost(n: nat, d: nat, bound: nat)
    requires d > 0 && n <= d * bound
    ensures n / d <= bound
  {
    DivBounds(n, d);
    if n / d > bound {
      MulStrict(d, bound, n / d);
    }
  }

  /** The 32-bit product of two 16-bit sizes does not wrap. */
  lemma ProductFits(a: uint16, b: uint16)
    ensures 0 <= a * b < 0x1_0000_0000
  {
    MulMonotone(a, b, 0xffff);
  }

  /** side * num / den in 32 bits, where the border-free size is no larger than `other`: so it fits 16 bits. */
  function Fitted(side: uint16, num: uint16, den: uint16, other: uint16): (r: uint16)
    requires den > 0 && num * side <= den * other
    ensures den * r <= num * side < den * r + den && r <= other
  {
    ProductFits(num, side);
    var product: uint32 := num * side;
    DivBounds(product, den);
    DivAtMost(product, den, other);
    product / den
  }

  function GetOptimalSize(current: Size, frame: Size, display: Option<Size>): Size {
    if !NonZero(frame) then current
    else
      var b := Bounded(current, display);
      if frame.width * b.height > frame.height * b.width then
        Size(b.width, Fitted(b.width, frame.height, frame.width, b.height))
      else
        Size(Fitted(b.height, frame.width, frame.height, b.width), b.height)
  }

  // ---------- One application ----------

  /** The fit stays within the bounds and keeps one side; the other is the largest that leaves no border along the first. */
  lemma FitIsTight(current: Size, frame: Size, display: Option<Size>)
    requires NonZero(frame)
    ensures var b, r := Bounded(current, display), GetOptimalSize(current, frame, display);
            && Within(r, b)
            && (|| (r.width == b.width
                    && frame.width * r.height <= frame.height * r.width < frame.width * r.height + frame.width)
                || (r.height == b.height
                    && frame.height * r.width <= frame.width * r.height < frame.height * r.width + frame.height))
  {
  }

  /** The fit is inside the display, where SDL can tell its bounds, and never larger than the window; it keeps a side of one or the other. */
  lemma FitsTheDisplay(s: Size, frame: Size, d: Size)
    requires NonZero(frame)
    ensures var r := GetOptimalSize(s, frame, Some(d));
            && Within(r, d) && Within(r, s)
            && (r.width == s.width || r.width == d.width || r.height == s.height || r.height == d.height)
    ensures forall a | ExactRatio(a, frame) && Within(a, d) && Within(a, s) :: Within(a, GetOptimalSize(s, frame, Some(d)))
    ensures var r := GetOptimalSize(s, frame, None); Within(r, s) && (r.width == s.width || r.height == s.height)
    ensures forall a | ExactRatio(a, frame) && Within(a, s) :: Within(a, GetOptimalSize(s, frame, None))
  {
    FitIsTight(s, frame, Some(d));
    FitIsTight(s, frame, None);
    forall a | ExactRatio(a, frame) && Within(a, s)
      ensures Within(a, GetOptimalSize(s, frame, None))
      ensures Within(a, d) ==> Within(a, GetOptimalSize(s, frame, Some(d)))
    {
      ExactSizesStayBelow(a, s, frame, None);
      if Within(a, d) {
        ExactSizesStayBelow(a, s, frame, Some(d));
      }
    }
  }

  /** A frame without a side leaves the size alone. */
  lemma NoFrameNoFit(s: Size, frame: Size, display: Option<Size>)
    ensures !NonZero(frame) ==> GetOptimalSize(s, frame, display) == s
  {
  }

  /** No size of the frame's exact ratio that fits is cut off. */
  lemma ExactSizesStayBelow(a: Size, current: Size, frame: Size, display: Option<Size>)
    requires NonZero(frame) && ExactRatio(a, frame) && Within(a, Bounded(current, display))
    ensures Within(a, GetOptimalSize(current, frame, display))
  {
    var b, r := Bounded(current, display), GetOptimalSize(current, frame, display);
    if frame.width * b.height > frame.height * b.width {
      MulMonotone(frame.height, a.width, b.width);
      if a.height > r.height {
        MulStrict(frame.width, r.height, a.height);
      }
    } else {
      MulMonotone(frame.width, a.height, b.height);
      if a.width > r.width {
        MulStrict(frame.height, r.width, a.width);
      }
    }
  }

  /** A size is left as it is exactly when it is in bounds and of the exact ratio. */
  lemma FixedIffExact(s: Size, frame: Size, display: Option<Size>)
    requires NonZero(frame)
    ensures GetOptimalSize(s, frame, display) == s <==> Within(s, Bounded(s, display)) && ExactRatio(s, frame)
  {
    var b := Bounded(s, display);
    FitIsTight(s, frame, display);
    if Within(s, b) {
      assert b == s;
      if ExactRatio(s, frame) {
        ExactSizesStayBelow(s, s, frame, display);
      }
    }
  }

  /** The division made by the fit leaves no remainder. */
  predicate DividesEvenly(b: Size, frame: Size)
    requires NonZero(frame)
  {
    if frame.width * b.height > frame.height * b.width then frame.height * b.width % frame.width == 0
    else frame.width * b.height % frame.height == 0
  }

  lemma EvenIffProduct(n: nat, d: nat)
    requires d > 0
    ensures n % d == 0 <==> d * (n / d) == n
  {
  }

  /** When a second fit changes nothing: exactly when the first one divides evenly. */
  lemma IdempotentIffEven(s: Size, frame: Size, display: Option<Size>)
    requires NonZero(frame)
    ensures var r := GetOptimalSize(s, frame, display);
            GetOptimalSize(r, frame, display) == r <==> DividesEvenly(Bounded(s, display), frame)
  {
    var b, r := Bounded(s, display), GetOptimalSize(s, frame, display);
    FitIsTight(s, frame, display);
    FixedIffExact(r, frame, display);
    assert Within(r, Bounded(r, display));
    ProductFits(frame.height, b.width);
    ProductFits(frame.width, b.height);
    if frame.width * b.height > frame.height * b.width {
      EvenIffProduct(frame.height * b.width, frame.width);
    } else {
      EvenIffProduct(frame.width * b.height, frame.height);
    }
  }

  // ---------- Repeated application ----------

  /** Where pressing "resize to fit" again and again leads. */
  function Settled(s: Size, frame: Size, display: Option<Size>): Size
    requires NonZero(frame)
    decreases s.width + s.height
  {
    var r := GetOptimalSize(s, frame, display);
    FitIsTight(s, frame, display);
    if r == s then s else Settled(r, frame, display)
  }

  /** It leads to the largest size of the exact ratio that fits. */
  lemma {:induction false} SettlesOnGreatestExact(s: Size, frame: Size, display: Option<Size>)
    requires NonZero(frame)
    ensures var limit := Settled(s, frame, display);
            ExactRatio(limit, frame) && Within(limit, Bounded(s, display))
    ensures forall a | ExactRatio(a, frame) && Within(a, Bounded(s, display)) :: Within(a, Settled(s, frame, display))
    decreases s.width + s.height
  {
    var r := GetOptimalSize(s, frame, display);
    FitIsTight(s, frame, display);
    FixedIffExact(s, frame, display);
    if r == s {
    } else {
      SettlesOnGreatestExact(r, frame, display);
      forall a | ExactRatio(a, frame) && Within(a, Bounded(s, display))
        ensures Within(a, Settled(s, frame, display))
      {
        ExactSizesStayBelow(a, s, frame, display);
        assert Within(a, Bounded(r, display));
      }
    }
  }

  /** The smallest size of the exact ratio, of which all others are multiples. */
  ghost predicate IsUnit(u: Size, frame: Size) {
    && u.width > 0 && ExactRatio(u, frame)
    && forall a: Size | a.width > 0 && ExactRatio(a, frame) :: u.width <= a.width
  }

  lemma {:induction false} UnitExists(frame: Size, candidate: Size) returns (u: Size)
    requires candidate.width > 0 && ExactRatio(candidate, frame)
    ensures IsUnit(u, frame)
    decreases candidate.width
  {
    if a: Size :| a.width > 0 && ExactRatio(a, frame) && a.width < candidate.width {
      u := UnitExists(frame, a);
    } else {
      u := candidate;
    }
  }

  /** Taking a multiple of one size of the exact ratio off another leaves a size of that ratio. */
  lemma ExactDifference(a: Size, u: Size, frame: Size, m: nat)
    requires NonZero(frame) && ExactRatio(a, frame) && ExactRatio(u, frame)
    ensures frame.width * (a.height - m * u.height) == frame.height * (a.width - m * u.width)
  {
    calc {
      frame.width * (a.height - m * u.height);
      frame.width * a.height - m * (frame.width * u.height);
      frame.height * a.width - m * (frame.height * u.width);
      frame.height * (a.width - m * u.width);
    }
  }

  lemma SameSign(a: nat, x: int, b: nat, y: nat)
    requires a > 0 && b > 0 && a * x == b * y
    ensures x >= 0 && (y == 0 <==> x == 0)
  {
    MulMonotone(b, 0, y);
    if x < 0 {
      MulStrict(a, 0, -x);
    } else if x > 0 {
      MulStrict(a, 0, x);
    } else if y > 0 {
      MulStrict(b, 0, y);
    }
  }

  lemma RestVanishes(u: Size, frame: Size, restW: nat, restH: int)
    requires NonZero(frame) && IsUnit(u, frame)
    requires frame.width * restH == frame.height * restW
    requires restW < u.width && restH < 0x1_0000
    ensures restW == 0 && restH == 0
  {
    SameSign(frame.width, restH, frame.height, restW);
    if restW > 0 {
      assert ExactRatio(Size(restW, restH), frame);
    }
  }

  lemma WholeUnits(n: nat, d: nat) returns (m: nat)
    requires d > 0
    ensures m * d <= n < m * d + d
  {
    m := n / d;
    DivBounds(n, d);
    assert m * d == d * m;
  }

  lemma ExactIsMultiple(a: Size, u: Size, frame: Size) returns (m: nat)
    requires NonZero(frame) && IsUnit(u, frame) && ExactRatio(a, frame)
    ensures a.width == m * u.width && a.height == m * u.height
  {
    m := WholeUnits(a.width, u.width);
    ExactDifference(a, u, frame, m);
    MulMonotone(m, 0, u.height);
    RestVanishes(u, frame, a.width - m * u.width, a.height - m * u.height);
  }

  lemma UnitIsNonZero(u: Size, frame: Size)
    requires NonZero(frame) && IsUnit(u, frame)
    ensures u.height > 0
  {
    SameSign(frame.width, u.height, frame.height, u.width);
  }

  /** As many units as fit in `b` both ways. */
  function UnitsThatFit(b: Size, u: Size): nat
    requires u.width > 0 && u.height > 0
  {
    Min(b.width / u.width, b.height / u.height)
  }

  lemma UnitsFit(b: Size, u: Size, m: nat)
    requires u.width > 0 && u.height > 0
    ensures m * u.width <= b.width && m * u.height <= b.height <==> m <= UnitsThatFit(b, u)
  {
    AtMostDiv(b.width, u.width, m);
    AtMostDiv(b.height, u.height, m);
  }

  lemma AtMostDiv(n: nat, d: nat, m: nat)
    requires d > 0
    ensures m * d <= n <==> m <= n / d
  {
    DivBounds(n, d);
    if m <= n / d {
      MulMonotone(d, m, n / d);
    } else {
      MulStrict(d, n / d, m);
    }
  }

  /** In closed form: as many units as fit both ways; none, a window of size zero, when not one does. */
  lemma SettlesOnMultipleOfUnit(s: Size, frame: Size, display: Option<Size>, u: Size)
    requires NonZero(frame) && IsUnit(u, frame)
    ensures u.height > 0
    ensures var k := UnitsThatFit(Bounded(s, display), u);
            && Settled(s, frame, display).width == k * u.width
            && Settled(s, frame, display).height == k * u.height
  {
    UnitIsNonZero(u, frame);
    var b := Bounded(s, display);
    var k := UnitsThatFit(b, u);
    SettlesOnGreatestExact(s, frame, display);
    var m := ExactIsMultiple(Settled(s, frame, display), u, frame);
    UnitsFit(b, u, m);
    UnitsFit(b, u, k);
    var w, h := k * u.width, k * u.height;
    MultipleIsExact(u, frame, k);
    MulMonotone(k, 0, u.width);
    MulMonotone(k, 0, u.height);
    assert ExactRatio(Size(w, h), frame) && Within(Size(w, h), b);
    if m < k {
      MulStrict(u.width, m, k);
    }
  }

  lemma MultipleIsExact(u: Size, frame: Size, k: nat)
    requires ExactRatio(u, frame)
    ensures frame.width * (k * u.height) == frame.height * (k * u.width)
  {
    calc {
      frame.width * (k * u.height);
      k * (frame.width * u.height);
      k * (frame.height * u.width);
      frame.height * (k * u.width);
    }
  }

  // ---------- The window itself ----------

  /** SDL_SetWindowSize leaves the window as it is when asked for an empty side. */
  function Resized(window: Size, size: Size): Size {
    if NonZero(size) then size else window
  }

  /** Where pressing "resize to fit" again and again leaves the window. */
  function AtRest(window: Size, frame: Size, display: Option<Size>): Size
    requires NonZero(frame)
    decreases window.width + window.height
  {
    var next := Resized(window, GetOptimalSize(window, frame, display));
    FitIsTight(window, frame, display);
    if next == window then window else AtRest(next, frame, display)
  }

  lemma {:induction false} RestsWhereTheFitSettles(window: Size, frame: Size, display: Option<Size>)
    requires NonZero(window) && NonZero(frame)
    ensures var rest, settled := AtRest(window, frame, display), Settled(window, frame, display);
            && NonZero(rest)
            && if NonZero(settled) then rest == settled == GetOptimalSize(rest, frame, display)
               else !NonZero(GetOptimalSize(rest, frame, display))
    decreases window.width + window.height
  {
    var r := GetOptimalSize(window, frame, display);
    FitIsTight(window, frame, display);
    if r == window {
      assert Settled(window, frame, display) == window;
    } else if NonZero(r) {
      RestsWhereTheFitSettles(r, frame, display);
    } else {
      SettlesOnGreatestExact(r, frame, display);
    }
  }

  lemma PositiveIff(k: nat, d: nat)
    requires d > 0
    ensures k * d != 0 <==> k > 0
  {
    if k > 0 {
      MulMonotone(d, 1, k);
    }
  }

  /**
   Where one unit fits the window comes to rest without borders, on the size the fit settles on. Where
   none does it rests on a size the fit would still change, to one with an empty side.
   */
  lemma RestsWithoutBordersIffUnitFits(window: Size, frame: Size, display: Option<Size>, u: Size)
    requires NonZero(window) && NonZero(frame) && IsUnit(u, frame)
    ensures u.height > 0
    ensures var rest := AtRest(window, frame, display);
            && NonZero(rest)
            && if UnitsThatFit(Bounded(window, display), u) > 0
               then rest == Settled(window, frame, display) == GetOptimalSize(rest, frame, display)
               else !NonZero(GetOptimalSize(rest, frame, display))
  {
    RestsWhereTheFitSettles(window, frame, display);
    SettlesOnMultipleOfUnit(window, frame, display, u);
    var k := UnitsThatFit(Bounded(window, display), u);
    PositiveIff(k, u.width);
    PositiveIff(k, u.height);
  }

  /**
   The fit promises to crop borders. Applied again and again to a size smaller than the unit it crops
   everything, at the fourth time here; the window stops short of that, at a size with borders.
   */
  lemma SmallWindowKeepsBorders()
    ensures var frame := Size(3, 2);
            && GetOptimalSize(Size(2, 2), frame, None) == Size(2, 1)
            && GetOptimalSize(Size(2, 1), frame, None) == Size(1, 1)
            && GetOptimalSize(Size(1, 1), frame, None) == Size(1, 0)
            && GetOptimalSize(Size(1, 0), frame, None) == Size(0, 0)
            && Settled(Size(2, 2), frame, None) == Size(0, 0)
            && AtRest(Size(2, 2), frame, None) == Size(1, 1)
  {
    var frame := Size(3, 2);
    assert GetOptimalSize(Size(2, 2), frame, None) == Size(2, 1);
    assert GetOptimalSize(Size(2, 1), frame, None) == Size(1, 1);
    assert GetOptimalSize(Size(1, 1), frame, None) == Size(1, 0);
    assert GetOptimalSize(Size(1, 0), frame, None) == Size(0, 0);
    assert Settled(Size(1, 0), frame, None) == Size(0, 0);
    assert Settled(Size(1, 1), frame, None) == Size(0, 0);
    assert Settled(Size(2, 1), frame, None) == Size(0, 0);
    assert AtRest(Size(1, 1), frame, None) == Size(1, 1);
    assert AtRest(Size(2, 1), frame, None) == Size(1, 1);
  }
}
