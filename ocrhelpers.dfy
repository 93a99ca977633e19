/**
  The OCR tap helpers: the even-odd test that decides whether a tap lies
  inside a recognised word's corner points, and the clean-up of the
  recognised text before it is shown.  Coordinates are exact reals.
 */
module OcrHelpers {
  import opened Options
  import opened JsString

  /** One corner point of a recognised word, as the text recogniser reports it. */
  datatype Point = Point(x: real, y: real)

  // ---------------------------------------------------------------------------
  // Even-odd (ray casting) test
  // ---------------------------------------------------------------------------

  /**
    The x coordinate at which the line through `(xi, yi)` and `(xj, yj)`
    reaches height `y`; defined only for a non-horizontal edge.
   */
  function CrossingX(xi: real, yi: real, xj: real, yj: real, y: real): real
    requires yi != yj
  {
    (xj - xi) * (y - yi) / (yj - yi) + xi
  }

  /**
    Does the edge from `pi` to `pj` toggle the flag for the tap `(x, y)`?  The
    division is reached only when the edge straddles `y`, so its divisor is
    never zero, and a horizontal edge never toggles.
   */
  function EdgeToggles(x: real, y: real, pi: Point, pj: Point): (r: bool)
    ensures r ==> (pi.y > y) != (pj.y > y)
    ensures pi.y == pj.y ==> !r
  {
    (pi.y > y) != (pj.y > y) && x < CrossingX(pi.x, pi.y, pj.x, pj.y, y)
  }

  /** The index that trails `i` around a box of `n` corners (`j` in the loop). */
  function Prev(n: nat, i: nat): (j: nat)
    requires i < n
    ensures j < n
    ensures i == 0 ==> j == n - 1
    ensures i > 0 ==> j + 1 == i
  {
    if i == 0 then n - 1 else i - 1
  }

  /** Edge `i` runs from corner `i` to the corner before it, wrapping around. */
  predicate EdgeCrosses(x: real, y: real, box: seq<Point>, i: int)
    requires 0 <= i < |box|
  {
    EdgeToggles(x, y, box[i], box[Prev(|box|, i)])
  }

  /** How many of the edges `lo .. hi-1` toggle the flag. */
  function Crossings(x: real, y: real, box: seq<Point>, lo: int, hi: int): (c: nat)
    requires 0 <= lo <= hi <= |box|
    ensures c <= hi - lo
    decreases hi - lo
  {
    if lo == hi then 0
    else Crossings(x, y, box, lo, hi - 1) + (if EdgeCrosses(x, y, box, hi - 1) then 1 else 0)
  }

  /**
    What `isPointInsideWordBox` decides: false for a zero coordinate or a
    missing box, otherwise whether an odd number of edges toggle the flag.
   */
  function IsInside(x: real, y: real, wordBox: Option<seq<Point>>): (r: bool)
    ensures x == 0.0 || y == 0.0 || wordBox.None? ==> !r
    ensures wordBox == Some([]) ==> !r
    ensures wordBox.Some? && x != 0.0 && y != 0.0 ==> (r <==> Crossings(x, y, wordBox.value, 0, |wordBox.value|) % 2 == 1)
  {
    if x == 0.0 || y == 0.0 || wordBox.None? then false
    else Crossings(x, y, wordBox.value, 0, |wordBox.value|) % 2 == 1
  }

  /**
    `isPointInsideWordBox`: walks the corners with `i` and the trailing `j`,
    toggling `inside` on every edge the horizontal ray from the tap crosses.
   */
  method IsPointInsideWordBox(x: real, y: real, wordBox: Option<seq<Point>>) returns (inside: bool)
    ensures inside == IsInside(x, y, wordBox)
  {
    if x == 0.0 || y == 0.0 || wordBox.None? {
      return false;
    }
    var box := wordBox.value;
    inside := false;
    var i, j := 0, |box| - 1;
    while i < |box|
      invariant 0 <= i <= |box|
      invariant i < |box| ==> j == Prev(|box|, i)
      invariant inside <==> Crossings(x, y, box, 0, i) % 2 == 1
    {
      var xi, yi := box[i].x, box[i].y;
      var xj, yj := box[j].x, box[j].y;
      var intersect := (yi > y) != (yj > y) && x < CrossingX(xi, yi, xj, yj, y);
      assert intersect == EdgeCrosses(x, y, box, i);
      if intersect {
        inside := !inside;
      }
      j, i := i, i + 1;
    }
  }

  /** A horizontal edge leaves the count, and so the flag, as it was. */
  lemma HorizontalEdgeNeverToggles(x: real, y: real, box: seq<Point>, i: nat)
    requires i < |box| && box[i].y == box[Prev(|box|, i)].y
    ensures Crossings(x, y, box, 0, i + 1) == Crossings(x, y, box, 0, i)
  {
  }

  /** Counting over `lo .. hi` is counting over `lo .. m` and then `m .. hi`. */
  lemma {:induction false} CrossingsSplit(x: real, y: real, box: seq<Point>, lo: int, m: int, hi: int)
    requires 0 <= lo <= m <= hi <= |box|
    ensures Crossings(x, y, box, lo, hi) == Crossings(x, y, box, lo, m) + Crossings(x, y, box, m, hi)
    decreases hi - m
  {
    if m < hi {
      CrossingsSplit(x, y, box, lo, m, hi - 1);
    }
  }

  /** Two boxes whose edges agree one for one, shifted by `d`, count alike. */
  lemma {:induction false} CrossingsShift(x: real, y: real, a: seq<Point>, b: seq<Point>, lo: int, hi: int, d: int)
    requires 0 <= lo <= hi <= |a| && 0 <= lo + d && hi + d <= |b|
    requires forall i :: lo <= i < hi ==> EdgeCrosses(x, y, a, i) == EdgeCrosses(x, y, b, i + d)
    ensures Crossings(x, y, a, lo, hi) == Crossings(x, y, b, lo + d, hi + d)
    decreases hi - lo
  {
    if lo < hi {
      CrossingsShift(x, y, a, b, lo, hi - 1, d);
    }
  }

  /** Edges with the same two ends toggle alike. */
  lemma SameEdge(x: real, y: real, a: seq<Point>, i: int, b: seq<Point>, j: int)
    requires 0 <= i < |a| && 0 <= j < |b|
    requires a[i] == b[j] && a[Prev(|a|, i)] == b[Prev(|b|, j)]
    ensures EdgeCrosses(x, y, a, i) == EdgeCrosses(x, y, b, j)
  {
  }

  /** The corner list started at corner `r` instead of corner 0. */
  function Rotate(box: seq<Point>, r: nat): (rot: seq<Point>)
    requires r <= |box|
    ensures |rot| == |box|
  {
    box[r..] + box[..r]
  }

  /** Starting the corner list at another corner visits the same edges, so the answer is the same. */
  lemma RotationInvariant(x: real, y: real, box: seq<Point>, r: nat)
    requires r <= |box|
    ensures IsInside(x, y, Some(Rotate(box, r))) == IsInside(x, y, Some(box))
  {
    RotationKeepsCrossings(x, y, box, r);
  }

  /** A rotated corner list has as many toggling edges as the original. */
  lemma RotationKeepsCrossings(x: real, y: real, box: seq<Point>, r: nat)
    requires r <= |box|
    ensures Crossings(x, y, Rotate(box, r), 0, |box|) == Crossings(x, y, box, 0, |box|)
  {
    var n := |box|;
    if r == 0 || r == n {
      RotateWhole(box, r);
    } else {
      var rot := Rotate(box, r);
      CrossingsSplit(x, y, rot, 0, n - r, n);
      RotatedHead(x, y, box, r);
      RotatedTail(x, y, box, r);
      CrossingsSplit(x, y, box, 0, r, n);
    }
  }

  /** Rotating by nothing, or by the whole length, gives the list back. */
  lemma RotateWhole(box: seq<Point>, r: nat)
    requires r == 0 || r == |box|
    ensures Rotate(box, r) == box
  {
    assert box[r..] + box[..r] == box;
  }

  /** The first `n - r` edges of the rotated list are box edges `r .. n-1`. */
  lemma RotatedHead(x: real, y: real, box: seq<Point>, r: nat)
    requires 0 < r < |box|
    ensures Crossings(x, y, Rotate(box, r), 0, |box| - r) == Crossings(x, y, box, r, |box|)
  {
    var n, rot := |box|, Rotate(box, r);
    forall i | 0 <= i < n - r
      ensures EdgeCrosses(x, y, rot, i) == EdgeCrosses(x, y, box, i + r)
    {
      SameEdge(x, y, rot, i, box, i + r);
    }
    CrossingsShift(x, y, rot, box, 0, n - r, r);
  }

  /** The last `r` edges of the rotated list are box edges `0 .. r-1`. */
  lemma RotatedTail(x: real, y: real, box: seq<Point>, r: nat)
    requires 0 < r < |box|
    ensures Crossings(x, y, Rotate(box, r), |box| - r, |box|) == Crossings(x, y, box, 0, r)
  {
    var n, rot := |box|, Rotate(box, r);
    forall i | n - r <= i < n
      ensures EdgeCrosses(x, y, rot, i) == EdgeCrosses(x, y, box, i + -(n - r))
    {
      SameEdge(x, y, rot, i, box, i - (n - r));
    }
    CrossingsShift(x, y, rot, box, n - r, n, -(n - r));
  }

  // ---------------------------------------------------------------------------
  // Taps outside the bounding box of the corners
  // ---------------------------------------------------------------------------

  function Min(a: real, b: real): real { if a <= b then a else b }
  function Max(a: real, b: real): real { if a <= b then b else a }

  /** A product of two non-negative reals is non-negative. */
  lemma MulNonNegative(a: real, b: real)
    requires 0.0 <= a && 0.0 <= b
    ensures 0.0 <= a * b
  {
  }

  /** The crossing point's parameter along an edge that straddles `y` lies in [0, 1]. */
  lemma StraddleFraction(y: real, yi: real, yj: real)
    requires (yi > y) != (yj > y)
    ensures 0.0 <= (y - yi) / (yj - yi) <= 1.0
  {
    var num, den := y - yi, yj - yi;
    var t := num / den;
    assert t * den == num;
    assert (t - 1.0) * den == num - den;
    if yi > y {
      assert num < 0.0 && den < 0.0 && den <= num;
    } else {
      assert num >= 0.0 && den > 0.0 && num < den;
    }
  }

  /**
    `(CrossingX(..), y)` lies on the line through `(xi, yi)` and `(xj, yj)`:
    it is `xi` at height `yi`, `xj` at height `yj`, and collinear with both
    ends in between.
   */
  lemma CrossingXOnEdgeLine(xi: real, yi: real, xj: real, yj: real, y: real)
    requires yi != yj
    ensures CrossingX(xi, yi, xj, yj, yi) == xi
    ensures CrossingX(xi, yi, xj, yj, yj) == xj
    ensures (CrossingX(xi, yi, xj, yj, y) - xi) * (yj - yi) == (xj - xi) * (y - yi)
  {
    var d, num, den := xj - xi, y - yi, yj - yi;
    assert (d * den) / den == d;
    assert (d * num) / den * den == d * num;
  }

  /** `CrossingX` is the point a fraction `t` of the way from `xi` to `xj`. */
  lemma CrossingXAsFraction(xi: real, yi: real, xj: real, yj: real, y: real)
    requires yi != yj
    ensures CrossingX(xi, yi, xj, yj, y) == xi + (xj - xi) * ((y - yi) / (yj - yi))
  {
    var d, num, den := xj - xi, y - yi, yj - yi;
    var t, q := num / den, (d * num) / den;
    assert t * den == num;
    assert q * den == d * num;
    assert (q - d * t) * den == q * den - d * (t * den);
  }

  /** A point a fraction `t` in [0, 1] of the way from `a` to `b` lies between them. */
  lemma FractionBetween(a: real, b: real, t: real)
    requires 0.0 <= t <= 1.0
    ensures Min(a, b) <= a + (b - a) * t <= Max(a, b)
  {
    var d := b - a;
    if d >= 0.0 {
      MulNonNegative(d, t);
      MulNonNegative(d, 1.0 - t);
      assert d * (1.0 - t) == d - d * t;
    } else {
      MulNonNegative(-d, t);
      MulNonNegative(-d, 1.0 - t);
      assert -d * (1.0 - t) == d * t - d;
      assert -d * t == -(d * t);
    }
  }

  /** Where an edge that straddles `y` meets the line at height `y` lies between its ends. */
  lemma IntersectionWithinEdge(y: real, pi: Point, pj: Point)
    requires (pi.y > y) != (pj.y > y)
    ensures Min(pi.x, pj.x) <= CrossingX(pi.x, pi.y, pj.x, pj.y, y) <= Max(pi.x, pj.x)
  {
    StraddleFraction(y, pi.y, pj.y);
    CrossingXAsFraction(pi.x, pi.y, pj.x, pj.y, y);
    FractionBetween(pi.x, pj.x, (y - pi.y) / (pj.y - pi.y));
  }

  /** Edge `i` has one end strictly above `y` and the other not. */
  predicate Straddles(y: real, box: seq<Point>, i: int)
    requires 0 <= i < |box|
  {
    (box[i].y > y) != (box[Prev(|box|, i)].y > y)
  }

  /**
    When exactly the straddling edges toggle, the edges `1 .. k-1` toggle an
    odd number of times iff corners 0 and `k-1` lie on opposite sides of `y`.
   */
  lemma {:induction false} StraddleParity(x: real, y: real, box: seq<Point>, k: int)
    requires 1 <= k <= |box|
    requires forall i :: 0 <= i < |box| ==> EdgeCrosses(x, y, box, i) == Straddles(y, box, i)
    ensures Crossings(x, y, box, 1, k) % 2 == (if (box[0].y > y) != (box[k - 1].y > y) then 1 else 0)
  {
    if k > 1 {
      StraddleParity(x, y, box, k - 1);
      assert Prev(|box|, k - 1) == k - 2;
    }
  }

  /** A tap strictly left, right, above or below every corner is never inside. */
  lemma OutsideBoundingBox(x: real, y: real, box: seq<Point>)
    requires || (forall k :: 0 <= k < |box| ==> x < box[k].x)
             || (forall k :: 0 <= k < |box| ==> box[k].x < x)
             || (forall k :: 0 <= k < |box| ==> y < box[k].y)
             || (forall k :: 0 <= k < |box| ==> box[k].y < y)
    ensures !IsInside(x, y, Some(box))
  {
    if forall k :: 0 <= k < |box| ==> x < box[k].x {
      LeftOfBox(x, y, box);
    } else {
      NoEdgeToggles(x, y, box);
      NoCrossings(x, y, box, |box|);
    }
  }

  /**
    Left of every corner, the ray crosses exactly the straddling edges, and
    a closed corner list has an even number of them.
   */
  lemma LeftOfBox(x: real, y: real, box: seq<Point>)
    requires forall k :: 0 <= k < |box| ==> x < box[k].x
    ensures Crossings(x, y, box, 0, |box|) % 2 == 0
  {
    var n := |box|;
    if n == 0 {
      return;
    }
    forall i | 0 <= i < n
      ensures EdgeCrosses(x, y, box, i) == Straddles(y, box, i)
    {
      var p, q := box[i], box[Prev(n, i)];
      assert x < p.x && x < q.x;
      if Straddles(y, box, i) {
        IntersectionWithinEdge(y, p, q);
      }
    }
    StraddleParity(x, y, box, n);
    CrossingsSplit(x, y, box, 0, 1, n);
  }

  /** Right of, above or below every corner, no edge toggles. */
  lemma NoEdgeToggles(x: real, y: real, box: seq<Point>)
    requires || (forall k :: 0 <= k < |box| ==> box[k].x < x)
             || (forall k :: 0 <= k < |box| ==> y < box[k].y)
             || (forall k :: 0 <= k < |box| ==> box[k].y < y)
    ensures forall i :: 0 <= i < |box| ==> !EdgeCrosses(x, y, box, i)
  {
    forall i | 0 <= i < |box|
      ensures !EdgeCrosses(x, y, box, i)
    {
      var p, q := box[i], box[Prev(|box|, i)];
      assert || (p.x < x && q.x < x)
             || (y < p.y && y < q.y)
             || (p.y < y && q.y < y);
      if Straddles(y, box, i) {
        IntersectionWithinEdge(y, p, q);
      }
    }
  }

  /** If no edge toggles, the count is zero. */
  lemma {:induction false} NoCrossings(x: real, y: real, box: seq<Point>, k: int)
    requires 0 <= k <= |box|
    requires forall i :: 0 <= i < |box| ==> !EdgeCrosses(x, y, box, i)
    ensures Crossings(x, y, box, 0, k) == 0
  {
    if k > 0 {
      NoCrossings(x, y, box, k - 1);
    }
  }

  // ---------------------------------------------------------------------------
  // Text clean-up
  // ---------------------------------------------------------------------------

  /** `BLACKLISTED_CHARACTERS`: the characters removed from recognised text. */
  const BlacklistedCharacters: seq<char> := ['.', ',']

  predicate IsBlacklisted(c: char): (b: bool)
    ensures b <==> c == '.' || c == ','
  {
    c in BlacklistedCharacters
  }

  /** The input with every blacklisted character deleted, all others kept in order. */
  function WithoutBlacklisted(s: string): (r: string)
    ensures |r| <= |s|
    ensures forall k :: 0 <= k < |r| ==> !IsBlacklisted(r[k])
  {
    if s == [] then []
    else
      var c := s[|s| - 1];
      WithoutBlacklisted(s[..|s| - 1]) + (if IsBlacklisted(c) then [] else [c])
  }

  /** What `removeUnwantedCharacters` returns: blacklisted characters deleted, then trimmed. */
  function Normalized(s: string): (r: string)
    ensures forall k :: 0 <= k < |r| ==> !IsBlacklisted(r[k])
    ensures r != [] ==> !IsWhitespace(r[0]) && !IsWhitespace(r[|r| - 1])
    ensures exists a :: TrimmedAt(WithoutBlacklisted(s), r, a)
  {
    var w := WithoutBlacklisted(s);
    TrimKeepsClean(w);
    Trim(w)
  }

  /** Trimming a string free of blacklisted characters leaves it free of them. */
  lemma TrimKeepsClean(w: string)
    requires forall k :: 0 <= k < |w| ==> !IsBlacklisted(w[k])
    ensures forall k :: 0 <= k < |Trim(w)| ==> !IsBlacklisted(Trim(w)[k])
  {
    var r := Trim(w);
    var a :| TrimmedAt(w, r, a);
    forall k | 0 <= k < |r| ensures !IsBlacklisted(r[k]) {
      assert r[k] == w[a + k];
    }
  }

  /** `removeUnwantedCharacters`: copies every character outside the blacklist, then trims. */
  method RemoveUnwantedCharacters(text: string) returns (r: string)
    ensures r == Normalized(text)
  {
    var cleaned := "";
    for i := 0 to |text|
      invariant cleaned == WithoutBlacklisted(text[..i])
    {
      var c := text[i];
      assert text[..i + 1][..i] == text[..i];
      if !(c in BlacklistedCharacters) {
        cleaned := cleaned + [c];
      }
    }
    assert text[..|text|] == text;
    r := Trim(cleaned);
  }

  /** Deleting characters distributes over concatenation, so order is kept. */
  lemma {:induction false} WithoutBlacklistedAppend(a: string, b: string)
    ensures WithoutBlacklisted(a + b) == WithoutBlacklisted(a) + WithoutBlacklisted(b)
    decreases |b|
  {
    if b != [] {
      var b' := b[..|b| - 1];
      assert (a + b)[..|a + b| - 1] == a + b';
      assert (a + b)[|a + b| - 1] == b[|b| - 1];
      WithoutBlacklistedAppend(a, b');
      assert WithoutBlacklisted(b) == WithoutBlacklisted(b') + (if IsBlacklisted(b[|b| - 1]) then [] else [b[|b| - 1]]);
      assert WithoutBlacklisted(a + b) == WithoutBlacklisted(a + b') + (if IsBlacklisted(b[|b| - 1]) then [] else [b[|b| - 1]]);
    } else {
      assert a + b == a;
    }
  }

  /** A single character survives exactly when it is not blacklisted. */
  lemma WithoutBlacklistedSingle(c: char)
    ensures WithoutBlacklisted([c]) == if IsBlacklisted(c) then [] else [c]
  {
    assert [c][..0] == [];
  }

  /** A string without blacklisted characters is left as it is. */
  lemma {:induction false} WithoutBlacklistedClean(s: string)
    requires forall k :: 0 <= k < |s| ==> !IsBlacklisted(s[k])
    ensures WithoutBlacklisted(s) == s
  {
    if s != [] {
      WithoutBlacklistedClean(s[..|s| - 1]);
    }
  }

  /** Cleaning cleaned text changes nothing. */
  lemma NormalizedIdempotent(s: string)
    ensures Normalized(Normalized(s)) == Normalized(s)
  {
    var r := Normalized(s);
    WithoutBlacklistedClean(r);
    TrimIdempotent(WithoutBlacklisted(s));
  }

  /** Input made only of blacklisted characters, the empty input included, cleans to the empty string. */
  lemma {:induction false} OnlyBlacklistedGivesEmpty(s: string)
    requires forall k :: 0 <= k < |s| ==> IsBlacklisted(s[k])
    ensures Normalized(s) == ""
  {
    assert WithoutBlacklisted(s) == [] by {
      OnlyBlacklistedDeleted(s);
    }
  }

  lemma {:induction false} OnlyBlacklistedDeleted(s: string)
    requires forall k :: 0 <= k < |s| ==> IsBlacklisted(s[k])
    ensures WithoutBlacklisted(s) == []
  {
    if s != [] {
      OnlyBlacklistedDeleted(s[..|s| - 1]);
    }
  }

  /** A blacklisted character anywhere in the input makes no difference to the result. */
  lemma BlacklistedCharacterIgnored(a: string, c: char, b: string)
    requires IsBlacklisted(c)
    ensures Normalized(a + [c] + b) == Normalized(a + b)
  {
    WithoutBlacklistedAppend(a + [c], b);
    WithoutBlacklistedAppend(a, [c]);
    WithoutBlacklistedSingle(c);
    WithoutBlacklistedAppend(a, b);
    assert WithoutBlacklisted(a) + [] == WithoutBlacklisted(a);
  }

  /**
    The strings the clean-up leaves unchanged are exactly those without
    blacklisted characters and without whitespace at either end; whitespace
    inside is never touched.
   */
  lemma NormalizedFixedPoint(s: string)
    ensures Normalized(s) == s <==>
              (forall k :: 0 <= k < |s| ==> !IsBlacklisted(s[k]))
              && (s != [] ==> !IsWhitespace(s[0]) && !IsWhitespace(s[|s| - 1]))
  {
    if (forall k :: 0 <= k < |s| ==> !IsBlacklisted(s[k]))
       && (s != [] ==> !IsWhitespace(s[0]) && !IsWhitespace(s[|s| - 1])) {
      WithoutBlacklistedClean(s);
      if s != [] {
        TrimOfTrimmed(s);
      }
    }
  }

  /** Worked examples: the empty input and an input of periods only. */
  lemma NormalizedExamples()
    ensures Normalized("") == ""
    ensures Normalized("...") == ""
  {
    OnlyBlacklistedGivesEmpty("");
    OnlyBlacklistedGivesEmpty("...");
  }
}
