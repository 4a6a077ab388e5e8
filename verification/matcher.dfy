/** `best_color_index` of pam.c: the palette entry nearest to a colour, with a
    bias against translucent entries when the colour itself is opaque.

    The distance `colordifference` is float code that is not part of this
    model; it is a parameter returning a real.
 */
module Matcher {
  import opened Palette

  /** The margin `1.f/1024.f` a translucent entry must win by. */
  const Margin: real := 1.0 / 1024.0

  /** The distance from `px` to palette entry `i`. */
  function Dist(px: FPixel, palette: seq<ColormapItem>, i: nat, diff: (FPixel, FPixel) -> real): real
    requires i < |palette|
  {
    diff(px, palette[i].acolor)
  }

  /** Whether entry `i` is judged on plain distance: always for a colour that
      is not opaque (`iebug` false), otherwise only for opaque entries. */
  predicate PlainRule(palette: seq<ColormapItem>, i: nat, iebug: bool)
    requires i < |palette|
  {
    !iebug || palette[i].acolor.a >= 1.0
  }

  /** The scan of `best_color_index` over entries `0 .. n-1`, as a reference:
      the index kept and its distance. */
  function Scan(px: FPixel, palette: seq<ColormapItem>, n: nat, iebug: bool, diff: (FPixel, FPixel) -> real): (res: (nat, real))
    requires 1 <= n <= |palette|
    ensures res.0 < n && res.1 == Dist(px, palette, res.0, diff)
    decreases n
  {
    if n == 1 then (0, Dist(px, palette, 0, diff))
    else
      var prev := Scan(px, palette, n - 1, iebug, diff);
      var newdist := Dist(px, palette, n - 1, diff);
      if newdist < prev.1 && !(iebug && palette[n - 1].acolor.a < 1.0 && newdist + Margin > prev.1)
      then (n - 1, newdist)
      else prev
  }

  /** `best_color_index`: the index of the chosen entry and its distance (what
      `*dist_out` receives). `iebug` is `px.a > min_opaque_val`. */
  method BestColorIndex(px: FPixel, map_: Colormap, minOpaqueVal: real, diff: (FPixel, FPixel) -> real)
    returns (ind: nat, dist: real)
    requires 1 <= map_.colors <= |map_.palette|
    ensures (ind, dist) == Scan(px, map_.palette, map_.colors, px.a > minOpaqueVal, diff)
    ensures ind < map_.colors && dist == Dist(px, map_.palette, ind, diff)
    ensures map_.colors == 1 ==> ind == 0
    ensures dist <= Dist(px, map_.palette, 0, diff)
    ensures forall j :: 0 <= j < map_.colors ==> dist < Dist(px, map_.palette, j, diff) + Margin
    ensures forall j :: 0 <= j < map_.colors && PlainRule(map_.palette, j, px.a > minOpaqueVal) ==>
              dist <= Dist(px, map_.palette, j, diff)
  {
    var palette := map_.palette;
    var numcolors := map_.colors;
    var iebug := px.a > minOpaqueVal;
    ind := 0;
    dist := diff(px, palette[0].acolor);
    var i := 1;
    while i < numcolors
      invariant 1 <= i <= numcolors
      invariant (ind, dist) == Scan(px, palette, i, iebug, diff)
    {
      var newdist := diff(px, palette[i].acolor);
      if newdist < dist {
        if iebug && palette[i].acolor.a < 1.0 && newdist + Margin > dist {
          i := i + 1;
          continue;
        }
        ind := i;
        dist := newdist;
      }
      i := i + 1;
    }
    ScanNearest(px, palette, numcolors, iebug, diff);
  }

  /** What the scan promises of the distance it keeps: never above entry 0,
      never above an entry judged on plain distance, and never a whole margin
      above any entry. */
  lemma {:induction false} ScanNearest(px: FPixel, palette: seq<ColormapItem>, n: nat, iebug: bool, diff: (FPixel, FPixel) -> real)
    requires 1 <= n <= |palette|
    ensures Scan(px, palette, n, iebug, diff).1 <= Dist(px, palette, 0, diff)
    ensures forall j :: 0 <= j < n ==> Scan(px, palette, n, iebug, diff).1 < Dist(px, palette, j, diff) + Margin
    ensures forall j :: 0 <= j < n && PlainRule(palette, j, iebug) ==>
              Scan(px, palette, n, iebug, diff).1 <= Dist(px, palette, j, diff)
    decreases n
  {
    if n > 1 {
      ScanNearest(px, palette, n - 1, iebug, diff);
    }
  }

  /** Entries before the one chosen that are judged on plain distance are
      strictly farther: a tie never displaces the earlier entry. */
  lemma {:induction false} ScanFirst(px: FPixel, palette: seq<ColormapItem>, n: nat, iebug: bool, diff: (FPixel, FPixel) -> real)
    requires 1 <= n <= |palette|
    ensures forall j :: 0 <= j < Scan(px, palette, n, iebug, diff).0 && PlainRule(palette, j, iebug) ==>
              Scan(px, palette, n, iebug, diff).1 < Dist(px, palette, j, diff)
    decreases n
  {
    if n > 1 {
      ScanFirst(px, palette, n - 1, iebug, diff);
      ScanNearest(px, palette, n - 1, iebug, diff);
    }
  }

  /** For a colour that is not opaque the scan is the plain arg-min: the
      lowest index of an entry at the least distance. */
  lemma PlainArgMin(px: FPixel, palette: seq<ColormapItem>, n: nat, diff: (FPixel, FPixel) -> real)
    requires 1 <= n <= |palette|
    ensures forall j :: 0 <= j < n ==>
              Dist(px, palette, Scan(px, palette, n, false, diff).0, diff) <= Dist(px, palette, j, diff)
    ensures forall j :: 0 <= j < Scan(px, palette, n, false, diff).0 ==>
              Dist(px, palette, Scan(px, palette, n, false, diff).0, diff) < Dist(px, palette, j, diff)
  {
    ScanNearest(px, palette, n, false, diff);
    ScanFirst(px, palette, n, false, diff);
  }

  /** One step of `Scan` unfolded, read as the bias rule: entry `n-1` displaces
      the entry kept so far exactly when it is strictly nearer and, if the colour
      is opaque and the entry is not, nearer by at least the margin. Otherwise
      the earlier choice stands. */
  lemma AcceptIff(px: FPixel, palette: seq<ColormapItem>, n: nat, iebug: bool, diff: (FPixel, FPixel) -> real)
    requires 2 <= n <= |palette|
    ensures Scan(px, palette, n, iebug, diff).0 == n - 1
        <==> && Dist(px, palette, n - 1, diff) < Scan(px, palette, n - 1, iebug, diff).1
             && (PlainRule(palette, n - 1, iebug)
                 || Dist(px, palette, n - 1, diff) + Margin <= Scan(px, palette, n - 1, iebug, diff).1)
    ensures Scan(px, palette, n, iebug, diff).0 != n - 1 ==>
              Scan(px, palette, n, iebug, diff) == Scan(px, palette, n - 1, iebug, diff)
  {
  }

  /** The bias over the whole scan: when an opaque colour ends on a translucent
      entry, that entry beats every earlier entry judged on plain distance by
      at least the margin. */
  lemma {:induction false} TranslucentWinsByMargin(px: FPixel, palette: seq<ColormapItem>, n: nat, diff: (FPixel, FPixel) -> real)
    requires 1 <= n <= |palette|
    requires palette[Scan(px, palette, n, true, diff).0].acolor.a < 1.0
    ensures forall j :: 0 <= j < Scan(px, palette, n, true, diff).0 && PlainRule(palette, j, true) ==>
              Scan(px, palette, n, true, diff).1 + Margin <= Dist(px, palette, j, diff)
    decreases n
  {
    if n > 1 {
      if Scan(px, palette, n, true, diff).0 == n - 1 {
        ScanNearest(px, palette, n - 1, true, diff);
      } else {
        TranslucentWinsByMargin(px, palette, n - 1, diff);
      }
    }
  }

  /** On a fresh palette from `pam_colormap` every entry is equally far, so the
      first one is chosen. */
  lemma {:induction false} FreshColormapPicksFirst(px: FPixel, colors: nat, iebug: bool, diff: (FPixel, FPixel) -> real)
    requires 1 <= colors
    ensures Scan(px, NewColormap(colors).palette, colors, iebug, diff) == (0, diff(px, Transparent))
    decreases colors
  {
    if colors > 1 {
      var short := NewColormap(colors - 1).palette;
      var long := NewColormap(colors).palette;
      FreshColormapPicksFirst(px, colors - 1, iebug, diff);
      ScanPrefix(px, short, long, colors - 1, iebug, diff);
    }
  }

  /** The scan over `n` entries reads only the first `n`. */
  lemma {:induction false} ScanPrefix(px: FPixel, p: seq<ColormapItem>, q: seq<ColormapItem>, n: nat, iebug: bool, diff: (FPixel, FPixel) -> real)
    requires 1 <= n <= |p| && n <= |q| && p[..n] == q[..n]
    ensures Scan(px, p, n, iebug, diff) == Scan(px, q, n, iebug, diff)
    decreases n
  {
    assert p[n - 1] == p[..n][n - 1] && q[n - 1] == q[..n][n - 1];
    if n > 1 {
      assert p[..n - 1] == p[..n][..n - 1] && q[..n - 1] == q[..n][..n - 1];
      ScanPrefix(px, p, q, n - 1, iebug, diff);
    }
  }
}
