/**
 * The compositing helpers: `paste_rgba` alpha-blends a source image into
 * a window of the destination in place, and `apply_shadow_to_bg` returns
 * a darkened copy of the background.
 */
module Compose {
  import opened Raster

  /** One RGBA pixel of a uint8 image. */
  datatype Pixel = Pixel(r: byte, g: byte, b: byte, a: byte)

  /** `astype(np.float32) / 255.0`. */
  function Unit(v: byte): (u: real)
    ensures 0.0 <= u <= 1.0
    ensures u == 0.0 <==> v == 0
    ensures u == 1.0 <==> v == 255
  {
    v as real / 255.0
  }

  /** `(np.clip(v, 0, 1) * 255.0).astype(np.uint8)`. */
  function Quantize(v: real): (q: byte)
    ensures v <= 0.0 ==> q == 0
    ensures 1.0 <= v ==> q == 255
  {
    TruncateToByte(Clip(v, 0.0, 1.0) * 255.0)
  }

  /** Converting a byte to [0, 1] and back gives the byte again. */
  lemma QuantizeUnit(v: byte)
    ensures 0.0 <= Unit(v) <= 1.0
    ensures Quantize(Unit(v)) == v
  {
    assert Unit(v) * 255.0 == v as real;
  }

  lemma QuantizeMonotone(u: real, v: real)
    requires u <= v
    ensures Quantize(u) <= Quantize(v)
  {
    TruncateMonotone(Clip(u, 0.0, 1.0) * 255.0, Clip(v, 0.0, 1.0) * 255.0);
  }

  /** `src·a + dst·(1 - a)` for one colour channel. */
  function Over(s: real, d: real, a: real): (o: real)
    ensures a == 0.0 ==> o == d
    ensures a == 1.0 ==> o == s
  {
    s * a + d * (1.0 - a)
  }

  /** `src_a + dst_a·(1 - src_a)`. */
  function OverAlpha(a: real, da: real): (o: real)
    ensures a == 0.0 ==> o == da
    ensures a == 1.0 ==> o == 1.0
  {
    a + da * (1.0 - a)
  }

  /** The blend of two channel values lies between them. */
  lemma OverBetween(s: real, d: real, a: real)
    requires 0.0 <= a <= 1.0
    ensures Min(s, d) <= Over(s, d, a) <= Max(s, d)
  {
    var lo, hi := Min(s, d), Max(s, d);
    assert s * a + d * (1.0 - a) - lo == (s - lo) * a + (d - lo) * (1.0 - a);
    ProductNonNegative(s - lo, a);
    ProductNonNegative(d - lo, 1.0 - a);
    assert hi - (s * a + d * (1.0 - a)) == (hi - s) * a + (hi - d) * (1.0 - a);
    ProductNonNegative(hi - s, a);
    ProductNonNegative(hi - d, 1.0 - a);
  }

  /** The composed alpha is at least each of the two alphas, and at most 1. */
  lemma OverAlphaDominates(a: real, da: real)
    requires 0.0 <= a <= 1.0 && 0.0 <= da <= 1.0
    ensures a <= OverAlpha(a, da) <= 1.0
    ensures da <= OverAlpha(a, da)
  {
    ProductNonNegative(da, 1.0 - a);
    ProductNonNegative(1.0 - da, 1.0 - a);
    assert da * (1.0 - a) == (1.0 - a) - (1.0 - da) * (1.0 - a);
    assert OverAlpha(a, da) - da == a * (1.0 - da);
    ProductNonNegative(a, 1.0 - da);
  }

  /**
   * The blended pixel that `paste_rgba` writes, from a source and a
   * destination pixel. A fully opaque source replaces the destination
   * pixel, and a fully transparent one leaves it as it was.
   */
  function Blend(src: Pixel, dst: Pixel): (p: Pixel)
    ensures src.a == 255 ==> p == src
    ensures src.a == 0 ==> p == dst
  {
    var a := Unit(src.a);
    QuantizeUnit(src.r);
    QuantizeUnit(src.g);
    QuantizeUnit(src.b);
    QuantizeUnit(dst.r);
    QuantizeUnit(dst.g);
    QuantizeUnit(dst.b);
    QuantizeUnit(dst.a);
    Pixel(Quantize(Over(Unit(src.r), Unit(dst.r), a)),
          Quantize(Over(Unit(src.g), Unit(dst.g), a)),
          Quantize(Over(Unit(src.b), Unit(dst.b), a)),
          Quantize(OverAlpha(a, Unit(dst.a))))
  }

  /** A blended channel lies between the source and destination channels. */
  lemma BlendChannelBetween(s: byte, d: byte, sa: byte)
    ensures var v := Quantize(Over(Unit(s), Unit(d), Unit(sa)));
            (v >= s || v >= d) && (v <= s || v <= d)
  {
    QuantizeUnit(sa);
    OverBetween(Unit(s), Unit(d), Unit(sa));
    var o := Over(Unit(s), Unit(d), Unit(sa));
    QuantizeUnit(s);
    QuantizeUnit(d);
    if s <= d {
      QuantizeMonotone(Unit(s), o);
      QuantizeMonotone(o, Unit(d));
    } else {
      QuantizeMonotone(Unit(d), o);
      QuantizeMonotone(o, Unit(s));
    }
  }

  /**
   * Blending never lowers opacity: the result is at least as opaque as
   * the source and as the destination; every colour channel lies between
   * the source's and the destination's.
   */
  lemma BlendProperties(src: Pixel, dst: Pixel)
    ensures Blend(src, dst).a >= src.a && Blend(src, dst).a >= dst.a
    ensures var p := Blend(src, dst);
            && (p.r >= src.r || p.r >= dst.r) && (p.r <= src.r || p.r <= dst.r)
            && (p.g >= src.g || p.g >= dst.g) && (p.g <= src.g || p.g <= dst.g)
            && (p.b >= src.b || p.b >= dst.b) && (p.b <= src.b || p.b <= dst.b)
  {
    var a, da := Unit(src.a), Unit(dst.a);
    QuantizeUnit(src.a);
    QuantizeUnit(dst.a);
    OverAlphaDominates(a, da);
    QuantizeMonotone(a, OverAlpha(a, da));
    QuantizeMonotone(da, OverAlpha(a, da));
    BlendChannelBetween(src.r, dst.r, src.a);
    BlendChannelBetween(src.g, dst.g, src.a);
    BlendChannelBetween(src.b, dst.b, src.a);
  }

  /**
   * The destination window `[x0, x1) × [y0, y1)` of `paste_rgba`: the
   * source rectangle placed at (x, y), clipped to the destination.
   */
  datatype Window = Window(x0: int, y0: int, x1: int, y1: int)

  function PasteWindow(dstH: nat, dstW: nat, srcH: nat, srcW: nat, x: int, y: int): (win: Window)
    ensures 0 <= win.x0 && 0 <= win.y0 && win.x1 <= dstW && win.y1 <= dstH
    ensures x <= win.x0 && y <= win.y0 && win.x1 <= x + srcW && win.y1 <= y + srcH
  {
    Window(if 0 < x then x else 0, if 0 < y then y else 0,
           if dstW < x + srcW then dstW else x + srcW,
           if dstH < y + srcH then dstH else y + srcH)
  }

  predicate IsEmpty(win: Window)
  {
    win.x0 >= win.x1 || win.y0 >= win.y1
  }

  predicate InWindow(win: Window, i: int, j: int)
  {
    win.y0 <= i < win.y1 && win.x0 <= j < win.x1
  }

  /** `[sx0, sx1) × [sy0, sy1)`: the same window in source coordinates. */
  function SourceWindow(win: Window, x: int, y: int): (s: Window)
    ensures forall i, j :: InWindow(s, i, j) <==> InWindow(win, i + y, j + x)
  {
    var sx0 := win.x0 - x;
    var sy0 := win.y0 - y;
    Window(sx0, sy0, sx0 + (win.x1 - win.x0), sy0 + (win.y1 - win.y0))
  }

  /**
   * Row i, column j of the destination is in the window exactly when it
   * is a destination pixel covered by the placed source image.
   */
  lemma WindowIsOverlap(dstH: nat, dstW: nat, srcH: nat, srcW: nat, x: int, y: int, i: int, j: int)
    ensures InWindow(PasteWindow(dstH, dstW, srcH, srcW, x, y), i, j)
        <==> 0 <= i < dstH && 0 <= j < dstW && 0 <= i - y < srcH && 0 <= j - x < srcW
  {
  }

  /**
   * A non-empty window lies inside the destination, its source window
   * inside the source, and the two have the same width and height.
   */
  lemma WindowsInBounds(dstH: nat, dstW: nat, srcH: nat, srcW: nat, x: int, y: int)
    requires !IsEmpty(PasteWindow(dstH, dstW, srcH, srcW, x, y))
    ensures var win := PasteWindow(dstH, dstW, srcH, srcW, x, y);
            var src := SourceWindow(win, x, y);
            && 0 <= win.x0 < win.x1 <= dstW && 0 <= win.y0 < win.y1 <= dstH
            && 0 <= src.x0 < src.x1 <= srcW && 0 <= src.y0 < src.y1 <= srcH
            && src.x1 - src.x0 == win.x1 - win.x0 && src.y1 - src.y0 == win.y1 - win.y0
  {
  }

  /** The window is empty exactly when the placed source misses the destination. */
  lemma EmptyIffNoOverlap(dstH: nat, dstW: nat, srcH: nat, srcW: nat, x: int, y: int)
    ensures IsEmpty(PasteWindow(dstH, dstW, srcH, srcW, x, y))
        <==> !exists i, j :: InWindow(PasteWindow(dstH, dstW, srcH, srcW, x, y), i, j)
  {
    var win := PasteWindow(dstH, dstW, srcH, srcW, x, y);
    if !IsEmpty(win) {
      assert InWindow(win, win.y0, win.x0);
    }
  }

  /**
   * `paste_rgba`: blends `src`, placed with its top-left corner at
   * (x, y), into `dst` in place and returns `dst`. Inside the window each
   * pixel becomes the blend of the source pixel over the old destination
   * pixel; every other pixel keeps its value. An empty window changes
   * nothing.
   */
  method Paste(dst: array2<Pixel>, src: array2<Pixel>, x: int, y: int) returns (out: array2<Pixel>)
    modifies dst
    ensures out == dst
    ensures IsEmpty(PasteWindow(dst.Length0, dst.Length1, src.Length0, src.Length1, x, y)) ==>
              forall i, j :: 0 <= i < dst.Length0 && 0 <= j < dst.Length1 ==> dst[i, j] == old(dst[i, j])
    ensures forall i, j :: 0 <= i < dst.Length0 && 0 <= j < dst.Length1 ==>
              dst[i, j] == if InWindow(PasteWindow(dst.Length0, dst.Length1, src.Length0, src.Length1, x, y), i, j)
                           then Blend(old(src[i - y, j - x]), old(dst[i, j]))
                           else old(dst[i, j])
  {
    var win := PasteWindow(dst.Length0, dst.Length1, src.Length0, src.Length1, x, y);
    if IsEmpty(win) {
      return dst;
    }
    WindowsInBounds(dst.Length0, dst.Length1, src.Length0, src.Length1, x, y);
    var s := SourceWindow(win, x, y);
    forall i, j | win.y0 <= i < win.y1 && win.x0 <= j < win.x1 {
      dst[i, j] := Blend(src[s.y0 + (i - win.y0), s.x0 + (j - win.x0)], dst[i, j]);
    }
    return dst;
  }

  /** `out[..., c] * (1 - a)` for one colour channel, back to a byte. */
  function Scale(v: byte, keep: real): (s: byte)
    ensures keep <= 0.0 ==> s == 0
  {
    Quantize(Unit(v) * keep)
  }

  /** One background pixel under shadow alpha `shadowAlpha`: RGB scaled by 1 - a, alpha kept. */
  function Darken(p: Pixel, shadowAlpha: real): (q: Pixel)
    ensures q.a == p.a
  {
    QuantizeUnit(p.a);
    var keep := 1.0 - Clip(shadowAlpha, 0.0, 1.0);
    Pixel(Scale(p.r, keep), Scale(p.g, keep), Scale(p.b, keep), Quantize(Unit(p.a)))
  }

  /** A scaled channel is never brighter than the original, and is black under full shadow. */
  lemma ScaledChannel(v: byte, keep: real)
    requires 0.0 <= keep <= 1.0
    ensures Scale(v, keep) <= v
    ensures keep == 1.0 ==> Scale(v, keep) == v
    ensures keep == 0.0 ==> Scale(v, keep) == 0
  {
    QuantizeUnit(v);
    assert Unit(v) * keep <= Unit(v) * 1.0;
    QuantizeMonotone(Unit(v) * keep, Unit(v));
  }

  /**
   * Darkening never brightens a channel and keeps the alpha channel; no
   * shadow leaves the pixel as it is, full shadow makes its colour black.
   */
  lemma DarkenProperties(p: Pixel, shadowAlpha: real)
    ensures var q := Darken(p, shadowAlpha);
            && q.r <= p.r && q.g <= p.g && q.b <= p.b && q.a == p.a
            && (shadowAlpha <= 0.0 ==> q == p)
            && (1.0 <= shadowAlpha ==> q.r == 0 && q.g == 0 && q.b == 0)
  {
    var keep := 1.0 - Clip(shadowAlpha, 0.0, 1.0);
    var q := Darken(p, shadowAlpha);
    assert q == Pixel(Scale(p.r, keep), Scale(p.g, keep), Scale(p.b, keep), Quantize(Unit(p.a)));
    ScaledChannel(p.r, keep);
    ScaledChannel(p.g, keep);
    ScaledChannel(p.b, keep);
    QuantizeUnit(p.a);
    assert shadowAlpha <= 0.0 ==> keep == 1.0;
    assert 1.0 <= shadowAlpha ==> keep == 0.0;
  }

  /**
   * `apply_shadow_to_bg`: a new image, each pixel the background pixel
   * darkened by the shadow alpha at the same place; the background itself
   * is not changed.
   */
  method ApplyShadowToBg(bg: array2<Pixel>, shadow: Field) returns (out: array2<Pixel>)
    requires IsGrid(shadow, bg.Length0, bg.Length1)
    ensures fresh(out) && out.Length0 == bg.Length0 && out.Length1 == bg.Length1
    ensures forall i, j :: 0 <= i < bg.Length0 && 0 <= j < bg.Length1 ==> out[i, j] == Darken(bg[i, j], shadow[i][j])
  {
    out := new Pixel[bg.Length0, bg.Length1]((i: nat, j: nat)
      reads bg requires i < bg.Length0 && j < bg.Length1 => Darken(bg[i, j], shadow[i][j]));
  }
}
