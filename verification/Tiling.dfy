/** Tile-by-tile x4 super-resolution: overlapping patches go through an operator and the centres of
    the results are glued together. The operator stands for the network with its clamping and
    rounding; what is proved is when the glued picture is the operator applied to the whole image. */
module Tiling {
  import opened Wrappers

  type Image<P> = seq<seq<P>>

  ghost predicate Rect<P>(img: Image<P>, h: nat, w: nat) {
    |img| == h && forall y :: 0 <= y < h ==> |img[y]| == w
  }

  /** The operator multiplies both sides of every rectangle by four. */
  ghost predicate Scales<P(!new), Q>(net: Image<P> -> Image<Q>) {
    forall p, h: nat, w: nat :: Rect(p, h, w) ==> Rect(net(p), 4 * h, 4 * w)
  }

  function Min(x: int, y: int): int { if x <= y then x else y }

  function Max(x: int, y: int): int { if x >= y then x else y }

  // ---------------------------------------------------------------- locality

  /** The pixel `(dy, dx)` away from `(y, x)`, or nothing outside the image. */
  ghost function Around<P>(img: Image<P>, h: nat, w: nat, y: int, x: int, dy: int, dx: int): Option<P>
    requires Rect(img, h, w)
  {
    if 0 <= y + dy < h && 0 <= x + dx < w then Some(img[y + dy][x + dx]) else None
  }

  ghost predicate Within(d: int, radius: nat) { d <= radius && -d <= radius }

  /** Two pixels see the same surroundings, up to and including where the image ends. */
  ghost predicate SameWindow<P>(p: Image<P>, hp: nat, wp: nat, py: nat, px: nat,
                                q: Image<P>, hq: nat, wq: nat, qy: nat, qx: nat, radius: nat)
    requires Rect(p, hp, wp) && Rect(q, hq, wq)
  {
    forall dy, dx :: Within(dy, radius) && Within(dx, radius) ==>
      Around(p, hp, wp, py, px, dy, dx) == Around(q, hq, wq, qy, qx, dy, dx)
  }

  /** The sixteen output pixels of two input pixels are the same. */
  ghost predicate SameBlock<Q>(p: Image<Q>, py: nat, px: nat, q: Image<Q>, qy: nat, qx: nat) {
    forall u: nat, v: nat :: u < 4 && v < 4 ==> SubPixel(p, py, px, u, v) == SubPixel(q, qy, qx, u, v)
  }

  ghost function SubPixel<P>(img: Image<P>, y: nat, x: nat, u: nat, v: nat): Option<P> {
    Pixel(img, 4 * y + u, 4 * x + v)
  }

  ghost function Pixel<P>(img: Image<P>, y: nat, x: nat): Option<P> {
    if y < |img| && x < |img[y]| then Some(img[y][x]) else None
  }

  /** The output at a pixel depends only on its window of this radius, clipped at the edges. */
  ghost predicate Local<P(!new), Q>(net: Image<P> -> Image<Q>, radius: nat) {
    forall p, hp: nat, wp: nat, py: nat, px: nat, q, hq: nat, wq: nat, qy: nat, qx: nat ::
      Rect(p, hp, wp) && Rect(q, hq, wq) && py < hp && px < wp && qy < hq && qx < wq
      && SameWindow(p, hp, wp, py, px, q, hq, wq, qy, qx, radius)
      ==> SameBlock(net(p), py, px, net(q), qy, qx)
  }

  // ---------------------------------------------------------------- what tiling computes

  /** The padded span of the tile that starts at `t`, along a side of length `n`. */
  function From(t: int, pad: nat): int { Max(0, t - pad) }

  function To(t: int, n: nat, tile: nat, pad: nat): int { Min(n, t + tile + pad) }

  function Crop<P>(img: Image<P>, y0: nat, y1: nat, x0: nat, x1: nat): Image<P>
    requires y0 <= y1 <= |img| && forall y :: y0 <= y < y1 ==> x0 <= x1 <= |img[y]|
  {
    seq(y1 - y0, i requires 0 <= i < y1 - y0 => img[y0 + i][x0..x1])
  }

  function Patch<P>(img: Image<P>, h: nat, w: nat, ty: nat, tx: nat, tile: nat, pad: nat): Image<P>
    requires Rect(img, h, w) && ty < h && tx < w
  {
    Crop(img, From(ty, pad), To(ty, h, tile, pad), From(tx, pad), To(tx, w, tile, pad))
  }

  /** Start of the tile holding coordinate `c`. */
  ghost function TileOf(c: nat, tile: nat): nat
    requires tile > 0
  {
    c / tile * tile
  }

  /** The output pixel `(y, x)` of the tiled computation. */
  ghost function TiledAt<P, Q>(net: Image<P> -> Image<Q>, img: Image<P>, h: nat, w: nat, tile: nat, pad: nat, y: nat, x: nat): Option<Q>
    requires Rect(img, h, w) && tile > 0 && y < 4 * h && x < 4 * w
  {
    TileBounds(y / 4, tile);
    TileBounds(x / 4, tile);
    var ty, tx := TileOf(y / 4, tile), TileOf(x / 4, tile);
    Pixel(net(Patch(img, h, w, ty, tx, tile, pad)), y - 4 * From(ty, pad), x - 4 * From(tx, pad))
  }

  lemma TileBounds(c: nat, tile: nat)
    requires tile > 0
    ensures TileOf(c, tile) <= c < TileOf(c, tile) + tile
  {}

  /** Every coordinate lies in exactly one tile: each output pixel is written once. */
  lemma OneTile(c: nat, t: nat, k: nat, tile: nat)
    requires tile > 0 && t == k * tile
    ensures t <= c < t + tile <==> t == TileOf(c, tile)
  {
    TileBounds(c, tile);
    var m := c / tile;
    if k < m {
      NextMultiple(k, m, tile);
    } else if m < k {
      NextMultiple(m, k, tile);
    }
  }

  lemma NextMultiple(k: nat, m: nat, tile: nat)
    requires k < m
    ensures k * tile + tile <= m * tile
  {
    Spread(k, m - k, tile);
    Spread(0, m - k, tile);
    AtLeastOne(m - k, tile);
  }

  lemma Spread(a: nat, b: nat, tile: nat)
    ensures (a + b) * tile == a * tile + b * tile
  {}

  lemma {:induction false} AtLeastOne(n: nat, tile: nat)
    requires n > 0
    ensures n * tile >= tile
  {
    if n > 1 {
      AtLeastOne(n - 1, tile);
      Spread(n - 1, 1, tile);
    }
  }

  /** Inside a tile, the tiled computation reads that tile's patch. */
  lemma InTile<P, Q>(net: Image<P> -> Image<Q>, img: Image<P>, h: nat, w: nat, tile: nat, pad: nat,
                     ty: nat, tx: nat, i: nat, j: nat, y: nat, x: nat)
    requires Rect(img, h, w) && tile > 0 && ty == i * tile < h && tx == j * tile < w
    requires 4 * ty <= y < 4 * Min(h, ty + tile) && 4 * tx <= x < 4 * Min(w, tx + tile)
    ensures TiledAt(net, img, h, w, tile, pad, y, x)
         == Pixel(net(Patch(img, h, w, ty, tx, tile, pad)), y - 4 * From(ty, pad), x - 4 * From(tx, pad))
  {
    hide TileOf, Patch, Pixel;
    OneTile(y / 4, ty, i, tile);
    OneTile(x / 4, tx, j, tile);
  }

  lemma PatchRect<P>(img: Image<P>, h: nat, w: nat, ty: nat, tx: nat, tile: nat, pad: nat)
    requires Rect(img, h, w) && ty < h && tx < w
    ensures Rect(Patch(img, h, w, ty, tx, tile, pad),
                 To(ty, h, tile, pad) - From(ty, pad), To(tx, w, tile, pad) - From(tx, pad))
  {}

  /** The output rows and columns of the tiles before `(ty, tx)`. */
  ghost predicate Glued<P, Q>(out: array2<Q>, net: Image<P> -> Image<Q>, img: Image<P>, h: nat, w: nat, tile: nat, pad: nat,
                              y0: int, y1: int, x1: int)
    requires Rect(img, h, w) && tile > 0 && out.Length0 == 4 * h && out.Length1 == 4 * w
    reads out
  {
    forall y, x {:trigger out[y, x]} :: 0 <= y < 4 * h && 4 * y0 <= y < 4 * y1 && 0 <= x < 4 * w && x < 4 * x1 ==>
      Some(out[y, x]) == TiledAt(net, img, h, w, tile, pad, y, x)
  }

  lemma OutputRect<P(!new), Q>(net: Image<P> -> Image<Q>, img: Image<P>, h: nat, w: nat, tile: nat, pad: nat, ty: nat, tx: nat)
    requires Rect(img, h, w) && ty < h && tx < w && Scales(net)
    ensures Rect(net(Patch(img, h, w, ty, tx, tile, pad)),
                 4 * (To(ty, h, tile, pad) - From(ty, pad)), 4 * (To(tx, w, tile, pad) - From(tx, pad)))
  {
    hide Patch, Rect;
    PatchRect(img, h, w, ty, tx, tile, pad);
  }

  /** One tile: crop with padding, run the operator, keep the centre. */
  method GlueTile<P(!new), Q>(out: array2<Q>, net: Image<P> -> Image<Q>, img: Image<P>, h: nat, w: nat, tile: nat, pad: nat,
                              ty: nat, tx: nat, ghost i: nat, ghost j: nat)
    requires tile > 0 && Rect(img, h, w) && Scales(net)
    requires out.Length0 == 4 * h && out.Length1 == 4 * w
    requires ty == i * tile < h && tx == j * tile < w
    modifies out
    ensures forall y, x {:trigger out[y, x]} :: 0 <= y < 4 * h && 0 <= x < 4 * w ==>
      if 4 * ty <= y < 4 * (ty + tile) && 4 * tx <= x < 4 * (tx + tile)
      then Some(out[y, x]) == TiledAt(net, img, h, w, tile, pad, y, x)
      else out[y, x] == old(out[y, x])
  {
    hide TiledAt, Patch;
    var o := net(Patch(img, h, w, ty, tx, tile, pad));
    OutputRect(net, img, h, w, tile, pad, ty, tx);
    var cy0, cx0 := (ty - From(ty, pad)) * 4, (tx - From(tx, pad)) * 4;
    var hh, ww := Min(tile * 4, 4 * h - ty * 4), Min(tile * 4, 4 * w - tx * 4);
    CopyCentre(out, o, ty * 4, tx * 4, cy0, cx0, hh, ww);
    forall y, x | 4 * ty <= y < 4 * ty + hh && 4 * tx <= x < 4 * tx + ww
      ensures Some(out[y, x]) == TiledAt(net, img, h, w, tile, pad, y, x)
    {
      InTile(net, img, h, w, tile, pad, ty, tx, i, j, y, x);
      assert out[y, x] == o[y - 4 * From(ty, pad)][x - 4 * From(tx, pad)];
    }
  }

  /** `out[oy0:oy0+hh, ox0:ox0+ww] = o[cy0:cy0+hh, cx0:cx0+ww]`. */
  method CopyCentre<Q>(out: array2<Q>, o: Image<Q>, oy0: nat, ox0: nat, cy0: nat, cx0: nat, hh: nat, ww: nat)
    requires oy0 + hh <= out.Length0 && ox0 + ww <= out.Length1
    requires cy0 + hh <= |o| && forall y :: cy0 <= y < cy0 + hh ==> cx0 + ww <= |o[y]|
    modifies out
    ensures forall y, x {:trigger out[y, x]} :: 0 <= y < out.Length0 && 0 <= x < out.Length1 ==>
      out[y, x] == if oy0 <= y < oy0 + hh && ox0 <= x < ox0 + ww then o[cy0 + y - oy0][cx0 + x - ox0] else old(out[y, x])
  {
    forall y, x | oy0 <= y < oy0 + hh && ox0 <= x < ox0 + ww {
      out[y, x] := o[cy0 + y - oy0][cx0 + x - ox0];
    }
  }

  /** The picture glued from the tiles, whatever the operator does inside a patch. */
  method Upscale4x<P(!new), Q(0)>(net: Image<P> -> Image<Q>, img: Image<P>, h: nat, w: nat, tile: nat, pad: nat)
    returns (out: array2<Q>)
    requires tile > 0 && Rect(img, h, w) && Scales(net)
    ensures fresh(out) && out.Length0 == 4 * h && out.Length1 == 4 * w
    ensures forall y, x {:trigger out[y, x]} :: 0 <= y < 4 * h && 0 <= x < 4 * w ==>
      Some(out[y, x]) == TiledAt(net, img, h, w, tile, pad, y, x)
  {
    hide TiledAt;
    out := new Q[4 * h, 4 * w];
    var ty := 0;
    ghost var i := 0;
    while ty < h
      invariant 0 <= ty == i * tile
      invariant Glued(out, net, img, h, w, tile, pad, 0, ty, w)
    {
      var tx := 0;
      ghost var j := 0;
      while tx < w
        invariant 0 <= tx == j * tile
        invariant Glued(out, net, img, h, w, tile, pad, 0, ty, w)
        invariant Glued(out, net, img, h, w, tile, pad, ty, ty + tile, tx)
      {
        GlueTile(out, net, img, h, w, tile, pad, ty, tx, i, j);
        tx, j := tx + tile, j + 1;
      }
      ty, i := ty + tile, i + 1;
    }
  }

  // ---------------------------------------------------------------- when tiling is invisible

  /** A patch shows a pixel of its own tile the surroundings it has in the whole image. */
  lemma PatchWindow<P>(img: Image<P>, h: nat, w: nat, ty: nat, tx: nat, tile: nat, pad: nat, y: nat, x: nat, radius: nat)
    requires Rect(img, h, w) && ty <= y < Min(h, ty + tile) && tx <= x < Min(w, tx + tile)
    requires radius <= pad || (WholeSpan(ty, h, tile, pad) && WholeSpan(tx, w, tile, pad))
    requires Rect(Patch(img, h, w, ty, tx, tile, pad),
                  To(ty, h, tile, pad) - From(ty, pad), To(tx, w, tile, pad) - From(tx, pad))
    ensures SameWindow(Patch(img, h, w, ty, tx, tile, pad),
                       To(ty, h, tile, pad) - From(ty, pad), To(tx, w, tile, pad) - From(tx, pad),
                       y - From(ty, pad), x - From(tx, pad), img, h, w, y, x, radius)
  {}

  /** The patch of this tile spans the whole side. */
  ghost predicate WholeSpan(t: nat, n: nat, tile: nat, pad: nat) {
    From(t, pad) == 0 && To(t, n, tile, pad) == n
  }

  /** The padding of every tile reaches both ends of the side. */
  ghost predicate PaddingCovers(n: nat, tile: nat, pad: nat)
  {
    forall k: nat {:trigger k * tile} :: k * tile < n ==> WholeSpan(k * tile, n, tile, pad)
  }

  /** Tiling an operator whose radius the padding covers, or an image every padded tile covers, is
      applying the operator to the whole image. */
  lemma TilingInvisible<P(!new), Q>(net: Image<P> -> Image<Q>, img: Image<P>, h: nat, w: nat, tile: nat, pad: nat, radius: nat, y: nat, x: nat)
    requires tile > 0 && Rect(img, h, w) && Scales(net) && Local(net, radius)
    requires radius <= pad || (PaddingCovers(h, tile, pad) && PaddingCovers(w, tile, pad))
    requires y < 4 * h && x < 4 * w
    ensures TiledAt(net, img, h, w, tile, pad, y, x) == Pixel(net(img), y, x)
  {
    hide Patch, TileOf, SameWindow, Rect, TiledAt, Local, SameBlock;
    TileBounds(y / 4, tile);
    TileBounds(x / 4, tile);
    var ty, tx := TileOf(y / 4, tile), TileOf(x / 4, tile);
    CoversTile(h, y / 4, tile, pad);
    CoversTile(w, x / 4, tile, pad);
    TiledBlock(net, img, h, w, tile, pad, y, x);
    PatchRect(img, h, w, ty, tx, tile, pad);
    PatchWindow(img, h, w, ty, tx, tile, pad, y / 4, x / 4, radius);
    LocalBlock(net, radius, Patch(img, h, w, ty, tx, tile, pad), To(ty, h, tile, pad) - From(ty, pad),
               To(tx, w, tile, pad) - From(tx, pad), y / 4 - From(ty, pad), x / 4 - From(tx, pad), img, h, w, y / 4, x / 4);
    BlockPixel(net(Patch(img, h, w, ty, tx, tile, pad)), y / 4 - From(ty, pad), x / 4 - From(tx, pad), net(img), y, x);
  }

  lemma CoversTile(n: nat, c: nat, tile: nat, pad: nat)
    requires tile > 0 && c < n
    ensures PaddingCovers(n, tile, pad) ==> WholeSpan(TileOf(c, tile), n, tile, pad)
  {
    TileBounds(c, tile);
    var k: nat := c / tile;
    assert TileOf(c, tile) == k * tile;
  }

  lemma TiledBlock<P(!new), Q>(net: Image<P> -> Image<Q>, img: Image<P>, h: nat, w: nat, tile: nat, pad: nat, y: nat, x: nat)
    requires tile > 0 && Rect(img, h, w) && y < 4 * h && x < 4 * w
    ensures var ty, tx := TileOf(y / 4, tile), TileOf(x / 4, tile);
      && ty <= y / 4 && tx <= x / 4
      && TiledAt(net, img, h, w, tile, pad, y, x)
      == SubPixel(net(Patch(img, h, w, ty, tx, tile, pad)), y / 4 - From(ty, pad), x / 4 - From(tx, pad), y % 4, x % 4)
  {
    hide Patch, TileOf, Pixel;
    TileBounds(y / 4, tile);
    TileBounds(x / 4, tile);
    FourParts(y);
    FourParts(x);
  }

  lemma BlockPixel<Q>(p: Image<Q>, py: nat, px: nat, q: Image<Q>, y: nat, x: nat)
    requires SameBlock(p, py, px, q, y / 4, x / 4)
    ensures SubPixel(p, py, px, y % 4, x % 4) == Pixel(q, y, x)
  {
    assert SubPixel(p, py, px, y % 4, x % 4) == SubPixel(q, y / 4, x / 4, y % 4, x % 4);
    FourParts(y);
    FourParts(x);
  }

  lemma FourParts(c: nat)
    ensures 4 * (c / 4) + c % 4 == c
  {}

  lemma LocalBlock<P(!new), Q>(net: Image<P> -> Image<Q>, radius: nat, p: Image<P>, hp: nat, wp: nat, py: nat, px: nat,
                               q: Image<P>, hq: nat, wq: nat, qy: nat, qx: nat)
    requires Local(net, radius) && Rect(p, hp, wp) && Rect(q, hq, wq) && py < hp && px < wp && qy < hq && qx < wq
    requires SameWindow(p, hp, wp, py, px, q, hq, wq, qy, qx, radius)
    ensures SameBlock(net(p), py, px, net(q), qy, qx)
  {}

  // ---------------------------------------------------------------- when tiling leaves a seam

  ghost function Lit(p: Image<bool>, y: int, x: int): bool {
    0 <= y < |p| && 0 <= x < |p[y]| && p[y][x]
  }

  /** Nearest-neighbour upscaling of the image moved by `(dy, dx)`, dark where nothing moves in. */
  ghost function Shifted(dy: int, dx: int): Image<bool> -> Image<bool> {
    (p: Image<bool>) => ShiftedImage(p, dy, dx)
  }

  ghost function ShiftedImage(p: Image<bool>, dy: int, dx: int): Image<bool> {
    var width := if |p| > 0 then |p[0]| else 0;
    seq(4 * |p|, y requires 0 <= y => seq(4 * width, x requires 0 <= x => Lit(p, y / 4 + dy, x / 4 + dx)))
  }

  lemma ShiftedPixel(p: Image<bool>, h: nat, w: nat, dy: int, dx: int, y: nat, x: nat)
    requires Rect(p, h, w) && y < 4 * h && x < 4 * w
    ensures Pixel(Shifted(dy, dx)(p), y, x) == Some(Lit(p, y / 4 + dy, x / 4 + dx))
  {}

  lemma ShiftedScales(dy: int, dx: int)
    ensures Scales(Shifted(dy, dx))
  {}

  lemma ShiftedLocal(dy: int, dx: int, radius: nat)
    requires Within(dy, radius) && Within(dx, radius)
    ensures Local(Shifted(dy, dx), radius)
  {
    var net := Shifted(dy, dx);
    forall p, hp: nat, wp: nat, py: nat, px: nat, q, hq: nat, wq: nat, qy: nat, qx: nat |
      Rect(p, hp, wp) && Rect(q, hq, wq) && py < hp && px < wp && qy < hq && qx < wq
      && SameWindow(p, hp, wp, py, px, q, hq, wq, qy, qx, radius)
      ensures SameBlock(net(p), py, px, net(q), qy, qx)
    {
      ShiftedBlock(p, hp, wp, py, px, q, hq, wq, qy, qx, dy, dx, radius);
    }
  }

  lemma ShiftedBlock(p: Image<bool>, hp: nat, wp: nat, py: nat, px: nat,
                     q: Image<bool>, hq: nat, wq: nat, qy: nat, qx: nat, dy: int, dx: int, radius: nat)
    requires Rect(p, hp, wp) && Rect(q, hq, wq) && py < hp && px < wp && qy < hq && qx < wq
    requires Within(dy, radius) && Within(dx, radius)
    requires SameWindow(p, hp, wp, py, px, q, hq, wq, qy, qx, radius)
    ensures SameBlock(Shifted(dy, dx)(p), py, px, Shifted(dy, dx)(q), qy, qx)
  {
    hide Shifted, Pixel;
    assert Around(p, hp, wp, py, px, dy, dx) == Around(q, hq, wq, qy, qx, dy, dx);
    assert Lit(p, py + dy, px + dx) == Lit(q, qy + dy, qx + dx);
    forall u: nat, v: nat | u < 4 && v < 4
      ensures SubPixel(Shifted(dy, dx)(p), py, px, u, v) == SubPixel(Shifted(dy, dx)(q), qy, qx, u, v)
    {
      ShiftedPixel(p, hp, wp, dy, dx, 4 * py + u, 4 * px + v);
      ShiftedPixel(q, hq, wq, dy, dx, 4 * qy + u, 4 * qx + v);
    }
  }

  /** Along a side some padded tile does not cover, a move by one more than the padding crosses a
      cut: it stays in the image but leaves the patch. */
  lemma CutAlong(n: nat, tile: nat, pad: nat) returns (k: nat, c: nat, d: int)
    requires tile > 0 && !PaddingCovers(n, tile, pad)
    ensures k * tile <= c < n && c < k * tile + tile
    ensures Within(d, pad + 1) && 0 <= c + d < n
    ensures !(From(k * tile, pad) <= c + d < To(k * tile, n, tile, pad))
  {
    k :| k * tile < n && !WholeSpan(k * tile, n, tile, pad);
    if From(k * tile, pad) > 0 {
      c, d := k * tile, -(pad + 1);
    } else {
      c, d := k * tile + tile - 1, pad + 1;
    }
  }

  ghost function White(h: nat, w: nat): Image<bool> {
    seq(h, _ => seq(w, _ => true))
  }

  lemma WhitePatch(h: nat, w: nat, ty: nat, tx: nat, tile: nat, pad: nat, y: int, x: int)
    requires ty < h && tx < w
    ensures Lit(Patch(White(h, w), h, w, ty, tx, tile, pad), y, x)
       <==> 0 <= y < To(ty, h, tile, pad) - From(ty, pad) && 0 <= x < To(tx, w, tile, pad) - From(tx, pad)
    ensures Lit(White(h, w), y, x) <==> 0 <= y < h && 0 <= x < w
  {}

  /** The tiled and the whole result of a move differ at a pixel whose move leaves its patch. */
  lemma SeamAt(h: nat, w: nat, tile: nat, pad: nat, i: nat, j: nat, cy: nat, cx: nat, dy: int, dx: int)
    requires tile > 0 && i * tile <= cy < h && cy < i * tile + tile && j * tile <= cx < w && cx < j * tile + tile
    requires 0 <= cy + dy < h && 0 <= cx + dx < w
    requires !(From(i * tile, pad) <= cy + dy < To(i * tile, h, tile, pad)
               && From(j * tile, pad) <= cx + dx < To(j * tile, w, tile, pad))
    ensures TiledAt(Shifted(dy, dx), White(h, w), h, w, tile, pad, 4 * cy, 4 * cx)
         != Pixel(Shifted(dy, dx)(White(h, w)), 4 * cy, 4 * cx)
  {
    var ty, tx := i * tile, j * tile;
    var img := White(h, w);
    hide TiledAt, Patch, Pixel, Shifted, Lit, White, Rect;
    assert Rect(img, h, w) by { WhiteRect(h, w); }
    InTile(Shifted(dy, dx), img, h, w, tile, pad, ty, tx, i, j, 4 * cy, 4 * cx);
    PatchRect(img, h, w, ty, tx, tile, pad);
    ShiftedPixel(Patch(img, h, w, ty, tx, tile, pad), To(ty, h, tile, pad) - From(ty, pad), To(tx, w, tile, pad) - From(tx, pad),
                 dy, dx, 4 * cy - 4 * From(ty, pad), 4 * cx - 4 * From(tx, pad));
    ShiftedPixel(img, h, w, dy, dx, 4 * cy, 4 * cx);
    WhitePatch(h, w, ty, tx, tile, pad, cy - From(ty, pad) + dy, cx - From(tx, pad) + dx);
    WhitePatch(h, w, ty, tx, tile, pad, cy + dy, cx + dx);
  }

  lemma WhiteRect(h: nat, w: nat)
    ensures Rect(White(h, w), h, w)
  {}

  /** One more than the padding is too far: on every image size some padded tile does not cover,
      an operator of that radius shows a seam. */
  lemma TilingVisible(h: nat, w: nat, tile: nat, pad: nat, radius: nat)
    returns (net: Image<bool> -> Image<bool>, img: Image<bool>, y: nat, x: nat)
    requires tile > 0 && h > 0 && w > 0 && radius > pad
    requires !PaddingCovers(h, tile, pad) || !PaddingCovers(w, tile, pad)
    ensures Scales(net) && Local(net, radius) && Rect(img, h, w) && y < 4 * h && x < 4 * w
    ensures TiledAt(net, img, h, w, tile, pad, y, x) != Pixel(net(img), y, x)
  {
    hide TiledAt, Pixel, Shifted, White, Local, Scales;
    var i, cy, dy, j, cx, dx := 0, 0, 0, 0, 0, 0;
    if !PaddingCovers(h, tile, pad) {
      i, cy, dy := CutAlong(h, tile, pad);
    } else {
      j, cx, dx := CutAlong(w, tile, pad);
    }
    WhiteRect(h, w);
    net, img, y, x := Shifted(dy, dx), White(h, w), 4 * cy, 4 * cx;
    ShiftedScales(dy, dx);
    ShiftedLocal(dy, dx, radius);
    SeamAt(h, w, tile, pad, i, j, cy, cx, dy, dx);
  }
}
