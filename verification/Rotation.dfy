/** The rewriting of plane rotations, drm_rotation_simplify (drivers/gpu/drm/drm_blend.c). */
module Rotation {

  const ROTATE_MASK: bv32 := 0xf
  const REFLECT_X: bv32 := 0x10
  const REFLECT_Y: bv32 := 0x20
  const REFLECT_MASK: bv32 := 0x30
  const ALL: bv32 := 0x3f

  // ffs, for the four rotate bits: the position of the lowest bit set, counted from 1.
  function Ffs(bits: bv32): (n: nat)
    ensures n <= 4
  {
    if bits & 1 != 0 then 1
    else if bits & 2 != 0 then 2
    else if bits & 4 != 0 then 3
    else if bits & 8 != 0 then 4
    else 0
  }

  // BIT(n)
  function Bit(n: nat): bv32
    requires n < 4
  {
    if n == 0 then 1 else if n == 1 then 2 else if n == 2 then 4 else 8
  }

  // Both reflections toggled, and half a turn more.
  function Rewrite(rotation: bv32): bv32 {
    var r := rotation ^ (REFLECT_X | REFLECT_Y);
    (r & REFLECT_MASK) | Bit((Ffs(r & ROTATE_MASK) + 1) % 4)
  }

  function Simplify(rotation: bv32, supported: bv32): bv32 {
    if rotation & !supported != 0 then Rewrite(rotation) else rotation
  }

  /* ---------- what a rotation value means ---------- */

  // Exactly one rotate bit, as drm_plane_create_rotation_property demands.
  predicate OneRotateBit(r: bv32) {
    var bits := r & ROTATE_MASK;
    bits == 1 || bits == 2 || bits == 4 || bits == 8
  }

  // A pixel of an image, and the size of the image.
  datatype Pixel = Pixel(x: int, y: int, width: int, height: int)

  // One quarter turn, counter-clockwise; y points down.
  function QuarterTurn(p: Pixel): Pixel {
    Pixel(p.y, p.width - 1 - p.x, p.height, p.width)
  }

  function Turn(p: Pixel, quarters: nat): Pixel {
    if quarters == 0 then p else QuarterTurn(Turn(p, quarters - 1))
  }

  function Reflect(p: Pixel, alongX: bool, alongY: bool): Pixel {
    p.(x := if alongX then p.width - 1 - p.x else p.x, y := if alongY then p.height - 1 - p.y else p.y)
  }

  // Where a pixel of the source rectangle ends up: reflection first, then rotation.
  function Place(p: Pixel, r: bv32): Pixel
    requires OneRotateBit(r)
  {
    Turn(Reflect(p, r & REFLECT_X != 0, r & REFLECT_Y != 0), Ffs(r & ROTATE_MASK) - 1)
  }

  // Half a turn is a reflection along both axes, whatever comes after it.
  lemma {:induction false} HalfTurnIsReflection(p: Pixel, alongX: bool, alongY: bool, quarters: nat)
    ensures Turn(Reflect(p, !alongX, !alongY), quarters + 2) == Turn(Reflect(p, alongX, alongY), quarters)
  {
    if quarters == 0 {
      var q := Reflect(p, !alongX, !alongY);
      assert Turn(q, 1) == QuarterTurn(q);
      assert Turn(q, 2) == QuarterTurn(QuarterTurn(q));
    } else {
      HalfTurnIsReflection(p, alongX, alongY, quarters - 1);
    }
  }

  // The bits of the rewritten value.
  lemma RewriteBits(r: bv32)
    requires OneRotateBit(r)
    ensures OneRotateBit(Rewrite(r)) && Rewrite(r) & !ALL == 0
    ensures (Rewrite(r) & REFLECT_X != 0) == !(r & REFLECT_X != 0)
    ensures (Rewrite(r) & REFLECT_Y != 0) == !(r & REFLECT_Y != 0)
    ensures Ffs(Rewrite(r) & ROTATE_MASK) ==
      if Ffs(r & ROTATE_MASK) <= 2 then Ffs(r & ROTATE_MASK) + 2 else Ffs(r & ROTATE_MASK) - 2
  {
  }

  // The rewritten value places every pixel of every image where the original did.
  lemma RewriteKeepsMeaning(r: bv32, p: Pixel)
    requires OneRotateBit(r)
    ensures OneRotateBit(Rewrite(r)) && Place(p, Rewrite(r)) == Place(p, r)
  {
    RewriteBits(r);
    var rx, ry, n := r & REFLECT_X != 0, r & REFLECT_Y != 0, Ffs(r & ROTATE_MASK) - 1;
    if n < 2 {
      HalfTurnIsReflection(p, rx, ry, n);
    } else {
      HalfTurnIsReflection(p, !rx, !ry, n - 2);
    }
  }

  lemma SimplifyKeepsMeaning(r: bv32, supported: bv32, p: Pixel)
    requires OneRotateBit(r)
    ensures OneRotateBit(Simplify(r, supported)) && Place(p, Simplify(r, supported)) == Place(p, r)
  {
    RewriteKeepsMeaning(r, p);
  }

  // Rewriting twice gives back the original, except for bits that mean nothing.
  lemma RewriteTwice(r: bv32)
    requires OneRotateBit(r)
    ensures Rewrite(Rewrite(r)) == r & ALL
    ensures Rewrite(Rewrite(r)) == r <==> r & !ALL == 0
  {
    RewriteBits(r);
    RewriteBits(Rewrite(r));
  }

  // A pixel that every symmetry of its image moves to another place.
  const CORNER: Pixel := Pixel(0, 1, 4, 9)

  // Where up to three quarter turns move a pixel.
  lemma {:induction false} TurnedPlace(p: Pixel, quarters: nat)
    requires quarters < 4
    ensures Turn(p, quarters) ==
      if quarters == 0 then p
      else if quarters == 1 then Pixel(p.y, p.width - 1 - p.x, p.height, p.width)
      else if quarters == 2 then Pixel(p.width - 1 - p.x, p.height - 1 - p.y, p.width, p.height)
      else Pixel(p.height - 1 - p.y, p.x, p.height, p.width)
  {
    if quarters > 0 {
      TurnedPlace(p, quarters - 1);
    }
  }

  // Where it goes. An image of 4 by 9 has its last column at 3 and its last row at 8.
  function CornerAt(alongX: bool, alongY: bool, quarters: nat): Pixel {
    var x, y := if alongX then 3 else 0, if alongY then 7 else 1;
    if quarters == 0 then Pixel(x, y, 4, 9)
    else if quarters == 1 then Pixel(y, 3 - x, 9, 4)
    else if quarters == 2 then Pixel(3 - x, 8 - y, 4, 9)
    else Pixel(8 - y, x, 9, 4)
  }

  lemma CornerPlaced(p: Pixel, alongX: bool, alongY: bool, quarters: nat)
    requires quarters < 4 && p == Reflect(CORNER, alongX, alongY)
    ensures Turn(p, quarters) == CornerAt(alongX, alongY, quarters)
  {
    TurnedPlace(p, quarters);
  }

  lemma CornerTells(x: bool, y: bool, n: nat, x': bool, y': bool, n': nat)
    requires n < 4 && n' < 4 && CornerAt(x, y, n) == CornerAt(x', y', n')
    ensures (x' == x && y' == y && n' == n) || (x' != x && y' != y && n' == if n < 2 then n + 2 else n - 2)
  {
  }

  // What a value says: the reflections, and how many quarter turns.
  datatype Parts = Parts(alongX: bool, alongY: bool, quarters: nat)

  function PartsOf(r: bv32): Parts
    requires OneRotateBit(r)
  {
    Parts(r & REFLECT_X != 0, r & REFLECT_Y != 0, Ffs(r & ROTATE_MASK) - 1)
  }

  lemma PartsTell(a: bv32, b: bv32)
    requires OneRotateBit(a) && OneRotateBit(b) && PartsOf(a) == PartsOf(b)
    ensures a & ALL == b & ALL
  {
  }

  lemma DefinedBits(a: bv32)
    requires a & !ALL == 0
    ensures a & ALL == a
  {
  }

  lemma RewriteParts(r: bv32) returns (w: bv32)
    requires OneRotateBit(r)
    ensures w == Rewrite(r) && OneRotateBit(w) && w & ALL == w
    ensures var p, q := PartsOf(r), PartsOf(w);
      && q.alongX != p.alongX && q.alongY != p.alongY
      && q.quarters == if p.quarters < 2 then p.quarters + 2 else p.quarters - 2
  {
    RewriteBits(r);
    w := Rewrite(r);
    DefinedBits(w);
  }

  // Turns and reflections that move it to the same place are the same, or half a turn and both
  // reflections apart.
  lemma SamePlace(p: Parts, q: Parts)
    requires p.quarters < 4 && q.quarters < 4
    requires Turn(Reflect(CORNER, p.alongX, p.alongY), p.quarters) ==
      Turn(Reflect(CORNER, q.alongX, q.alongY), q.quarters)
    ensures q == p ||
      (q.alongX != p.alongX && q.alongY != p.alongY
       && q.quarters == if p.quarters < 2 then p.quarters + 2 else p.quarters - 2)
  {
    CornerPlaced(Reflect(CORNER, p.alongX, p.alongY), p.alongX, p.alongY, p.quarters);
    CornerPlaced(Reflect(CORNER, q.alongX, q.alongY), q.alongX, q.alongY, q.quarters);
    CornerTells(p.alongX, p.alongY, p.quarters, q.alongX, q.alongY, q.quarters);
  }

  lemma PlaceOfParts(p: Pixel, r: bv32) returns (q: Parts)
    requires OneRotateBit(r)
    ensures q == PartsOf(r) && q.quarters < 4 && Place(p, r) == Turn(Reflect(p, q.alongX, q.alongY), q.quarters)
  {
    q := PartsOf(r);
  }

  // Only two values mean the same: a value and its rewriting.
  lemma OnlyRewriteMeansTheSame(r: bv32, r': bv32)
    requires OneRotateBit(r) && OneRotateBit(r') && Place(CORNER, r') == Place(CORNER, r)
    ensures r' & ALL == r & ALL || r' & ALL == Rewrite(r)
  {
    var w := RewriteParts(r);
    var p := PlaceOfParts(CORNER, r);
    var q := PlaceOfParts(CORNER, r');
    SamePlace(p, q);
    if q == p {
      PartsTell(r', r);
    } else {
      PartsTell(r', w);
    }
  }

  ghost predicate SameMeaning(r: bv32, r': bv32)
    requires OneRotateBit(r)
  {
    OneRotateBit(r') && forall p :: Place(p, r') == Place(p, r)
  }

  lemma SupportedPart(a: bv32, supported: bv32)
    requires a & !supported == 0
    ensures (a & ALL) & !supported == 0
  {
  }

  // A supported value stays as it is. Otherwise the result is supported exactly if the hardware
  // supports any value with the same meaning.
  lemma SimplifyFindsSupported(r: bv32, supported: bv32)
    requires OneRotateBit(r) && r & !ALL == 0
    ensures r & !supported == 0 ==> Simplify(r, supported) == r
    ensures Simplify(r, supported) & !supported == 0 <==>
      exists r' :: SameMeaning(r, r') && r' & !supported == 0
  {
    if Simplify(r, supported) & !supported == 0 {
      forall p
        ensures OneRotateBit(Simplify(r, supported)) && Place(p, Simplify(r, supported)) == Place(p, r)
      {
        SimplifyKeepsMeaning(r, supported, p);
      }
      assert SameMeaning(r, Simplify(r, supported));
    }
    if r' :| SameMeaning(r, r') && r' & !supported == 0 {
      OnlyRewriteMeansTheSame(r, r');
      SupportedPart(r', supported);
      DefinedBits(r);
    }
  }

  // A rotation the hardware lacks becomes a reflection along both axes.
  lemma HalfTurnBecomesReflections()
    ensures Simplify(0x4, 0x31) == 0x31
  {
  }

  // The documented use: hardware that lacks one of the reflections only.
  lemma MissingReflectionEliminated(r: bv32, missing: bv32)
    requires OneRotateBit(r) && r & !ALL == 0 && (missing == REFLECT_X || missing == REFLECT_Y)
    ensures Simplify(r, ALL ^ missing) & !(ALL ^ missing) == 0
  {
    RewriteBits(r);
  }
}
