/**
 The drawing context: an indexed-colour surface plus the state every drawing call
 consults (clipping quad, shifting and transparency tables, background, colour and
 pattern), its creation, its state setters, `clear` and the top-left copy from a
 surface.
 */
module Contexts {
  import opened GL
  import opened Raster

  /** The 32-bit fill-pattern mask. */
  type Mask = m: int | 0 <= m < 0x1_0000_0000

  datatype Context = Context(
    surface: Surface,
    clip: Quad,
    background: Pixel,
    color: Pixel,
    mask: Mask,
    shifting: seq<Pixel>,
    transparent: seq<bool>)
  {
    predicate Valid()
    {
      surface.Valid() && Tables(shifting, transparent)
    }

    /** The clipping quad can be drawn through: it is empty or lies inside the surface. */
    predicate ClipFits()
    {
      QuadFits(clip, surface.width, surface.height)
    }
  }

  /** The quad covering a whole `width` x `height` surface. */
  function FullQuad(width: nat, height: nat): (q: Quad)
    ensures QuadFits(q, width, height)
    ensures forall x, y :: InQuad(q, x, y) <==> 0 <= x < width && 0 <= y < height
  {
    Quad(0, 0, width - 1, height - 1)
  }

  /**
   A context over a fresh `width` x `height` surface: identity shifting, only index
   0 transparent, clipping over the whole surface, background, colour and mask 0.
   The surface's initial pixels belong to the surface allocator and are taken as 0.
   */
  method Create(width: nat, height: nat) returns (ctx: Context)
    ensures ctx.Valid() && ctx.ClipFits()
    ensures ctx.surface.width == width && ctx.surface.height == height
    ensures ctx.clip == Quad(0, 0, width - 1, height - 1)
    ensures ctx.background == 0 && ctx.color == 0 && ctx.mask == 0
    ensures forall i :: 0 <= i < MaxPaletteColors ==> ctx.shifting[i] == i
    ensures forall i :: 0 <= i < MaxPaletteColors ==> (ctx.transparent[i] <==> i == 0)
  {
    var shifting: seq<Pixel> := seq(MaxPaletteColors, _ => 0);
    var transparent: seq<bool> := seq(MaxPaletteColors, _ => true);
    var i := 0;
    while i < MaxPaletteColors
      invariant 0 <= i <= MaxPaletteColors
      invariant |shifting| == |transparent| == MaxPaletteColors
      invariant forall j :: 0 <= j < i ==> shifting[j] == j && !transparent[j]
    {
      shifting := shifting[i := i];
      transparent := transparent[i := false];
      i := i + 1;
    }
    transparent := transparent[0 := true];
    ctx := Context(Blank(width, height, 0), FullQuad(width, height), 0, 0, 0, shifting, transparent);
  }

  /** Every pixel of the surface becomes the background index. */
  method Clear(ctx: Context) returns (out: Surface)
    requires ctx.Valid()
    ensures SameShape(ctx.surface, out)
    ensures forall x, y :: out.Contains(x, y) ==> out.At(x, y) == ctx.background
  {
    out := ctx.surface;
    var y := 0;
    while y < out.height
      invariant 0 <= y <= out.height
      invariant SameShape(ctx.surface, out)
      invariant forall j, i :: 0 <= j < y && 0 <= i < out.width ==> out.rows[j][i] == ctx.background
    {
      var row := out.rows[y];
      var x := 0;
      while x < out.width
        invariant 0 <= x <= out.width == |row|
        invariant forall i :: 0 <= i < x ==> row[i] == ctx.background
      {
        row := row[x := ctx.background];
        x := x + 1;
      }
      out := out.(rows := out.rows[y := row]);
      y := y + 1;
    }
  }

  /**
   Copies the top-left block the context and `src` have in common from `src` into
   the context surface, at the same coordinates. Pixels outside that block keep
   their value.
   */
  method ToSurface(ctx: Context, src: Surface) returns (out: Surface)
    requires ctx.Valid() && src.Valid()
    ensures SameShape(ctx.surface, out)
    ensures forall x, y :: out.Contains(x, y) ==>
              out.At(x, y) == if src.Contains(x, y) then src.At(x, y) else ctx.surface.At(x, y)
  {
    var width := ctx.surface.width;
    var height := ctx.surface.height;
    if width > src.width {
      width := src.width;
    }
    if height > src.height {
      height := src.height;
    }
    out := ctx.surface;
    var y := 0;
    while y < height
      invariant 0 <= y <= height
      invariant SameShape(ctx.surface, out)
      invariant forall i, j :: out.Contains(i, j) ==>
                  out.At(i, j) == if i < width && j < y then src.At(i, j) else ctx.surface.At(i, j)
    {
      var row := out.rows[y];
      var x := 0;
      while x < width
        invariant 0 <= x <= width && |row| == ctx.surface.width
        invariant forall i :: 0 <= i < |row| ==> row[i] == if i < x then src.At(i, y) else ctx.surface.At(i, y)
      {
        row := row[x := src.rows[y][x]];
        x := x + 1;
      }
      out := out.(rows := out.rows[y := row]);
      y := y + 1;
    }
  }

  /** The last position below `n` where `keys` holds `key`, if there is one. */
  function LastIndexOf<T(==)>(keys: seq<T>, n: nat, key: T): (r: Option<nat>)
    requires n <= |keys|
    ensures r.Some? ==> r.value < n && keys[r.value] == key
    ensures r.Some? ==> forall j :: r.value < j < n ==> keys[j] != key
    ensures r.None? ==> forall j :: 0 <= j < n ==> keys[j] != key
  {
    if n == 0 then None
    else if keys[n - 1] == key then Some(n - 1)
    else LastIndexOf(keys, n - 1, key)
  }

  /**
   Installs a partial index remap: entry `from[i]` becomes `to[i]` for every
   `i < count`, in order, so a later duplicate wins. The target values are machine
   words stored into a one-byte table, hence the reduction modulo 256. Without
   `from` the whole table returns to the identity.
   */
  method Shifting(ctx: Context, from: Option<seq<nat>>, to: seq<nat>, count: nat) returns (r: Context)
    requires ctx.Valid()
    requires from.Some? ==> count <= |from.value| && count <= |to|
    requires from.Some? ==> forall i :: 0 <= i < count ==> from.value[i] < MaxPaletteColors
    ensures r.Valid() && r == ctx.(shifting := r.shifting)
    ensures from.None? ==> forall c :: 0 <= c < MaxPaletteColors ==> r.shifting[c] == c
    ensures from.Some? ==> forall c :: 0 <= c < MaxPaletteColors ==>
              r.shifting[c] == match LastIndexOf(from.value, count, c)
                               case Some(i) => to[i] % MaxPaletteColors
                               case None => ctx.shifting[c]
  {
    var table := ctx.shifting;
    if from.None? {
      var i := 0;
      while i < MaxPaletteColors
        invariant 0 <= i <= MaxPaletteColors == |table|
        invariant forall c :: 0 <= c < i ==> table[c] == c
      {
        table := table[i := i];
        i := i + 1;
      }
    } else {
      var keys := from.value;
      var i := 0;
      while i < count
        invariant 0 <= i <= count && |table| == MaxPaletteColors
        invariant forall c :: 0 <= c < MaxPaletteColors ==>
                    table[c] == match LastIndexOf(keys, i, c)
                                case Some(k) => to[k] % MaxPaletteColors
                                case None => ctx.shifting[c]
      {
        table := table[keys[i] := to[i] % MaxPaletteColors];
        i := i + 1;
      }
    }
    r := ctx.(shifting := table);
  }

  /**
   Installs per-index transparency flags: entry `indexes[i]` becomes `flags[i]`
   for every `i < count`, in order. Without `indexes` the table returns to "only
   index 0 is transparent".
   */
  method Transparent(ctx: Context, indexes: Option<seq<Pixel>>, flags: seq<bool>, count: nat) returns (r: Context)
    requires ctx.Valid()
    requires indexes.Some? ==> count <= |indexes.value| && count <= |flags|
    ensures r.Valid() && r == ctx.(transparent := r.transparent)
    ensures indexes.None? ==> forall c :: 0 <= c < MaxPaletteColors ==> (r.transparent[c] <==> c == 0)
    ensures indexes.Some? ==> forall c :: 0 <= c < MaxPaletteColors ==>
              r.transparent[c] == match LastIndexOf(indexes.value, count, c)
                                  case Some(i) => flags[i]
                                  case None => ctx.transparent[c]
  {
    var table := ctx.transparent;
    if indexes.None? {
      var i := 0;
      while i < MaxPaletteColors
        invariant 0 <= i <= MaxPaletteColors == |table|
        invariant forall c :: 0 <= c < i ==> !table[c]
      {
        table := table[i := false];
        i := i + 1;
      }
      table := table[0 := true];
    } else {
      var keys := indexes.value;
      var i := 0;
      while i < count
        invariant 0 <= i <= count && |table| == MaxPaletteColors
        invariant forall c :: 0 <= c < MaxPaletteColors ==>
                    table[c] == match LastIndexOf(keys, i, c)
                                case Some(k) => flags[k]
                                case None => ctx.transparent[c]
      {
        table := table[keys[i] := flags[i]];
        i := i + 1;
      }
    }
    r := ctx.(transparent := table);
  }

  /**
   Sets the clipping quad. Without a quad the clip covers the whole surface; a
   given quad is stored as it is, without checking it against the surface.
   */
  function Clipping(ctx: Context, region: Option<Quad>): (r: Context)
    ensures r == ctx.(clip := r.clip)
    ensures region.None? ==> r.ClipFits()
    ensures region.None? ==> forall x, y :: InQuad(r.clip, x, y) <==> r.surface.Contains(x, y)
    ensures region.Some? ==> r.clip == region.value
  {
    match region
    case None => ctx.(clip := FullQuad(ctx.surface.width, ctx.surface.height))
    case Some(q) => ctx.(clip := q)
  }

  /** Sets the background index used by `clear`; nothing else changes. */
  function Background(ctx: Context, index: Pixel): (r: Context)
    ensures r.background == index && r == ctx.(background := r.background)
  {
    ctx.(background := index)
  }

  /** Sets the current colour index; nothing else changes. */
  function Color(ctx: Context, index: Pixel): (r: Context)
    ensures r.color == index && r == ctx.(color := r.color)
  {
    ctx.(color := index)
  }

  /** Sets the fill-pattern mask; nothing else changes. */
  function Pattern(ctx: Context, mask: Mask): (r: Context)
    ensures r.mask == mask && r == ctx.(mask := r.mask)
  {
    ctx.(mask := mask)
  }
}
