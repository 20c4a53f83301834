/** Which texture lookup function a `sample(sampler, coords)` call becomes:
    decided by the sampler's dimension, the number of coordinates, the
    dialect and whether textures are sharpened. */
module SkslTexture {
  import opened Options
  import opened SkslIr

  /** Modern dialects have one overloaded `texture`; legacy ones name the
      dimension in every lookup function. */
  datatype Dialect = Modern | Legacy

  datatype Sampler = Sampler1D | Sampler2D | Sampler2DRect

  /** A direct lookup, or a projective one that divides by the last coordinate. */
  datatype Lookup = Direct | Projective

  /** The bias added to every lookup when textures are sharpened. */
  const SharpenBias: real := -0.5

  function SamplerOf(k: Kind): Option<Sampler> {
    match k
    case Sampler1DKind => Some(Sampler1D)
    case Sampler2DKind => Some(Sampler2D)
    case Sampler2DRectKind => Some(Sampler2DRect)
    case _ => None
  }

  function Dimension(s: Sampler): nat {
    if s.Sampler1D? then 1 else 2
  }

  function DimensionName(s: Sampler): string {
    match s
    case Sampler1D => "1D"
    case Sampler2D => "2D"
    case Sampler2DRect => "2DRect"
  }

  /** As many coordinates as the sampler has dimensions is a direct lookup,
      one more is a projective one; a rectangle sampler is always looked up
      directly. */
  function Classify(s: Sampler, arity: nat): (r: Option<Lookup>)
    ensures r.Some? <==> arity == Dimension(s) || arity == Dimension(s) + 1
    ensures r == Some(Projective) <==> arity == Dimension(s) + 1 && !s.Sampler2DRect?
  {
    if arity == Dimension(s) then Some(Direct)
    else if arity == Dimension(s) + 1 then (if s.Sampler2DRect? then Some(Direct) else Some(Projective))
    else None
  }

  function TextureFunction(d: Dialect, s: Sampler, l: Lookup): string {
    "texture" + (if d.Legacy? then DimensionName(s) else "") + (if l.Projective? then "Proj" else "")
  }

  /** The arguments of the emitted lookup: the sampler, the coordinates and,
      when sharpening, the bias. */
  function LookupArgs(sampler: Expr, coords: Expr, sharpen: bool): (r: seq<Expr>)
    ensures |r| == (if sharpen then 3 else 2)
    ensures r[0] == sampler && r[1] == coords
    ensures sharpen ==> r[2] == FloatLit(SharpenBias)
  {
    [sampler, coords] + (if sharpen then [FloatLit(SharpenBias)] else [])
  }

  /** `sample(sampler, coords)` becomes the lookup function the dialect
      provides; any other node is left alone, and so is a sample call whose
      coordinate count fits neither lookup. */
  function TextureRoot(d: Dialect, sharpen: bool, e: Expr): Expr {
    match e
    case Call(fn, args, ty) =>
      if fn == "sample" && |args| == 2 && TypeOf(args[0]).Type? && TypeOf(args[1]).Type?
         && SamplerOf(TypeOf(args[0]).kind).Some?
         && Classify(SamplerOf(TypeOf(args[0]).kind).value, TypeOf(args[1]).columns).Some? then
        var s := SamplerOf(TypeOf(args[0]).kind).value;
        var l := Classify(s, TypeOf(args[1]).columns).value;
        Call(TextureFunction(d, s, l), LookupArgs(args[0], args[1], sharpen), ty)
      else e
    case _ => e
  }

  /** A dispatched call keeps the result type and the sampler and the
      coordinates in place; sharpening adds exactly the bias after them. */
  lemma TextureRootShape(d: Dialect, sharpen: bool, e: Expr)
    requires e.Call? && e.fn == "sample" && |e.args| == 2
    requires TypeOf(e.args[0]).Type? && SamplerOf(TypeOf(e.args[0]).kind).Some?
    requires TypeOf(e.args[1]).Type?
    requires Classify(SamplerOf(TypeOf(e.args[0]).kind).value, TypeOf(e.args[1]).columns).Some?
    ensures var r := TextureRoot(d, sharpen, e);
      r.Call? && TypeOf(r) == TypeOf(e) && r.args[..2] == e.args
      && |r.args| == (if sharpen then 3 else 2)
      && (sharpen ==> r.args[2] == FloatLit(SharpenBias))
      && r.fn == TextureFunction(d, SamplerOf(TypeOf(e.args[0]).kind).value,
                                 Classify(SamplerOf(TypeOf(e.args[0]).kind).value, TypeOf(e.args[1]).columns).value)
  {
    var r := TextureRoot(d, sharpen, e);
    assert r.args[..2] == [e.args[0], e.args[1]];
    assert e.args == [e.args[0], e.args[1]];
  }

  /** In a legacy dialect the lookup function's name tells the sampler's
      dimension and whether the lookup is projective. */
  lemma LegacyNamesDistinct(s1: Sampler, l1: Lookup, s2: Sampler, l2: Lookup)
    ensures TextureFunction(Legacy, s1, l1) == TextureFunction(Legacy, s2, l2) <==> s1 == s2 && l1 == l2
  {
    var n1, n2 := TextureFunction(Legacy, s1, l1), TextureFunction(Legacy, s2, l2);
    if s1 != s2 {
      assert n1[7..9] == DimensionName(s1)[..2];
      assert n2[7..9] == DimensionName(s2)[..2];
      if s1.Sampler1D? || s2.Sampler1D? {
        assert n1[7] != n2[7];
      } else if |n1| == |n2| {
        assert n1[9] != n2[9];
      }
    } else if l1 != l2 {
      assert |n1| != |n2|;
    }
  }

  /** In a modern dialect the name is the same for every sampler and tells
      only whether the lookup is projective. */
  lemma ModernNamesByLookup(s1: Sampler, l1: Lookup, s2: Sampler, l2: Lookup)
    ensures TextureFunction(Modern, s1, l1) == TextureFunction(Modern, s2, l2) <==> l1 == l2
  {
    if l1 != l2 {
      assert |TextureFunction(Modern, s1, l1)| != |TextureFunction(Modern, s2, l2)|;
    }
  }
}
