/**
 * Value types shared by the filter engine (src/gips_core.h): parameter
 * kinds, parameters, per-pass render settings and the diagnostics a node
 * collects while it is loaded or restored from a pipeline file.
 *
 * C++ `float` values are modelled as `real`: rounding, NaN and infinities
 * are not part of this model.
 */
module GipsTypes {
  import opened StringUtil

  /** `MaxPasses`: a filter has at most four render passes. */
  const MaxPasses: nat := 4

  /**
   * `ParameterType`, as used by the loader, the renderer and the pipeline
   * file code (the header shown declares only Value, RGB and RGBA).
   */
  datatype ParameterType = Value | Value2 | Value3 | Value4 | Toggle | Angle | RGB | RGBA

  /** The four `float` slots of a parameter value. */
  type Vec4 = v: seq<real> | |v| == 4 witness [0.0, 0.0, 0.0, 0.0]

  const Zero4: Vec4 := [0.0, 0.0, 0.0, 0.0]

  /**
   * `Parameter`. `digits < 0` means "derive the number of digits from the
   * range"; `format` holds the unit until the loader finalises it.
   */
  datatype Parameter = Parameter(
    name: string,
    desc: string,
    ptype: ParameterType,
    minValue: real,
    maxValue: real,
    value: Vec4,
    oldValue: Vec4,
    defaultValue: Vec4,
    digits: int,
    format: string)

  /** A default-constructed `Parameter` with the given name. */
  function NewParameter(name: string, ptype: ParameterType): (p: Parameter)
    ensures p.name == name && p.desc == [] && p.ptype == ptype
    ensures p.minValue == 0.0 && p.maxValue == 1.0
    ensures forall i :: 0 <= i < 4 ==> p.value[i] == 0.0 && p.oldValue[i] == 0.0
    ensures p.digits < 0 && p.format == []
  {
    Parameter(name, [], ptype, 0.0, 1.0, Zero4, Zero4, Zero4, -1, [])
  }

  /** `Parameter::desc`: the description, or the name when there is none. */
  function Desc(p: Parameter): (d: string)
    ensures d == p.desc || (p.desc == [] && d == p.name)
    ensures |d| > 0 <==> |p.desc| > 0 || |p.name| > 0
  {
    if p.desc == [] then p.name else p.desc
  }

  /** Whether some of the four slots differs from the value seen by the last `changed()`. */
  predicate ParamDirty(p: Parameter) {
    exists i :: 0 <= i < 4 && p.value[i] != p.oldValue[i]
  }

  /** The parameter after `changed()`: the old value is the current value. */
  function Consumed(p: Parameter): (q: Parameter)
    ensures !ParamDirty(q)
    ensures q.value == p.value && q.name == p.name && q.ptype == p.ptype
  {
    p.(oldValue := p.value)
  }

  /** `Parameter::changed`: compares and copies the four slots one by one. */
  method ParameterChanged(p: Parameter) returns (res: bool, q: Parameter)
    ensures res == ParamDirty(p)
    ensures q == Consumed(p)
  {
    res := false;
    var old4 := p.oldValue;
    var i := 0;
    while i < 4
      invariant 0 <= i <= 4
      invariant |old4| == 4
      invariant res <==> exists j :: 0 <= j < i && p.value[j] != p.oldValue[j]
      invariant forall j :: 0 <= j < i ==> old4[j] == p.value[j]
      invariant forall j :: i <= j < 4 ==> old4[j] == p.oldValue[j]
    {
      if p.value[i] != old4[i] { res := true; }
      old4 := old4[i := p.value[i]];
      i := i + 1;
    }
    assert old4 == p.value;
    q := p.(oldValue := old4);
  }

  /** A parameter fresh from the constructor reports no change. */
  lemma NewParameterClean(name: string, ptype: ParameterType)
    ensures !ParamDirty(NewParameter(name, ptype))
  {
  }

  /** Consuming the change flag twice is the same as consuming it once. */
  lemma ConsumedIdempotent(p: Parameter)
    ensures Consumed(Consumed(p)) == Consumed(p)
  {
  }

  /**
   * The number of `float`s `render` uploads for a parameter (the
   * `glUniform*` switch): 1, 2, 3 or 4, and 0 for a type the switch falls
   * through, which is `Angle`.
   */
  function UniformArity(t: ParameterType): (n: nat)
    ensures n <= 4
    ensures n == 0 <==> t == Angle
    ensures n == 1 <==> t == Value || t == Toggle
    ensures n == 3 <==> t == Value3 || t == RGB
    ensures n == 4 <==> t == Value4 || t == RGBA
  {
    match t
    case Value | Toggle => 1
    case Value2 => 2
    case Value3 | RGB => 3
    case Value4 | RGBA => 4
    case Angle => 0
  }

  /** `CoordMapMode`: how fragment coordinates are mapped for a pass. */
  datatype CoordMapMode = MapNone | MapPixel | MapRelative

  /** The per-pass settings the loader records (texture filter and coordinate mapping). */
  datatype PassData = PassData(texFilter: bool, coordMode: CoordMapMode)

  const DefaultPass: PassData := PassData(true, MapPixel)

  /**
   * The messages appended to a node's error text. The C++ code builds
   * strings; the model keeps which message it is and the text it quotes.
   */
  datatype Diagnostic =
    | OpenFailed(path: string)
    | NeedsParamScope(key: string)
    | NeedsGlobalScope(key: string)
    | NeedsValue(key: string)
    | NeedsNumber(key: string)
    | IncompatibleFormat(key: string, param: string)
    | UnknownCoordMode(value: string)
    | UnknownFilterMode(value: string)
    | VersionTooNew(version: real)
    | UnrecognizedAnnotation(key: string)
    | UnsupportedUniform(token: string)
    | NoRunFunction
    | BuildFailed(pass: nat)
    | MissingPasses
    | SyntaxError(line: string)
    | EmptyValue(quoted: string)
    | InvalidColor(value: string, key: string)
    | InvalidValue(value: string, key: string)
    | TooManyValues(key: string)
    | UnknownParameter(key: string)

  /** The index of the first parameter called `name`, if any. */
  function FirstNamed(ps: seq<Parameter>, name: string): (r: Option<nat>)
    ensures r.Some? ==> (r.value < |ps| && ps[r.value].name == name
                         && forall j :: 0 <= j < r.value ==> ps[j].name != name)
    ensures r.None? ==> forall j :: 0 <= j < |ps| ==> ps[j].name != name
  {
    if ps == [] then None
    else if ps[0].name == name then Some(0)
    else match FirstNamed(ps[1..], name)
      case None => None
      case Some(k) => Some(k + 1)
  }

  /** `Node::findParam`: the first parameter whose name equals `name`, or none (null). */
  method FindParam(ps: seq<Parameter>, name: string) returns (r: Option<nat>)
    ensures r == FirstNamed(ps, name)
  {
    var i := 0;
    while i < |ps|
      invariant 0 <= i <= |ps|
      invariant forall j :: 0 <= j < i ==> ps[j].name != name
    {
      if ps[i].name == name {
        FirstNamedUnique(ps, name, i);
        return Some(i);
      }
      i := i + 1;
    }
    r := None;
  }

  /** A position with the name and no earlier one is what `FirstNamed` finds. */
  lemma FirstNamedUnique(ps: seq<Parameter>, name: string, k: nat)
    requires k < |ps| && ps[k].name == name
    requires forall j :: 0 <= j < k ==> ps[j].name != name
    ensures FirstNamed(ps, name) == Some(k)
  {
    var r := FirstNamed(ps, name);
    assert r.value == k;
  }
}
