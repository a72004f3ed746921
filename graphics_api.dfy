/** Graphics-API names on the command line (`--graphics-api`) and the controller that
    records which backend the next launch should use. */
module GraphicsApis {
  import opened Text

  /** `QSGRendererInterface::GraphicsApi`. */
  datatype GraphicsApi = Unknown | Software | OpenVG | OpenGL | Direct3D11 | Vulkan | Metal | Null | Direct3D12

  /** The APIs a name can select. */
  predicate Selectable(api: GraphicsApi) {
    api.OpenGL? || api.Vulkan? || api.Direct3D11? || api.Metal? || api.Software?
  }

  /** The names the parser knows. */
  predicate KnownName(s: string) {
    s == "opengl" || s == "vulkan" || s == "d3d11" || s == "metal" || s == "software"
  }

  /** `parseGraphicsApi`: the API a (normalised) name selects, OpenGL for any other name. */
  function ParseGraphicsApi(name: string): (api: GraphicsApi)
    ensures Selectable(api)
    ensures !KnownName(Normalize(name)) ==> api == OpenGL
    ensures KnownName(Normalize(name)) ==> GraphicsApiToString(api) == Normalize(name)
  {
    var normalized := Normalize(name);
    if normalized == "opengl" then OpenGL
    else if normalized == "vulkan" then Vulkan
    else if normalized == "d3d11" then Direct3D11
    else if normalized == "metal" then Metal
    else if normalized == "software" then Software
    else OpenGL
  }

  /** `graphicsApiToString`: the name of a selectable API, "opengl" for any other. */
  function GraphicsApiToString(api: GraphicsApi): (name: string)
    ensures KnownName(name)
    ensures !Selectable(api) ==> name == "opengl"
  {
    match api
    case OpenGL => "opengl"
    case Vulkan => "vulkan"
    case Direct3D11 => "d3d11"
    case Metal => "metal"
    case Software => "software"
    case _ => "opengl"
  }

  /** Every known name is in normal form. */
  lemma KnownNameNormalized(s: string)
    requires KnownName(s)
    ensures Normalize(s) == s
  {
    NormalizeFixed(s);
  }

  /** Printing a selectable API and parsing the name gives the API back. */
  lemma ParsePrintRoundTrip(api: GraphicsApi)
    requires Selectable(api)
    ensures ParseGraphicsApi(GraphicsApiToString(api)) == api
  {
    KnownNameNormalized(GraphicsApiToString(api));
  }

  /** Case and surrounding white space do not affect parsing. */
  lemma ParseIgnoresCaseAndSpace(s: string)
    ensures ParseGraphicsApi(s) == ParseGraphicsApi(Normalize(s))
  {
    NormalizeIdempotent(s);
  }

  /** `GraphicsBackendController`: the backend in use and the one chosen for the next launch. */
  class GraphicsBackendController {
    const currentBackend: string
    var targetBackend: string

    /** The target starts as the current backend or, once set, is a normalised, non-empty name. */
    ghost predicate Valid()
      reads this
    {
      targetBackend == currentBackend || (targetBackend != "" && Normalize(targetBackend) == targetBackend)
    }

    constructor (current: string)
      ensures currentBackend == current && targetBackend == current
      ensures Valid()
    {
      currentBackend := current;
      targetBackend := current;
    }

    /** `setTargetBackend`: stores the normalised name unless it is empty or already the target. */
    method SetTargetBackend(value: string)
      requires Valid()
      modifies this
      ensures Valid()
      ensures var normalized := Normalize(value);
        targetBackend == if normalized == "" then old(targetBackend) else normalized
    {
      var normalized := Normalize(value);
      if normalized == "" || targetBackend == normalized {
        return;
      }
      NormalizeIdempotent(value);
      targetBackend := normalized;
    }

    /** `applyAndRestart`: succeeds at once when nothing changes; otherwise the outcome is that
        of launching a new process, given here as `launched`. */
    method ApplyAndRestart(launched: bool) returns (ok: bool)
      ensures targetBackend == currentBackend ==> ok
      ensures targetBackend != currentBackend ==> ok == launched
    {
      if targetBackend == currentBackend {
        return true;
      }
      return launched;
    }
  }
}
