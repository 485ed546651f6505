/** The `GLShader` wrapper of src/glshader.cpp and src/glshader.h: a program
    object that collects compiled stages, links them, and keeps a registry of
    uniform locations by name.

    The OpenGL driver is not modelled. What the wrapper learns from it comes
    in as parameters: whether a stage compiled (`glGetShaderiv`), whether the
    program linked (`glGetProgramiv`), whether the error flag is raised after
    linking (`glGetError`), and the answer of `glGetUniformLocation`. Shader
    object names come from `glCreateShader`, modelled as a counter of fresh
    non-zero names. A thrown `std::runtime_error` becomes the `error` of a
    `Step`, whose `after` is the wrapper's state once the exception has left
    the member function. */
module ShaderProgram {
  import opened Wrappers

  /** `GLint`: a 32-bit signed integer. */
  newtype GLint = x: int | -0x8000_0000 <= x < 0x8000_0000

  /** `glGetUniformLocation`'s answer for a name that is not an active uniform. */
  const NoLocation: GLint := -1

  /** `glGetUniformLocation(programID, name)` for the wrapper's program. */
  type LocationOracle = string -> GLint

  /** A shader object name (`GLuint`); 0 names no shader. */
  type ShaderName = nat

  datatype StageKind = Vertex | Geometry | Fragment

  /** The messages the wrapper throws, by cause. */
  datatype ShaderError =
    | CompileError(source: string, log: string)
    | LinkError(log: string)
    | NoSuchUniform(name: string)
    | GraphicsError

  /** The wrapper's fields, plus the part of the driver's state it acts on:
      which shader objects exist (`glIsShader`) and which are attached to
      the program. */
  datatype Shader = Shader(
    uniforms: map<string, GLint>,
    vertex: ShaderName,
    geometry: ShaderName,
    fragment: ShaderName,
    live: set<ShaderName>,
    attached: set<ShaderName>,
    nextName: ShaderName)
  {
    /** The `vertexShaderID`, `geometryShaderID` or `fragmentShaderID` field. */
    function Slot(kind: StageKind): ShaderName {
      match kind
      case Vertex => vertex
      case Geometry => geometry
      case Fragment => fragment
    }

    function SlotNames(): set<ShaderName> {
      {vertex, geometry, fragment}
    }
  }

  /** The state after a member function returned or threw, and what it threw. */
  datatype Step = Step(after: Shader, error: Option<ShaderError>)

  /** The outcomes the driver reports while a program is built. */
  datatype Driver = Driver(
    vertexCompiles: bool,
    vertexLog: string,
    fragmentCompiles: bool,
    fragmentLog: string,
    links: bool,
    linkLog: string,
    errorAfterLink: bool,
    location: LocationOracle)

  // ---------------------------------------------------------- invariants

  /** No registered uniform has the "no such uniform" location. */
  predicate NoMissingLocations(uniforms: map<string, GLint>) {
    forall name :: name in uniforms ==> uniforms[name] != NoLocation
  }

  /** Every cached location is the one the driver reports. */
  predicate AgreesWith(uniforms: map<string, GLint>, lookup: LocationOracle) {
    forall name :: name in uniforms ==> uniforms[name] == lookup(name)
  }

  /** The states the wrapper can reach. */
  predicate Valid(s: Shader) {
    && 0 < s.nextName
    && 0 !in s.live
    && s.attached <= s.live
    && (forall n :: n in s.live ==> n < s.nextName)
    && s.vertex < s.nextName && s.geometry < s.nextName && s.fragment < s.nextName
    && NoMissingLocations(s.uniforms)
  }

  /** A freshly constructed wrapper: no stages, no uniforms. */
  function NewShader(): (s: Shader)
    ensures Valid(s)
    ensures s.uniforms == map[] && s.attached == {} && s.live == {}
  {
    Shader(map[], 0, 0, 0, {}, {}, 1)
  }

  // ------------------------------------------------------------- uniforms

  /** `addUniform`: a cached name returns at once without asking the driver;
      otherwise the driver's location is cached, unless it is -1, which throws
      before anything is stored. */
  function AddUniform(s: Shader, name: string, lookup: LocationOracle): (r: Step)
    ensures r.after.(uniforms := s.uniforms) == s
    ensures r.error.None? <==> name in s.uniforms || lookup(name) != NoLocation
    ensures r.error.Some? ==> r.error.value == NoSuchUniform(name) && r.after == s
    ensures r.error.None? ==> name in r.after.uniforms && r.after.uniforms.Keys == s.uniforms.Keys + {name}
    ensures forall other :: other in s.uniforms ==> r.after.uniforms[other] == s.uniforms[other]
    ensures name !in s.uniforms && r.error.None? ==> r.after.uniforms[name] == lookup(name)
  {
    if name in s.uniforms then Step(s, None)
    else
      var loc := lookup(name);
      if loc == NoLocation then Step(s, Some(NoSuchUniform(name)))
      else Step(s.(uniforms := s.uniforms[name := loc]), None)
  }

  /** `getUniformLocation`: the cached location, or an error for a name never
      registered. It returns no new state, so it cannot change the registry. */
  function GetUniformLocation(s: Shader, name: string): (r: Result<GLint, ShaderError>)
    ensures r.Success? <==> name in s.uniforms
    ensures r.Success? ==> r.value == s.uniforms[name]
    ensures r.Failure? ==> r.error == NoSuchUniform(name)
  {
    if name in s.uniforms then Success(s.uniforms[name]) else Failure(NoSuchUniform(name))
  }

  /** No registered location is ever -1, and every cached location is the one
      the driver gave for that name. */
  lemma AddUniformKeepsInvariants(s: Shader, name: string, lookup: LocationOracle)
    requires NoMissingLocations(s.uniforms)
    ensures NoMissingLocations(AddUniform(s, name, lookup).after.uniforms)
    ensures AgreesWith(s.uniforms, lookup) ==> AgreesWith(AddUniform(s, name, lookup).after.uniforms, lookup)
  {
  }

  /** Registering a name twice leaves the same state as registering it once,
      and the second call does not throw. */
  lemma AddUniformIdempotent(s: Shader, name: string, lookup: LocationOracle)
    ensures var once := AddUniform(s, name, lookup);
            once.error.None? ==> AddUniform(once.after, name, lookup) == once
  {
  }

  /** For a registered name the driver is not consulted: any two drivers give
      the same outcome. */
  lemma AddUniformCachedIgnoresDriver(s: Shader, name: string, lookup1: LocationOracle, lookup2: LocationOracle)
    requires name in s.uniforms
    ensures AddUniform(s, name, lookup1) == AddUniform(s, name, lookup2) == Step(s, None)
  {
  }

  /** After a successful registration the name resolves, to the driver's
      location when it was new, and keeps resolving to the same value. */
  lemma AddThenGet(s: Shader, name: string, lookup: LocationOracle)
    ensures var r := AddUniform(s, name, lookup);
            r.error.None? ==>
              && GetUniformLocation(r.after, name).Success?
              && GetUniformLocation(r.after, name).value == (if name in s.uniforms then s.uniforms[name] else lookup(name))
              && (NoMissingLocations(s.uniforms) ==> GetUniformLocation(r.after, name).value != NoLocation)
  {
  }

  /** Registers the names in order, stopping at the first that throws. */
  function AddUniforms(s: Shader, names: seq<string>, lookup: LocationOracle): Step
    decreases |names|
  {
    if |names| == 0 then Step(s, None)
    else
      var r := AddUniform(s, names[0], lookup);
      if r.error.Some? then r else AddUniforms(r.after, names[1..], lookup)
  }

  /** Registering a list succeeds exactly when each name is either cached or
      known to the driver; then the registry gains exactly those names, each at
      the driver's location, and keeps every earlier entry. */
  lemma {:induction false} AddUniformsOutcome(s: Shader, names: seq<string>, lookup: LocationOracle)
    requires AgreesWith(s.uniforms, lookup)
    ensures var r := AddUniforms(s, names, lookup);
            && (r.error.None? <==> forall i :: 0 <= i < |names| ==> names[i] in s.uniforms || lookup(names[i]) != NoLocation)
            && r.after.(uniforms := s.uniforms) == s
            && AgreesWith(r.after.uniforms, lookup)
            && (r.error.None? ==> r.after.uniforms.Keys == s.uniforms.Keys + set i | 0 <= i < |names| :: names[i])
    decreases |names|
  {
    if |names| > 0 {
      var r := AddUniform(s, names[0], lookup);
      if r.error.None? {
        AddUniformsOutcome(r.after, names[1..], lookup);
        var rest := set i | 0 <= i < |names[1..]| :: names[1..][i];
        var all := set i | 0 <= i < |names| :: names[i];
        assert all == {names[0]} + rest by {
          forall x | x in all ensures x in {names[0]} + rest {
            var i :| 0 <= i < |names| && names[i] == x;
            if i > 0 {
              assert names[1..][i - 1] == x;
            }
          }
        }
        forall i | 0 < i < |names|
          ensures names[i] == names[1..][i - 1]
        {
        }
      }
    }
  }

  // --------------------------------------------------------------- stages

  /** `glCreateShader` stored into the stage's ID field. */
  function CreateShader(s: Shader, kind: StageKind): (r: (Shader, ShaderName))
    ensures Valid(s) ==> r.1 !in s.live && r.1 != 0
    ensures r.0.Slot(kind) == r.1 && r.0.live == s.live + {r.1}
    ensures forall k :: k != kind ==> r.0.Slot(k) == s.Slot(k)
    ensures r.0.uniforms == s.uniforms && r.0.attached == s.attached
  {
    var name := s.nextName;
    var s' := s.(nextName := name + 1, live := s.live + {name});
    match kind
    case Vertex => (s'.(vertex := name), name)
    case Geometry => (s'.(geometry := name), name)
    case Fragment => (s'.(fragment := name), name)
  }

  /** `add_shader`: compile the stage, throw with the source and the driver's
      log if that failed, otherwise attach it to the program. */
  function AddShader(s: Shader, name: ShaderName, source: string, compiles: bool, log: string): (r: Step)
    ensures r.after.(attached := s.attached) == s
    ensures r.error.None? <==> compiles
    ensures r.error.Some? ==> r.error.value == CompileError(source, log) && r.after.attached == s.attached
    ensures r.error.None? ==> r.after.attached == s.attached + {name}
  {
    if !compiles then Step(s, Some(CompileError(source, log)))
    else Step(s.(attached := s.attached + {name}), None)
  }

  /** `addVertexStage`. */
  function AddVertexStage(s: Shader, source: string, compiles: bool, log: string): (r: Step)
    ensures Valid(s) ==> r.after.vertex !in s.live
    ensures Valid(s) ==> (r.after.vertex in r.after.attached <==> compiles)
    ensures r.after.fragment == s.fragment && r.after.geometry == s.geometry
  {
    var (s1, name) := CreateShader(s, Vertex);
    AddShader(s1, name, source, compiles, log)
  }

  /** `addFragmentStage`. */
  function AddFragmentStage(s: Shader, source: string, compiles: bool, log: string): (r: Step)
    ensures Valid(s) ==> r.after.fragment !in s.live
    ensures Valid(s) ==> (r.after.fragment in r.after.attached <==> compiles)
    ensures r.after.vertex == s.vertex && r.after.geometry == s.geometry
  {
    var (s1, name) := CreateShader(s, Fragment);
    AddShader(s1, name, source, compiles, log)
  }

  /** Adding a stage never detaches anything, nor touches the uniforms; only
      a stage that compiled is attached; the new object is created either way
      and its name is left in the stage's ID field. */
  lemma AddStageFrame(s: Shader, kind: StageKind, source: string, compiles: bool, log: string)
    requires kind != Geometry
    ensures var r := if kind == Vertex then AddVertexStage(s, source, compiles, log)
                     else AddFragmentStage(s, source, compiles, log);
            && r.after.uniforms == s.uniforms
            && s.attached <= r.after.attached
            && r.after.live == s.live + {r.after.Slot(kind)}
            && r.after.attached == (if compiles then s.attached + {r.after.Slot(kind)} else s.attached)
            && (r.error.Some? <==> !compiles)
  {
  }

  /** `glIsShader`, then `glDetachShader` and `glDeleteShader`. */
  function Release(s: Shader, name: ShaderName): Shader {
    if name in s.live then s.(attached := s.attached - {name}, live := s.live - {name}) else s
  }

  /** `compile`: link; a failed link throws before any stage is touched.
      After a successful link the stage in each ID field that still exists is
      detached and deleted, then a raised error flag throws. */
  function Compile(s: Shader, links: bool, log: string, errorAfterLink: bool): (r: Step)
    ensures !links ==> r.after == s && r.error == Some(LinkError(log))
    ensures links ==> r.after.live == s.live - s.SlotNames()
    ensures links ==> r.after.attached == s.attached - (s.SlotNames() * s.live)
    ensures links ==> r.after.(live := s.live, attached := s.attached) == s
    ensures links ==> (r.error.Some? <==> errorAfterLink)
    ensures links && errorAfterLink ==> r.error == Some(GraphicsError)
  {
    if !links then Step(s, Some(LinkError(log)))
    else
      var released := Release(Release(Release(s, s.vertex), s.geometry), s.fragment);
      Step(released, if errorAfterLink then Some(GraphicsError) else None)
  }

  /** Stages are detached only after a successful link: if anything was
      detached, the link succeeded; after it, no stage in an ID field remains
      attached or alive. */
  lemma CompileDetachesOnlyAfterLink(s: Shader, links: bool, log: string, errorAfterLink: bool)
    ensures var r := Compile(s, links, log, errorAfterLink);
            && (r.after.attached != s.attached ==> links)
            && (Valid(s) && links ==> forall kind :: r.after.Slot(kind) !in r.after.attached && r.after.Slot(kind) !in r.after.live)
  {
  }

  /** Each member function keeps the wrapper in a reachable state, whether it
      returns or throws. */
  lemma OperationsKeepValid(s: Shader, source: string, compiles: bool, log: string,
                            name: string, lookup: LocationOracle, links: bool, errorAfterLink: bool)
    requires Valid(s)
    ensures Valid(AddVertexStage(s, source, compiles, log).after)
    ensures Valid(AddFragmentStage(s, source, compiles, log).after)
    ensures Valid(AddUniform(s, name, lookup).after)
    ensures Valid(Compile(s, links, log, errorAfterLink).after)
  {
  }

  // --------------------------------------------------------- whole program

  /** The uniform the strip's vertex shader declares. */
  const PosUniform: string := "pos"

  /** `Strip::initShader` up to the uniform lookup: build the program from the
      two embedded sources, link it, register `pos` and read its location. */
  function BuildStripShader(vertexSource: string, fragmentSource: string, gl: Driver)
    : (r: Result<(Shader, GLint), ShaderError>)
    ensures r.Success? ==> r.value.1 != NoLocation && r.value.0.uniforms == map[PosUniform := r.value.1]
    ensures r.Success? ==> Valid(r.value.0)
  {
    var v := AddVertexStage(NewShader(), vertexSource, gl.vertexCompiles, gl.vertexLog);
    if v.error.Some? then Failure(v.error.value) else
    var f := AddFragmentStage(v.after, fragmentSource, gl.fragmentCompiles, gl.fragmentLog);
    if f.error.Some? then Failure(f.error.value) else
    var c := Compile(f.after, gl.links, gl.linkLog, gl.errorAfterLink);
    if c.error.Some? then Failure(c.error.value) else
    var u := AddUniform(c.after, PosUniform, gl.location);
    if u.error.Some? then Failure(u.error.value) else
    var loc := GetUniformLocation(u.after, PosUniform);
    if loc.Failure? then Failure(loc.error) else Success((u.after, loc.value))
  }

  /** Building the strip's program succeeds exactly when both stages compile,
      the program links with no error raised and `pos` is an active uniform.
      Then both stages are detached and deleted, `pos` is the only registered
      uniform, and its location is the driver's. The first failure decides
      the error. */
  lemma BuildStripShaderOutcome(vertexSource: string, fragmentSource: string, gl: Driver)
    ensures var r := BuildStripShader(vertexSource, fragmentSource, gl);
            && (r.Success? <==> gl.vertexCompiles && gl.fragmentCompiles && gl.links
                                && !gl.errorAfterLink && gl.location(PosUniform) != NoLocation)
            && (r.Success? ==> r.value.0.attached == {} && r.value.0.live == {}
                               && r.value.0.uniforms == map[PosUniform := gl.location(PosUniform)]
                               && r.value.1 == gl.location(PosUniform))
            && (!gl.vertexCompiles ==> r == Failure(CompileError(vertexSource, gl.vertexLog)))
            && (gl.vertexCompiles && !gl.fragmentCompiles ==> r == Failure(CompileError(fragmentSource, gl.fragmentLog)))
            && (gl.vertexCompiles && gl.fragmentCompiles && !gl.links ==> r == Failure(LinkError(gl.linkLog)))
            && (gl.vertexCompiles && gl.fragmentCompiles && gl.links && gl.errorAfterLink ==> r == Failure(GraphicsError))
            && ((gl.vertexCompiles && gl.fragmentCompiles && gl.links && !gl.errorAfterLink
                 && gl.location(PosUniform) == NoLocation) ==> r == Failure(NoSuchUniform(PosUniform)))
  {
    var s0 := NewShader();
    var v := AddVertexStage(s0, vertexSource, gl.vertexCompiles, gl.vertexLog);
    if v.error.None? {
      var f := AddFragmentStage(v.after, fragmentSource, gl.fragmentCompiles, gl.fragmentLog);
      if f.error.None? {
        assert f.after.live == {1, 2} && f.after.attached == {1, 2};
        assert f.after.SlotNames() == {1, 0, 2};
      }
    }
  }
}
