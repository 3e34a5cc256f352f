/** The `atlantis` local of a module, read into per-module settings
    (cmd/parse_locals.go). */
module ParseLocals {
  import opened Wrappers
  import opened Terraform

  /** ResolvedLocals: the settings a module may override.  Option fields are
      Go's nil-able pointers and slices. */
  datatype ResolvedLocals = ResolvedLocals(
    atlantisWorkflow: string,
    applyRequirements: Option<seq<string>>,
    extraAtlantisDependencies: Option<seq<string>>,
    autoPlan: Option<bool>,
    skip: Option<bool>,
    terraformVersion: string,
    executionOrderGroup: int)

  const Defaults := ResolvedLocals("", None, None, None, None, "", 0)

  /** cty's AsString panics on a primitive value that is not a string. */
  datatype Panic = NotAString(key: string)

  /** The evaluated `atlantis` object, when the module has one that evaluates
      without errors. */
  function AtlantisValues(m: Module): Option<map<string, Value>> {
    if |m.locals| == 0 || "atlantis" !in m.locals then None
    else match m.locals["atlantis"]
      case EvalError => None
      case Object(fields) => Some(fields)
  }

  /** The value under `key` in the `atlantis` object, if any. */
  function Lookup(m: Module, key: string): Option<Value> {
    match AtlantisValues(m)
    case None => None
    case Some(values) => if key in values then Some(values[key]) else None
  }

  /** A present value of primitive type, read with AsString. */
  function StringField(v: Option<Value>, key: string): Result<string, Panic> {
    if v.Some? && IsPrimitive(v.value) then
      if v.value.Str? then Ok(v.value.s) else Err(NotAString(key))
    else Ok("")
  }

  /** A present value of Bool type, as a pointer to that bool. */
  function BoolField(v: Option<Value>): Option<bool> {
    if v.Some? && v.value.Bool? then Some(v.value.b) else None
  }

  /** `ss` holds the strings of the tuple elements `es`, position by position. */
  predicate StringsOf(es: seq<Value>, ss: seq<string>) {
    |es| == |ss| && forall k :: 0 <= k < |es| ==> es[k] == Str(ss[k])
  }

  /** AsString on each tuple element in turn: the strings, or None when some
      element is not a string. */
  function TupleStrings(es: seq<Value>): (r: Option<seq<string>>)
    ensures r.Some? <==> forall k :: 0 <= k < |es| ==> es[k].Str?
    ensures r.Some? ==> StringsOf(es, r.value)
  {
    if |es| == 0 then Some([])
    else
      var init := TupleStrings(es[..|es| - 1]);
      var last := es[|es| - 1];
      if init.Some? && last.Str? then Some(init.value + [last.s])
      else None
  }

  /** A present tuple, appended element by element to a nil slice: the slice
      stays nil when the tuple is empty, and AsString panics on an element
      that is not a string. */
  function ListField(v: Option<Value>, key: string): Result<Option<seq<string>>, Panic> {
    if v.Some? && v.value.Tuple? then
      match TupleStrings(v.value.elems)
      case None => Err(NotAString(key))
      case Some(ss) => Ok(if |ss| > 0 then Some(ss) else None)
    else Ok(None)
  }

  /** A present value of Number type, converted to an integer. */
  function NumberField(v: Option<Value>): int {
    if v.Some? && v.value.Num? then v.value.n else 0
  }

  predicate NonStringPrimitive(v: Option<Value>) {
    v.Some? && IsPrimitive(v.value) && !v.value.Str?
  }

  predicate NonEmptyTuple(v: Option<Value>) {
    v.Some? && v.value.Tuple? && |v.value.elems| > 0
  }

  /** A tuple with an element AsString panics on. */
  predicate NonStringElement(v: Option<Value>) {
    v.Some? && v.value.Tuple? && exists k :: 0 <= k < |v.value.elems| && !v.value.elems[k].Str?
  }

  /** The key whose read panics first, in the order resolveLocals reads them. */
  function FirstPanicKey(m: Module): string {
    if NonStringPrimitive(Lookup(m, "workflow")) then "workflow"
    else if NonStringPrimitive(Lookup(m, "terraform_version")) then "terraform_version"
    else if NonStringElement(Lookup(m, "apply_requirements")) then "apply_requirements"
    else "extra_dependencies"
  }

  /** resolveLocals. */
  function ResolveLocals(m: Module): (r: Result<ResolvedLocals, Panic>)
    ensures AtlantisValues(m).None? ==> r == Ok(Defaults)
    ensures r.Err? <==>
      || NonStringPrimitive(Lookup(m, "workflow")) || NonStringPrimitive(Lookup(m, "terraform_version"))
      || NonStringElement(Lookup(m, "apply_requirements")) || NonStringElement(Lookup(m, "extra_dependencies"))
    ensures r.Err? ==> r.error == NotAString(FirstPanicKey(m))
    ensures r.Ok? ==> var l := r.value;
      && (l.atlantisWorkflow != "" ==> Lookup(m, "workflow") == Some(Str(l.atlantisWorkflow)))
      && (Lookup(m, "workflow").Some? && Lookup(m, "workflow").value.Str? ==> l.atlantisWorkflow == Lookup(m, "workflow").value.s)
      && (l.terraformVersion != "" ==> Lookup(m, "terraform_version") == Some(Str(l.terraformVersion)))
      && (Lookup(m, "terraform_version").Some? && Lookup(m, "terraform_version").value.Str?
          ==> l.terraformVersion == Lookup(m, "terraform_version").value.s)
      && (l.executionOrderGroup != 0 ==> Lookup(m, "execution_order_group") == Some(Num(l.executionOrderGroup)))
      && (Lookup(m, "execution_order_group").Some? && Lookup(m, "execution_order_group").value.Num?
          ==> l.executionOrderGroup == Lookup(m, "execution_order_group").value.n)
      && (l.autoPlan.Some? <==> Lookup(m, "autoplan").Some? && Lookup(m, "autoplan").value.Bool?)
      && (l.autoPlan.Some? ==> Lookup(m, "autoplan") == Some(Bool(l.autoPlan.value)))
      && (l.skip.Some? <==> Lookup(m, "skip").Some? && Lookup(m, "skip").value.Bool?)
      && (l.skip.Some? ==> Lookup(m, "skip") == Some(Bool(l.skip.value)))
      && (l.applyRequirements.Some? <==> NonEmptyTuple(Lookup(m, "apply_requirements")))
      && (l.applyRequirements.Some? ==> StringsOf(Lookup(m, "apply_requirements").value.elems, l.applyRequirements.value))
      && (l.extraAtlantisDependencies.Some? <==> NonEmptyTuple(Lookup(m, "extra_dependencies")))
      && (l.extraAtlantisDependencies.Some? ==>
            StringsOf(Lookup(m, "extra_dependencies").value.elems, l.extraAtlantisDependencies.value))
  {
    if AtlantisValues(m).None? then Ok(Defaults)
    else
      match StringField(Lookup(m, "workflow"), "workflow")
      case Err(e) => Err(e)
      case Ok(workflow) =>
        var group := NumberField(Lookup(m, "execution_order_group"));
        match StringField(Lookup(m, "terraform_version"), "terraform_version")
        case Err(e) => Err(e)
        case Ok(version) =>
          match ListField(Lookup(m, "apply_requirements"), "apply_requirements")
          case Err(e) => Err(e)
          case Ok(applyRequirements) =>
            match ListField(Lookup(m, "extra_dependencies"), "extra_dependencies")
            case Err(e) => Err(e)
            case Ok(extraDependencies) =>
              Ok(ResolvedLocals(
                atlantisWorkflow := workflow,
                applyRequirements := applyRequirements,
                extraAtlantisDependencies := extraDependencies,
                autoPlan := BoolField(Lookup(m, "autoplan")),
                skip := BoolField(Lookup(m, "skip")),
                terraformVersion := version,
                executionOrderGroup := group))
  }

  /** Every key of the `atlantis` object that resolveLocals reads. */
  const KnownKeys: set<string> := {"workflow", "execution_order_group", "terraform_version",
    "autoplan", "skip", "apply_requirements", "extra_dependencies"}

  /** Adding or changing a key resolveLocals does not read changes nothing. */
  lemma {:induction false} UnknownKeysIgnored(m: Module, fields: map<string, Value>, key: string, v: Value)
    requires "atlantis" in m.locals && m.locals["atlantis"] == Object(fields)
    requires key !in KnownKeys
    ensures ResolveLocals(m.(locals := m.locals["atlantis" := Object(fields[key := v])])) == ResolveLocals(m)
  {
    var m' := m.(locals := m.locals["atlantis" := Object(fields[key := v])]);
    forall k | k in KnownKeys ensures Lookup(m', k) == Lookup(m, k) { }
  }

  /** A wrong-typed `skip` changes only the skip setting: every other field
      resolves as if the key were absent. */
  lemma {:induction false} WrongTypedSkipAffectsOnlySkip(m: Module, fields: map<string, Value>, v: Value)
    requires "atlantis" in m.locals && m.locals["atlantis"] == Object(fields)
    requires "skip" !in fields && !v.Bool?
    ensures ResolveLocals(m.(locals := m.locals["atlantis" := Object(fields["skip" := v])])) == ResolveLocals(m)
  {
    var m' := m.(locals := m.locals["atlantis" := Object(fields["skip" := v])]);
    forall k | k in KnownKeys - {"skip"} ensures Lookup(m', k) == Lookup(m, k) { }
  }
}
